/** Saving the credential database to a file and loading it back. */
module FileManager {
  import opened Base
  import opened IdmCommon

  const MAX_BUFFER_LEN := 512000
  const DEFAULT_EXPANSION_RATIO := 2
  const PRE_APPLY_LEN := 2048
  const VERSION: u32 := 0

  // ----- the growing buffer ----------------------------------------------------------------------

  /** size doubled k times. */
  function Scaled(size: nat, k: nat): nat {
    if k == 0 then size else DEFAULT_EXPANSION_RATIO * Scaled(size, k - 1)
  }

  lemma {:induction false} ScaledTwice(size: nat, k: nat)
    ensures Scaled(2 * size, k) == Scaled(size, k + 1)
  {
    if k > 0 {
      ScaledTwice(size, k - 1);
    }
  }

  /** The size CapacityExpansion's doubling loop stops at. */
  function Doubled(size: nat, target: nat): (r: nat)
    requires 0 < size
    decreases target - size
  {
    if size < target && size <= MAX_BUFFER_LEN / DEFAULT_EXPANSION_RATIO
    then Doubled(size * DEFAULT_EXPANSION_RATIO, target)
    else size
  }

  /** The loop stops at the least doubling that reaches the target or passes half the cap. */
  lemma {:induction false} DoubledIsLeast(size: nat, target: nat) returns (k: nat)
    requires 0 < size <= MAX_BUFFER_LEN
    ensures Doubled(size, target) == Scaled(size, k) <= MAX_BUFFER_LEN
    ensures forall j :: 0 <= j < k ==> Scaled(size, j) < target && Scaled(size, j) <= MAX_BUFFER_LEN / 2
    ensures Doubled(size, target) >= target || Doubled(size, target) > MAX_BUFFER_LEN / 2
    decreases target - size
  {
    k := 0;
    if size < target && size <= MAX_BUFFER_LEN / 2 {
      var m := DoubledIsLeast(2 * size, target);
      k := m + 1;
      ScaledTwice(size, m);
      forall j | 0 <= j < k
        ensures Scaled(size, j) < target && Scaled(size, j) <= MAX_BUFFER_LEN / 2
      {
        if j > 0 {
          ScaledTwice(size, j - 1);
        }
      }
    }
  }

  class Buffer {
    var buf: array<byte>
    var contentSize: nat
    var maxSize: nat

    /** IsBufferValid. */
    ghost predicate Valid()
      reads this
    {
      maxSize == buf.Length && 0 < maxSize <= MAX_BUFFER_LEN && contentSize <= maxSize
    }

    ghost function Contents(): (s: seq<byte>)
      requires Valid()
      reads this, buf
      ensures |s| == contentSize
    {
      buf[..contentSize]
    }

    /** CreateBufferBySize for a size in range. */
    constructor (size: nat)
      requires 0 < size <= MAX_BUFFER_LEN
      ensures Valid() && maxSize == size && contentSize == 0 && fresh(this) && fresh(buf)
    {
      buf := new byte[size](_ => 0);
      contentSize, maxSize := 0, size;
    }

    /** CreateBufferByData: a full buffer holding a copy of data. */
    constructor FromData(data: seq<byte>)
      requires 0 < |data| <= MAX_BUFFER_LEN
      ensures Valid() && Contents() == data && fresh(this) && fresh(buf)
    {
      buf := new byte[|data|](i requires 0 <= i < |data| => data[i]);
      contentSize, maxSize := |data|, |data|;
    }
  }

  method CapacityExpansion(parcel: Buffer, targetCapacity: u32, malloced: bool) returns (r: ResultCode)
    requires parcel.Valid()
    modifies parcel
    ensures parcel.Valid() && parcel.Contents() == old(parcel.Contents())
    ensures r == RESULT_SUCCESS <==>
            && old(parcel.maxSize) <= MAX_BUFFER_LEN / 2
            && Doubled(old(parcel.maxSize), targetCapacity) >= targetCapacity
            && malloced
    ensures r == RESULT_SUCCESS ==>
              parcel.maxSize == Doubled(old(parcel.maxSize), targetCapacity) && fresh(parcel.buf)
    ensures r != RESULT_SUCCESS ==> unchanged(parcel)
  {
    if parcel.maxSize > MAX_BUFFER_LEN / DEFAULT_EXPANSION_RATIO {
      return RESULT_BAD_PARAM;
    }
    var targetSize := parcel.maxSize;
    while targetSize < targetCapacity && targetSize <= MAX_BUFFER_LEN / DEFAULT_EXPANSION_RATIO
      invariant parcel.maxSize <= targetSize <= MAX_BUFFER_LEN
      invariant Doubled(parcel.maxSize, targetCapacity) == Doubled(targetSize, targetCapacity)
    {
      targetSize := targetSize * DEFAULT_EXPANSION_RATIO;
    }
    if targetSize < targetCapacity {
      return RESULT_BAD_PARAM;
    }
    if !malloced {
      return RESULT_NO_MEMORY;
    }
    var buf := new byte[targetSize](_ => 0);
    forall i | 0 <= i < parcel.contentSize {
      buf[i] := parcel.buf[i];
    }
    parcel.buf := buf;
    parcel.maxSize := targetSize;
    return RESULT_SUCCESS;
  }

  /** A write of bytes in pieces of at most piece bytes each took the content from was to now.
      When every piece is no larger than the buffer, the capacity stays and the write succeeds
      exactly when the bytes fit. */
  ghost predicate Wrote(ok: bool, piece: nat, was: seq<byte>, maxWas: nat, now: seq<byte>, max: nat, bytes: seq<byte>) {
    && (ok ==> now == was + bytes)
    && (piece <= maxWas ==> max == maxWas && (ok <==> |was| + |bytes| <= max))
  }

  lemma WroteThen(ok: bool, piece: nat, s0: seq<byte>, m0: nat, s1: seq<byte>, m1: nat, s2: seq<byte>, m2: nat,
                  a: seq<byte>, b: seq<byte>)
    requires Wrote(true, piece, s0, m0, s1, m1, a) && Wrote(ok, piece, s1, m1, s2, m2, b)
    ensures Wrote(ok, piece, s0, m0, s2, m2, a + b)
  {
    assert s0 + a + b == s0 + (a + b);
  }

  /** Appends from to the content or leaves the content as it was. The capacity asked for is the
      size of the record alone, so a buffer that holds one record is replaced by one as large. */
  method StreamWrite(parcel: Buffer, from: seq<byte>, malloced: bool) returns (r: ResultCode)
    requires parcel.Valid() && |from| < 0x1_0000_0000
    modifies parcel, parcel.buf
    ensures parcel.Valid()
    ensures parcel.buf == old(parcel.buf) || fresh(parcel.buf)
    ensures parcel.Contents() == old(parcel.Contents()) + (if r == RESULT_SUCCESS then from else [])
    ensures r == RESULT_SUCCESS <==>
            || old(parcel.contentSize) + |from| <= old(parcel.maxSize)
            || (&& old(parcel.maxSize) <= MAX_BUFFER_LEN / 2
                && malloced
                && old(parcel.contentSize) + |from| <= Doubled(old(parcel.maxSize), |from|))
    ensures Wrote(r == RESULT_SUCCESS, |from|, old(parcel.Contents()), old(parcel.maxSize),
                  parcel.Contents(), parcel.maxSize, from)
  {
    if parcel.maxSize - parcel.contentSize < |from| {
      var result := CapacityExpansion(parcel, |from|, malloced);
      if result != RESULT_SUCCESS {
        return result;
      }
    }
    if parcel.maxSize - parcel.contentSize < |from| {
      return RESULT_NO_MEMORY;
    }
    ghost var was := parcel.Contents();
    forall i | 0 <= i < |from| {
      parcel.buf[parcel.contentSize + i] := from[i];
    }
    parcel.contentSize := parcel.contentSize + |from|;
    assert parcel.Contents() == was + from;
    return RESULT_SUCCESS;
  }

  // ----- the file format -------------------------------------------------------------------------

  function CountedBytes<T>(list: seq<T>, encode: T -> seq<byte>): seq<byte> {
    U32Bytes(Count(|list|)) + Records(list, encode)
  }

  function UserBytes(u: User): seq<byte> {
    U32Bytes(U32OfI32(u.userId)) + U64Bytes(u.secUid)
    + CountedBytes(u.credentials, CredentialBytes) + CountedBytes(u.enrolled, EnrolledBytes)
  }

  function FileHeader(n: nat): (b: seq<byte>)
    ensures |b| == 8
  {
    U32Bytes(VERSION) + U32Bytes(Count(n))
  }

  function FileOf<T>(list: seq<T>, encode: T -> seq<byte>): seq<byte> {
    FileHeader(|list|) + Records(list, encode)
  }

  function FileBytes(users: seq<User>): seq<byte> {
    FileOf(users, UserBytes)
  }

  /** A file is the version and the number of users, and then the users. */
  lemma FileLayout(users: seq<User>)
    requires |users| <= 0xFFFF_FFFF
    ensures var b := FileBytes(users);
            b[0..4] == LeBytes(VERSION, 4) && b[4..8] == LeBytes(|users|, 4) && b[8..] == Records(users, UserBytes)
  {
    HeaderThen(U32Bytes(VERSION), U32Bytes(Count(|users|)), Records(users, UserBytes));
  }

  lemma HeaderThen(a: seq<byte>, b: seq<byte>, rest: seq<byte>)
    requires |a| == |b| == 4
    ensures var s := a + b + rest; s[0..4] == a && s[4..8] == b && s[8..] == rest
  {}

  /** A user is its id and secure uid, the number of credentials and those, the number of enrolled entries and those. */
  lemma UserLayout(u: User)
    requires |u.credentials| <= 0xFFFF_FFFF && |u.enrolled| <= 0xFFFF_FFFF
    ensures var b, m := UserBytes(u), 16 + CREDENTIAL_SIZE * |u.credentials|;
            && |b| >= m + 4
            && b[0..4] == LeBytes(if u.userId < 0 then u.userId + 0x1_0000_0000 else u.userId, 4)
            && b[4..12] == LeBytes(u.secUid, 8) && b[12..16] == LeBytes(|u.credentials|, 4)
            && b[16..m] == Records(u.credentials, CredentialBytes)
            && b[m..m + 4] == LeBytes(|u.enrolled|, 4) && b[m + 4..] == Records(u.enrolled, EnrolledBytes)
  {
    RecordsLength(u.credentials, CredentialBytes, CREDENTIAL_SIZE);
    UserParts(U32Bytes(U32OfI32(u.userId)), U64Bytes(u.secUid), U32Bytes(Count(|u.credentials|)),
              Records(u.credentials, CredentialBytes), U32Bytes(Count(|u.enrolled|)),
              Records(u.enrolled, EnrolledBytes));
  }

  lemma UserParts(id: seq<byte>, uid: seq<byte>, n: seq<byte>, cs: seq<byte>, k: seq<byte>, es: seq<byte>)
    requires |id| == |n| == |k| == 4 && |uid| == 8
    ensures var b, m := id + uid + (n + cs) + (k + es), 16 + |cs|;
            && |b| >= m + 4 && b[0..4] == id && b[4..12] == uid && b[12..16] == n && b[16..m] == cs
            && b[m..m + 4] == k && b[m + 4..] == es
  {
    var front := id + uid + (n + cs);
    var b := front + (k + es);
    assert front[0..4] == id && front[4..12] == uid && front[12..16] == n && front[16..] == cs;
    assert b[..|front|] == front && b[|front|..] == k + es;
  }

  function UserSize(u: User): nat {
    20 + CREDENTIAL_SIZE * |u.credentials| + ENROLLED_SIZE * |u.enrolled|
  }

  function UsersSize(users: seq<User>): nat {
    if |users| == 0 then 0 else UserSize(users[0]) + UsersSize(users[1..])
  }

  lemma UserBytesLength(u: User)
    ensures |UserBytes(u)| == UserSize(u)
  {
    RecordsLength(u.credentials, CredentialBytes, CREDENTIAL_SIZE);
    RecordsLength(u.enrolled, EnrolledBytes, ENROLLED_SIZE);
  }

  /** The file takes 8 bytes, 20 for each user, 40 for each credential and 16 for each enrolled entry. */
  lemma {:induction false} FileBytesLength(users: seq<User>)
    ensures |Records(users, UserBytes)| == UsersSize(users)
    ensures |FileBytes(users)| == 8 + UsersSize(users)
  {
    if |users| == 0 {
    } else {
      FileBytesLength(users[1..]);
      UserBytesLength(users[0]);
    }
  }

  /** Wrote for the first i records extends to the next one, or fails for the whole list. */
  lemma WroteRecord<T>(ok: bool, piece: nat, s0: seq<byte>, m0: nat, s1: seq<byte>, m1: nat, s2: seq<byte>, m2: nat,
                       header: seq<byte>, list: seq<T>, i: nat, encode: T -> seq<byte>)
    requires i < |list|
    requires Wrote(true, piece, s0, m0, s1, m1, header + Records(list[..i], encode))
    requires Wrote(ok, piece, s1, m1, s2, m2, encode(list[i]))
    ensures Wrote(ok, piece, s0, m0, s2, m2, header + Records(list[..i + 1], encode))
    ensures !ok ==> Wrote(ok, piece, s0, m0, s2, m2, header + Records(list, encode))
  {
    RecordsStep(list, i, encode);
    WroteMore(ok, piece, s0, m0, s1, m1, s2, m2, header, Records(list[..i], encode), encode(list[i]),
              Records(list, encode));
  }

  lemma WroteMore(ok: bool, piece: nat, s0: seq<byte>, m0: nat, s1: seq<byte>, m1: nat, s2: seq<byte>, m2: nat,
                  header: seq<byte>, a: seq<byte>, x: seq<byte>, all: seq<byte>)
    requires |a| + |x| <= |all|
    requires Wrote(true, piece, s0, m0, s1, m1, header + a) && Wrote(ok, piece, s1, m1, s2, m2, x)
    ensures Wrote(ok, piece, s0, m0, s2, m2, header + (a + x))
    ensures !ok ==> Wrote(ok, piece, s0, m0, s2, m2, header + all)
  {
    WroteThen(ok, piece, s0, m0, s1, m1, s2, m2, header + a, x);
    assert header + a + x == header + (a + x);
  }

  /** StreamWriteCredentialList and StreamWriteEnrolledInfo: the length of the list, then its records. */
  method StreamWriteList<T>(parcel: Buffer, list: seq<T>, encode: T -> seq<byte>, ghost piece: nat, malloced: bool)
    returns (r: ResultCode)
    requires parcel.Valid() && 4 <= piece < 0x1_0000_0000
    requires forall x :: x in list ==> |encode(x)| <= piece
    modifies parcel, parcel.buf
    ensures parcel.Valid() && (parcel.buf == old(parcel.buf) || fresh(parcel.buf))
    ensures Wrote(r == RESULT_SUCCESS, piece, old(parcel.Contents()), old(parcel.maxSize),
                  parcel.Contents(), parcel.maxSize, CountedBytes(list, encode))
  {
    var size := U32Bytes(Count(|list|));
    ghost var was, maxWas := parcel.Contents(), parcel.maxSize;
    r := StreamWrite(parcel, size, malloced);
    if r != RESULT_SUCCESS {
      return r;
    }
    assert size + Records(list[..0], encode) == size;
    for i := 0 to |list|
      invariant parcel.Valid() && (parcel.buf == old(parcel.buf) || fresh(parcel.buf))
      invariant Wrote(true, piece, was, maxWas, parcel.Contents(), parcel.maxSize, size + Records(list[..i], encode))
    {
      ghost var mid, maxMid := parcel.Contents(), parcel.maxSize;
      r := StreamWrite(parcel, encode(list[i]), malloced);
      WroteRecord(r == RESULT_SUCCESS, piece, was, maxWas, mid, maxMid, parcel.Contents(), parcel.maxSize,
                  size, list, i, encode);
      if r != RESULT_SUCCESS {
        return RESULT_GENERAL_ERROR;
      }
    }
    assert list[..|list|] == list;
    return RESULT_SUCCESS;
  }

  method StreamWriteUserInfo(parcel: Buffer, userInfo: UserInfo, malloced: bool) returns (r: ResultCode)
    requires parcel.Valid()
    modifies parcel, parcel.buf
    ensures parcel.Valid() && (parcel.buf == old(parcel.buf) || fresh(parcel.buf))
    ensures Wrote(r == RESULT_SUCCESS, CREDENTIAL_SIZE, old(parcel.Contents()), old(parcel.maxSize),
                  parcel.Contents(), parcel.maxSize, UserBytes(old(userInfo.Value())))
  {
    ghost var s0, m0 := parcel.Contents(), parcel.maxSize;
    var id, uid := U32Bytes(U32OfI32(userInfo.userId)), U64Bytes(userInfo.secUid);
    var credentials, enrolled := userInfo.credentialInfoList, userInfo.enrolledInfoList;
    ghost var c, e := CountedBytes(credentials, CredentialBytes), CountedBytes(enrolled, EnrolledBytes);
    assert UserBytes(userInfo.Value()) == id + uid + c + e;
    r := StreamWrite(parcel, id, malloced);
    if r != RESULT_SUCCESS {
      return r;
    }
    ghost var s1, m1 := parcel.Contents(), parcel.maxSize;
    r := StreamWrite(parcel, uid, malloced);
    WroteThen(r == RESULT_SUCCESS, CREDENTIAL_SIZE, s0, m0, s1, m1, parcel.Contents(), parcel.maxSize, id, uid);
    if r != RESULT_SUCCESS {
      return r;
    }
    ghost var s2, m2 := parcel.Contents(), parcel.maxSize;
    r := StreamWriteList(parcel, credentials, CredentialBytes, CREDENTIAL_SIZE, malloced);
    WroteThen(r == RESULT_SUCCESS, CREDENTIAL_SIZE, s0, m0, s2, m2, parcel.Contents(), parcel.maxSize, id + uid, c);
    if r != RESULT_SUCCESS {
      return r;
    }
    ghost var s3, m3 := parcel.Contents(), parcel.maxSize;
    r := StreamWriteList(parcel, enrolled, EnrolledBytes, CREDENTIAL_SIZE, malloced);
    WroteThen(r == RESULT_SUCCESS, CREDENTIAL_SIZE, s0, m0, s3, m3, parcel.Contents(), parcel.maxSize, id + uid + c, e);
  }

  // ----- the file --------------------------------------------------------------------------------

  /** How a write of the whole file ends: opening it for writing may fail, and once it is open
      (and so truncated) only the first bytes may reach it. */
  datatype WriteOutcome = Written | OpenFailed | Torn(written: nat)

  /** Outcomes the environment chooses during a save. */
  datatype SaveEnv = SaveEnv(bufferMalloced: bool, expansionMalloced: bool, write: WriteOutcome)

  function WriteResult(file: Option<seq<byte>>, data: seq<byte>, write: WriteOutcome): (ResultCode, Option<seq<byte>>) {
    match write
    case OpenFailed => (RESULT_BAD_PARAM, file)
    case Torn(k) => if k < |data| then (RESULT_BAD_WRITE, Some(data[..k])) else (RESULT_SUCCESS, Some(data))
    case Written => (RESULT_SUCCESS, Some(data))
  }

  class FileOperator {
    var content: Option<seq<byte>>  // None: the file does not exist

    constructor ()
      ensures content == None && fresh(this)
    {
      content := None;
    }

    method WriteFile(data: seq<byte>, write: WriteOutcome) returns (r: ResultCode)
      modifies this
      ensures (r, content) == WriteResult(old(content), data, write)
    {
      if write == OpenFailed {
        return RESULT_BAD_PARAM;
      }
      if write.Torn? && write.written < |data| {
        content := Some(data[..write.written]);
        return RESULT_BAD_WRITE;
      }
      content := Some(data);
      return RESULT_SUCCESS;
    }
  }

  /** What saving does to the file: the whole encoding is written only when it fits 2048 bytes. */
  function Save(users: Option<seq<User>>, file: Option<seq<byte>>, env: SaveEnv): (ResultCode, Option<seq<byte>>) {
    if users.None? || !env.bufferMalloced then (RESULT_BAD_PARAM, file)
    else if 8 + UsersSize(users.value) > PRE_APPLY_LEN then (RESULT_GENERAL_ERROR, file)
    else WriteResult(file, FileBytes(users.value), env.write)
  }

  /** The encoding fits, and memory and the file allow all of it to be written. */
  predicate Saves(users: seq<User>, env: SaveEnv) {
    && env.bufferMalloced && 8 + UsersSize(users) <= PRE_APPLY_LEN
    && !env.write.OpenFailed? && (env.write.Torn? ==> env.write.written >= 8 + UsersSize(users))
  }

  lemma SavesIff(users: seq<User>, file: Option<seq<byte>>, env: SaveEnv)
    ensures Save(Some(users), file, env).0 == RESULT_SUCCESS <==> Saves(users, env)
  {
    FileBytesLength(users);
    WriteIff(file, FileBytes(users), env.write);
  }

  lemma WriteIff(file: Option<seq<byte>>, data: seq<byte>, write: WriteOutcome)
    ensures WriteResult(file, data, write).0 == RESULT_SUCCESS <==>
            !write.OpenFailed? && (write.Torn? ==> write.written >= |data|)
  {}

  method StreamWriteHeader(parcel: Buffer, n: nat, malloced: bool)
    requires parcel.Valid() && parcel.contentSize == 0 && parcel.maxSize == PRE_APPLY_LEN
    modifies parcel, parcel.buf
    ensures parcel.Valid() && (parcel.buf == old(parcel.buf) || fresh(parcel.buf))
    ensures parcel.maxSize == PRE_APPLY_LEN && parcel.Contents() == FileHeader(n)
  {
    var r := StreamWrite(parcel, U32Bytes(VERSION), malloced);
    r := StreamWrite(parcel, U32Bytes(Count(n)), malloced);
  }

  /** The writing part of UpdateFileInfo, into the buffer of PRE_APPLY_LEN bytes. */
  method StreamWriteUsers(parcel: Buffer, users: seq<UserInfo>, ghost values: seq<User>, malloced: bool)
    returns (ok: bool)
    requires parcel.Valid() && parcel.contentSize == 0 && parcel.maxSize == PRE_APPLY_LEN
    requires values == Values(users)
    modifies parcel, parcel.buf
    ensures parcel.Valid()
    ensures Wrote(ok, CREDENTIAL_SIZE, [], PRE_APPLY_LEN, parcel.Contents(), parcel.maxSize,
                  FileHeader(|values|) + Records(values, UserBytes))
  {
    StreamWriteHeader(parcel, |users|, malloced);
    ghost var header := FileHeader(|users|);
    assert header + Records(values[..0], UserBytes) == header;
    for i := 0 to |users|
      invariant parcel.Valid() && (parcel.buf == old(parcel.buf) || fresh(parcel.buf))
      invariant Wrote(true, CREDENTIAL_SIZE, [], PRE_APPLY_LEN, parcel.Contents(), parcel.maxSize,
                      header + Records(values[..i], UserBytes))
    {
      ghost var mid, maxMid := parcel.Contents(), parcel.maxSize;
      var r := StreamWriteUserInfo(parcel, users[i], malloced);
      WroteRecord(r == RESULT_SUCCESS, CREDENTIAL_SIZE, [], PRE_APPLY_LEN, mid, maxMid, parcel.Contents(),
                  parcel.maxSize, header, values, i, UserBytes);
      if r != RESULT_SUCCESS {
        return false;
      }
    }
    assert values[..|users|] == values;
    return true;
  }

  method UpdateFileInfo(userInfoList: Option<seq<UserInfo>>, fileOperator: FileOperator, env: SaveEnv)
    returns (r: ResultCode)
    modifies fileOperator
    ensures userInfoList.None? ==> (r, fileOperator.content) == Save(None, old(fileOperator.content), env)
    ensures userInfoList.Some? ==>
              (r, fileOperator.content) == Save(Some(old(Values(userInfoList.value))), old(fileOperator.content), env)
  {
    if userInfoList.None? || !env.bufferMalloced {
      return RESULT_BAD_PARAM;
    }
    ghost var values := Values(userInfoList.value);
    FileBytesLength(values);
    var parcel := new Buffer(PRE_APPLY_LEN);
    var fits := StreamWriteUsers(parcel, userInfoList.value, values, env.expansionMalloced);
    if !fits {
      return RESULT_GENERAL_ERROR;
    }
    var data := parcel.buf[..parcel.contentSize];
    assert data == FileBytes(values);
    r := fileOperator.WriteFile(data, env.write);
  }
}
