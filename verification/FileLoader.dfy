/** Reading the credential database back: the loader, the round trip with the writer and what
    the loader makes of a file whose write was cut short. */
module FileLoader {
  import opened Base
  import opened IdmCommon
  import opened FileManager

  /** What a reader makes of the bytes from the index on: a value and the bytes after it. */
  datatype Parsed<+T> = Fail | Ok(value: T, rest: seq<byte>)

  function Take(s: seq<byte>, size: nat): Parsed<seq<byte>> {
    if |s| == 0 || |s| < size then Fail else Ok(s[..size], s[size..])
  }

  function ReadRecord<T>(s: seq<byte>, size: nat, decode: seq<byte> -> Option<T>): Parsed<T> {
    var t := Take(s, size);
    if t.Fail? then Fail
    else if decode(t.value).None? then Fail
    else Ok(decode(t.value).value, t.rest)
  }

  function ReadCredential(s: seq<byte>): Parsed<CredentialInfo> {
    ReadRecord(s, CREDENTIAL_SIZE, CredentialOf)
  }

  function ReadEnrolled(s: seq<byte>): Parsed<EnrolledInfo> {
    ReadRecord(s, ENROLLED_SIZE, EnrolledOf)
  }

  /** Reads n elements, each inserted at the head of acc. */
  function ReadMany<T>(s: seq<byte>, n: nat, read: seq<byte> -> Parsed<T>, acc: seq<T>): Parsed<seq<T>>
    decreases n
  {
    if n == 0 then Ok(acc, s)
    else if read(s).Fail? then Fail
    else ReadMany(read(s).rest, n - 1, read, [read(s).value] + acc)
  }

  /** Reads a count no larger than cap and that many elements. */
  function ReadCounted<T>(s: seq<byte>, cap: nat, read: seq<byte> -> Parsed<T>): Parsed<seq<T>> {
    var t := Take(s, 4);
    if t.Fail? then Fail
    else if U32Of(t.value) > cap then Fail
    else ReadMany(t.rest, U32Of(t.value), read, [])
  }

  function ReadIds(s: seq<byte>): Parsed<(i32, u64)> {
    var id := Take(s, 4);
    if id.Fail? then Fail else
    var uid := Take(id.rest, 8);
    if uid.Fail? then Fail else Ok((I32OfU32(U32Of(id.value)), U64Of(uid.value)), uid.rest)
  }

  function ReadLists(s: seq<byte>): Parsed<(seq<CredentialInfo>, seq<EnrolledInfo>)> {
    var c := ReadCounted(s, MAX_CREDENTIAL, ReadCredential);
    if c.Fail? then Fail else
    var e := ReadCounted(c.rest, MAX_CREDENTIAL, ReadEnrolled);
    if e.Fail? then Fail else Ok((c.value, e.value), e.rest)
  }

  function ReadUser(s: seq<byte>): Parsed<User> {
    var ids := ReadIds(s);
    if ids.Fail? then Fail else
    var lists := ReadLists(ids.rest);
    if lists.Fail? then Fail else
    Ok(User(ids.value.0, ids.value.1, lists.value.0, lists.value.1), lists.rest)
  }

  function ReadFileWith<T>(s: seq<byte>, read: seq<byte> -> Parsed<T>): Parsed<seq<T>> {
    var version := Take(s, 4);
    if version.Fail? then Fail else ReadCounted(version.rest, MAX_USER, read)
  }

  function ReadFile(s: seq<byte>): Parsed<seq<User>> {
    ReadFileWith(s, ReadUser)
  }

  /** LoadFileInfo: an absent file is an empty database; a file the loader rejects gives no database. */
  function Load(file: Option<seq<byte>>): Option<seq<User>> {
    if file.None? then Some([])
    else if |file.value| == 0 || |file.value| > MAX_BUFFER_LEN then None
    else
      var p := ReadFile(file.value);
      if p.Fail? then None else Some(p.value)
  }

  // ----- the loader's loops ----------------------------------------------------------------------

  /** The outcome of a reader over content agrees with the parse p. */
  ghost predicate Reads<T(!new)>(p: Parsed<T>, ok: bool, value: T, content: seq<byte>, next: nat) {
    && (ok <==> p.Ok?)
    && (ok ==> value == p.value && next <= |content| && content[next..] == p.rest)
  }

  method StreamRead(parcel: Buffer, index: nat, size: nat) returns (r: ResultCode, to: seq<byte>, next: nat)
    requires parcel.Valid() && index <= parcel.contentSize
    ensures r == RESULT_SUCCESS || r == RESULT_BAD_PARAM
    ensures Reads(Take(parcel.Contents()[index..], size), r == RESULT_SUCCESS, to, parcel.Contents(), next)
    ensures r != RESULT_SUCCESS ==> next == index
  {
    if parcel.contentSize <= index || parcel.contentSize - index < size {
      return RESULT_BAD_PARAM, [], index;
    }
    to := parcel.buf[index..index + size];
    ghost var s := parcel.Contents();
    assert s[index..][..size] == to && s[index..][size..] == s[index + size..];
    return RESULT_SUCCESS, to, index + size;
  }

  lemma ReadManyStep<T>(s: seq<byte>, n: nat, read: seq<byte> -> Parsed<T>, acc: seq<T>)
    requires n > 0
    ensures ReadMany(s, n, read, acc) ==
            if read(s).Ok? then ReadMany(read(s).rest, n - 1, read, [read(s).value] + acc) else Fail
  {}

  /** goal is what is still to come of reading content from next on, with n elements left. */
  ghost predicate Pending<T(!new)>(goal: Parsed<seq<T>>, content: seq<byte>, next: nat, n: nat,
                                   read: seq<byte> -> Parsed<T>, acc: seq<T>) {
    next <= |content| && goal == ReadMany(content[next..], n, read, acc)
  }

  lemma PendingStep<T(!new)>(goal: Parsed<seq<T>>, content: seq<byte>, index: nat, n: nat, read: seq<byte> -> Parsed<T>,
                             acc: seq<T>, ok: bool, x: T, next: nat)
    requires n > 0 && Pending(goal, content, index, n, read, acc)
    requires Reads(read(content[index..]), ok, x, content, next)
    ensures if ok then Pending(goal, content, next, n - 1, read, [x] + acc) else goal.Fail?
  {
    ReadManyStep(content[index..], n, read, acc);
  }

  method StreamReadRecord<T(0, !new)>(parcel: Buffer, index: nat, size: nat, decode: seq<byte> -> Option<T>)
    returns (ok: bool, record: T, next: nat)
    requires parcel.Valid() && index <= parcel.contentSize
    ensures Reads(ReadRecord(parcel.Contents()[index..], size, decode), ok, record, parcel.Contents(), next)
  {
    var r, bytes;
    r, bytes, next := StreamRead(parcel, index, size);
    if r != RESULT_SUCCESS {
      return false, *, next;
    }
    var decoded := decode(bytes);
    if decoded.None? {
      return false, *, next;
    }
    return true, decoded.value, next;
  }

  method StreamReadCount(parcel: Buffer, index: nat) returns (ok: bool, num: u32, next: nat)
    requires parcel.Valid() && index <= parcel.contentSize
    ensures var t := Take(parcel.Contents()[index..], 4);
            && (ok <==> t.Ok?)
            && (ok ==> num == U32Of(t.value) && next <= |parcel.Contents()| && parcel.Contents()[next..] == t.rest)
  {
    var r, bytes;
    r, bytes, next := StreamRead(parcel, index, 4);
    if r != RESULT_SUCCESS {
      return false, 0, next;
    }
    return true, U32Of(bytes), next;
  }

  /** StreamReadCredentialList and StreamReadEnrolledList. */
  method StreamReadList<T(0, !new)>(parcel: Buffer, index: nat, size: nat, decode: seq<byte> -> Option<T>,
                                    ghost read: seq<byte> -> Parsed<T>)
    returns (ok: bool, list: seq<T>, next: nat)
    requires parcel.Valid() && index <= parcel.contentSize
    requires forall s :: read(s) == ReadRecord(s, size, decode)
    ensures Reads(ReadCounted(parcel.Contents()[index..], MAX_CREDENTIAL, read), ok, list, parcel.Contents(), next)
  {
    ghost var s := parcel.Contents();
    var num;
    ok, num, next := StreamReadCount(parcel, index);
    if !ok || num > MAX_CREDENTIAL {
      return false, [], next;
    }
    ok, list, next := StreamReadMany(parcel, next, num, size, decode, read,
                                     ReadCounted(s[index..], MAX_CREDENTIAL, read));
  }

  /** The loop of both. */
  method StreamReadMany<T(0, !new)>(parcel: Buffer, index: nat, num: nat, size: nat, decode: seq<byte> -> Option<T>,
                                    ghost read: seq<byte> -> Parsed<T>, ghost goal: Parsed<seq<T>>)
    returns (ok: bool, list: seq<T>, next: nat)
    requires parcel.Valid() && Pending(goal, parcel.Contents(), index, num, read, [])
    requires forall s :: read(s) == ReadRecord(s, size, decode)
    ensures Reads(goal, ok, list, parcel.Contents(), next)
  {
    ghost var s := parcel.Contents();
    list, next := [], index;
    for i := 0 to num
      invariant Pending(goal, s, next, num - i, read, list)
    {
      ghost var was := next;
      var record;
      ok, record, next := StreamReadRecord(parcel, next, size, decode);
      PendingStep(goal, s, was, num - i, read, list, ok, record, next);
      if !ok {
        return false, list, next;
      }
      list := [record] + list;
    }
    return true, list, next;
  }

  method StreamReadIds(parcel: Buffer, index: nat) returns (ok: bool, id: i32, uid: u64, next: nat)
    requires parcel.Valid() && index <= parcel.contentSize
    ensures Reads(ReadIds(parcel.Contents()[index..]), ok, (id, uid), parcel.Contents(), next)
  {
    var r, bytes, more;
    r, bytes, next := StreamRead(parcel, index, 4);
    if r != RESULT_SUCCESS {
      return false, 0, 0, next;
    }
    r, more, next := StreamRead(parcel, next, 8);
    if r != RESULT_SUCCESS {
      return false, 0, 0, next;
    }
    return true, I32OfU32(U32Of(bytes)), U64Of(more), next;
  }

  method StreamReadLists(parcel: Buffer, index: nat)
    returns (ok: bool, credentials: seq<CredentialInfo>, enrolled: seq<EnrolledInfo>, next: nat)
    requires parcel.Valid() && index <= parcel.contentSize
    ensures Reads(ReadLists(parcel.Contents()[index..]), ok, (credentials, enrolled), parcel.Contents(), next)
  {
    ok, credentials, next := StreamReadList(parcel, index, CREDENTIAL_SIZE, CredentialOf, ReadCredential);
    if !ok {
      return false, [], [], next;
    }
    ok, enrolled, next := StreamReadList(parcel, next, ENROLLED_SIZE, EnrolledOf, ReadEnrolled);
  }

  method StreamReadUserInfo(parcel: Buffer, index: nat, userInfo: UserInfo) returns (ok: bool, next: nat)
    requires parcel.Valid() && index <= parcel.contentSize
    modifies userInfo
    ensures Reads(ReadUser(old(parcel.Contents())[index..]), ok, userInfo.Value(), old(parcel.Contents()), next)
  {
    var id, uid, credentials, enrolled;
    ok, id, uid, next := StreamReadIds(parcel, index);
    if !ok {
      return false, next;
    }
    ok, credentials, enrolled, next := StreamReadLists(parcel, next);
    if !ok {
      return false, next;
    }
    userInfo.userId, userInfo.secUid := id, uid;
    userInfo.credentialInfoList, userInfo.enrolledInfoList := credentials, enrolled;
  }

  /** No object occurs twice. */
  ghost predicate Distinct(users: seq<UserInfo>) {
    forall i, j :: 0 <= i < j < |users| ==> users[i] != users[j]
  }

  lemma PendingNext<T(!new)>(goal: Parsed<seq<T>>, content: seq<byte>, index: nat, n: nat, read: seq<byte> -> Parsed<T>,
                             acc: seq<T>, ok: bool, x: T, next: nat, acc1: seq<T>, left: nat)
    requires n > 0 && Pending(goal, content, index, n, read, acc)
    requires Reads(read(content[index..]), ok, x, content, next) && acc1 == [x] + acc && left == n - 1
    ensures if ok then Pending(goal, content, next, left, read, acc1) else goal.Fail?
  {
    PendingStep(goal, content, index, n, read, acc, ok, x, next);
  }

  /** The users stand for the values, one for one. */
  ghost predicate Shows(users: seq<UserInfo>, values: seq<User>)
    reads users
  {
    |users| == |values| && forall k :: 0 <= k < |users| ==> users[k].Value() == values[k]
  }

  /** One round of the loader's loop: a new user, read and inserted at the head. */
  method StreamReadNextUser(parcel: Buffer, index: nat, users: seq<UserInfo>, ghost content: seq<byte>,
                            ghost goal: Parsed<seq<User>>, ghost n: nat, ghost acc: seq<User>)
    returns (ok: bool, more: seq<UserInfo>, next: nat, ghost acc1: seq<User>, ghost left: nat)
    requires parcel.Valid() && parcel.Contents() == content && Distinct(users) && Shows(users, acc)
    requires n > 0 && Pending(goal, content, index, n, ReadUser, acc)
    ensures !ok ==> goal.Fail?
    ensures ok ==> |more| > 0 && fresh(more[0]) && more == [more[0]] + users && Distinct(more) && Shows(more, acc1)
    ensures ok ==> Pending(goal, content, next, left, ReadUser, acc1)
    ensures left == n - 1
  {
    var userInfo := new UserInfo();
    ok, next := StreamReadUserInfo(parcel, index, userInfo);
    more := [userInfo] + users;
    acc1, left := [userInfo.Value()] + acc, n - 1;
    PendingNext(goal, content, index, n, ReadUser, acc, ok, userInfo.Value(), next, acc1, left);
  }

  method StreamReadUsers(parcel: Buffer, index: nat, num: nat, ghost goal: Parsed<seq<User>>)
    returns (ok: bool, users: seq<UserInfo>)
    requires parcel.Valid() && Pending(goal, parcel.Contents(), index, num, ReadUser, [])
    ensures ok <==> goal.Ok?
    ensures ok ==> Values(users) == goal.value
    ensures fresh(users) && Distinct(users)
  {
    users := [];
    var next: nat := index;
    ghost var left, content, acc := num, parcel.Contents(), [];
    for i := 0 to num
      invariant left == num - i && fresh(users) && Distinct(users) && Shows(users, acc)
      invariant parcel.Valid() && parcel.Contents() == content && Pending(goal, content, next, left, ReadUser, acc)
    {
      ok, users, next, acc, left := StreamReadNextUser(parcel, next, users, content, goal, left, acc);
      if !ok {
        return false, [];
      }
    }
    AllRead(goal, content, next, acc);
    assert Values(users) == acc;
    return true, users;
  }

  lemma AllRead(goal: Parsed<seq<User>>, content: seq<byte>, next: nat, acc: seq<User>)
    requires Pending(goal, content, next, 0, ReadUser, acc)
    ensures goal.Ok? && goal.value == acc
  {}

  method StreamReadFileInfo(parcel: Buffer) returns (ok: bool, users: seq<UserInfo>)
    requires parcel.Valid()
    ensures ok <==> ReadFile(old(parcel.Contents())).Ok?
    ensures ok ==> Values(users) == ReadFile(old(parcel.Contents())).value
    ensures fresh(users) && Distinct(users)
  {
    ghost var s := parcel.Contents();
    assert s[0..] == s;
    users := [];
    var r, bytes;
    var next: nat;
    r, bytes, next := StreamRead(parcel, 0, 4);
    if r != RESULT_SUCCESS {
      return false, [];
    }
    r, bytes, next := StreamRead(parcel, next, 4);
    if r != RESULT_SUCCESS {
      return false, [];
    }
    var num := U32Of(bytes);
    if num > MAX_USER {
      return false, [];
    }
    ok, users := StreamReadUsers(parcel, next, num, ReadFile(s));
  }

  method LoadFileInfo(fileOperator: FileOperator) returns (users: Option<seq<UserInfo>>)
    ensures users.Some? <==> Load(fileOperator.content).Some?
    ensures users.Some? ==>
              && Values(users.value) == Load(fileOperator.content).value
              && fresh(users.value) && Distinct(users.value)
  {
    if fileOperator.content.None? {
      return Some([]);
    }
    var data := fileOperator.content.value;
    if |data| == 0 || |data| > MAX_BUFFER_LEN {
      return None;
    }
    var parcel := new Buffer.FromData(data);
    var ok, list := StreamReadFileInfo(parcel);
    return if ok then Some(list) else None;
  }

  // ----- round trip ------------------------------------------------------------------------------

  /** The images of the elements, last first. */
  function MapReverse<T, U>(list: seq<T>, back: T -> U): (r: seq<U>)
    ensures |r| == |list|
  {
    if |list| == 0 then [] else MapReverse(list[1..], back) + [back(list[0])]
  }

  lemma {:induction false} MapReverseAppend<T, U>(a: seq<T>, b: seq<T>, back: T -> U)
    ensures MapReverse(a + b, back) == MapReverse(b, back) + MapReverse(a, back)
  {
    if |a| == 0 {
      assert a + b == b;
    } else {
      assert (a + b)[1..] == a[1..] + b;
      MapReverseAppend(a[1..], b, back);
    }
  }

  lemma {:induction false} MapReverseAt<T, U>(list: seq<T>, back: T -> U, k: nat)
    requires k < |list|
    ensures MapReverse(list, back)[k] == back(list[|list| - 1 - k])
  {
    if k < |list| - 1 {
      MapReverseAt(list[1..], back, k);
    }
  }

  /** Reversing with an involution twice changes nothing. */
  lemma {:induction false} MapReverseTwice<T>(list: seq<T>, back: T -> T)
    requires forall x :: back(back(x)) == x
    ensures MapReverse(MapReverse(list, back), back) == list
  {
    if |list| == 0 {
    } else {
      MapReverseTwice(list[1..], back);
      MapReverseAppend(MapReverse(list[1..], back), [back(list[0])], back);
      assert MapReverse([back(list[0])], back) == [list[0]];
      assert list == [list[0]] + list[1..];
    }
  }

  function Same<T>(x: T): T {
    x
  }

  lemma {:induction false} MapReverseSame<T>(list: seq<T>)
    ensures MapReverse(list, Same) == Reverse(list)
  {
    if |list| > 0 {
      MapReverseSame(list[1..]);
    }
  }

  function ReverseUser(u: User): User {
    u.(credentials := Reverse(u.credentials), enrolled := Reverse(u.enrolled))
  }

  /** Users in reverse order, each with both of its lists reversed. */
  function DeepReverse(users: seq<User>): seq<User> {
    MapReverse(users, ReverseUser)
  }

  /** Two reloads give back the original order. */
  lemma DeepReverseTwice(users: seq<User>)
    ensures DeepReverse(DeepReverse(users)) == users
  {
    forall u ensures ReverseUser(ReverseUser(u)) == u {
      ReverseTwice(u.credentials);
      ReverseTwice(u.enrolled);
    }
    MapReverseTwice(users, ReverseUser);
  }

  predicate All<T>(list: seq<T>, good: T -> bool) {
    |list| == 0 || (good(list[0]) && All(list[1..], good))
  }

  lemma {:induction false} AllAt<T>(list: seq<T>, good: T -> bool)
    ensures All(list, good) <==> forall k :: 0 <= k < |list| ==> good(list[k])
  {
    if |list| > 0 {
      AllAt(list[1..], good);
      assert forall k :: 1 <= k < |list| ==> list[k] == list[1..][k - 1];
    }
  }

  predicate UserWithinCaps(u: User) {
    |u.credentials| <= MAX_CREDENTIAL && |u.enrolled| <= MAX_CREDENTIAL
  }

  /** The counts the loader accepts. */
  predicate WithinCaps(users: seq<User>) {
    |users| <= MAX_USER && All(users, UserWithinCaps)
  }

  lemma TakeBack(a: seq<byte>, rest: seq<byte>)
    requires |a| > 0
    ensures Take(a + rest, |a|) == Ok(a, rest)
  {
    assert (a + rest)[..|a|] == a && (a + rest)[|a|..] == rest;
  }

  /** read inverts encode up to back, and accepts exactly the good elements. */
  ghost predicate Inverts<T(!new), U(!new)>(encode: T -> seq<byte>, read: seq<byte> -> Parsed<U>, back: T -> U,
                                            good: T -> bool) {
    forall x, rest :: read(encode(x) + rest) == if good(x) then Ok(back(x), rest) else Fail
  }

  lemma {:induction false} ReadManyBack<T(!new), U(!new)>(list: seq<T>, rest: seq<byte>, encode: T -> seq<byte>,
      read: seq<byte> -> Parsed<U>, back: T -> U, good: T -> bool, acc: seq<U>)
    requires Inverts(encode, read, back, good)
    ensures ReadMany(Records(list, encode) + rest, |list|, read, acc) ==
            if All(list, good) then Ok(MapReverse(list, back) + acc, rest) else Fail
  {
    if |list| == 0 {
      assert Records(list, encode) + rest == rest && MapReverse(list, back) + acc == acc;
    } else {
      var x, tail := list[0], list[1..];
      var more := Records(tail, encode) + rest;
      assert Records(list, encode) + rest == encode(x) + more;
      if good(x) {
        ReadManyBack(tail, rest, encode, read, back, good, [back(x)] + acc);
        assert MapReverse(tail, back) + ([back(x)] + acc) == MapReverse(list, back) + acc;
      }
    }
  }

  lemma ReadCountedStep<T>(count: seq<byte>, body: seq<byte>, rest: seq<byte>, cap: nat, read: seq<byte> -> Parsed<T>)
    requires |count| == 4
    ensures ReadCounted((count + body) + rest, cap, read) ==
            if U32Of(count) > cap then Fail else ReadMany(body + rest, U32Of(count), read, [])
  {
    assert (count + body) + rest == count + (body + rest);
    TakeBack(count, body + rest);
  }

  /** A counted list reads back reversed, exactly when its length is within the cap and its elements are good. */
  lemma ReadCountedBack<T(!new), U(!new)>(list: seq<T>, rest: seq<byte>, cap: nat, encode: T -> seq<byte>,
      read: seq<byte> -> Parsed<U>, back: T -> U, good: T -> bool)
    requires Inverts(encode, read, back, good) && cap < 0xFFFF_FFFF
    ensures ReadCounted(CountedBytes(list, encode) + rest, cap, read) ==
            if |list| <= cap && All(list, good) then Ok(MapReverse(list, back), rest) else Fail
  {
    ReadManyBack(list, rest, encode, read, back, good, []);
    assert MapReverse(list, back) + [] == MapReverse(list, back);
    ReadCountedStep(U32Bytes(Count(|list|)), Records(list, encode), rest, cap, read);
  }

  predicate Any<T>(x: T) {
    true
  }

  lemma {:induction false} AllAny<T>(list: seq<T>)
    ensures All(list, Any)
  {
    if |list| > 0 {
      AllAny(list[1..]);
    }
  }

  lemma CredentialInverts()
    ensures Inverts(CredentialBytes, ReadCredential, Same, Any)
  {
    forall x, rest ensures ReadCredential(CredentialBytes(x) + rest) == Ok(x, rest) {
      TakeBack(CredentialBytes(x), rest);
      CredentialRoundTrip(x);
    }
  }

  lemma EnrolledInverts()
    ensures Inverts(EnrolledBytes, ReadEnrolled, Same, Any)
  {
    forall x, rest ensures ReadEnrolled(EnrolledBytes(x) + rest) == Ok(x, rest) {
      TakeBack(EnrolledBytes(x), rest);
      EnrolledRoundTrip(x);
    }
  }

  lemma CredentialsBack(list: seq<CredentialInfo>, rest: seq<byte>)
    ensures ReadCounted(CountedBytes(list, CredentialBytes) + rest, MAX_CREDENTIAL, ReadCredential) ==
            if |list| <= MAX_CREDENTIAL then Ok(Reverse(list), rest) else Fail
  {
    CredentialInverts();
    AllAny(list);
    MapReverseSame(list);
    ReadCountedBack(list, rest, MAX_CREDENTIAL, CredentialBytes, ReadCredential, Same, Any);
  }

  lemma EnrolledBack(list: seq<EnrolledInfo>, rest: seq<byte>)
    ensures ReadCounted(CountedBytes(list, EnrolledBytes) + rest, MAX_CREDENTIAL, ReadEnrolled) ==
            if |list| <= MAX_CREDENTIAL then Ok(Reverse(list), rest) else Fail
  {
    EnrolledInverts();
    AllAny(list);
    MapReverseSame(list);
    ReadCountedBack(list, rest, MAX_CREDENTIAL, EnrolledBytes, ReadEnrolled, Same, Any);
  }

  /** Reading the four parts of a user written one after the other. */
  lemma ReadUserParts(id: seq<byte>, uid: seq<byte>, cb: seq<byte>, eb: seq<byte>, rest: seq<byte>,
                      c: Parsed<seq<CredentialInfo>>, e: Parsed<seq<EnrolledInfo>>)
    requires |id| == 4 && |uid| == 8
    requires c == ReadCounted(cb + (eb + rest), MAX_CREDENTIAL, ReadCredential) && (c.Ok? ==> c.rest == eb + rest)
    requires e == ReadCounted(eb + rest, MAX_CREDENTIAL, ReadEnrolled) && (e.Ok? ==> e.rest == rest)
    ensures ReadUser((id + uid + cb + eb) + rest) ==
            if c.Ok? && e.Ok? then Ok(User(I32OfU32(U32Of(id)), U64Of(uid), c.value, e.value), rest) else Fail
  {
    var tail := cb + (eb + rest);
    FiveParts(id, uid, cb, eb, rest);
    ReadIdsBack(id, uid, tail);
  }

  lemma FiveParts(a: seq<byte>, b: seq<byte>, c: seq<byte>, d: seq<byte>, e: seq<byte>)
    ensures (a + b + c + d) + e == a + (b + (c + (d + e)))
  {}

  lemma ReadIdsBack(id: seq<byte>, uid: seq<byte>, tail: seq<byte>)
    requires |id| == 4 && |uid| == 8
    ensures ReadIds(id + (uid + tail)) == Ok((I32OfU32(U32Of(id)), U64Of(uid)), tail)
  {
    TakeBack(id, uid + tail);
    TakeBack(uid, tail);
  }

  lemma I32RoundTrip(v: i32)
    ensures I32OfU32(U32OfI32(v)) == v
  {}

  lemma ReadUserBack(u: User, rest: seq<byte>)
    ensures ReadUser(UserBytes(u) + rest) == if UserWithinCaps(u) then Ok(ReverseUser(u), rest) else Fail
  {
    var cb, eb := CountedBytes(u.credentials, CredentialBytes), CountedBytes(u.enrolled, EnrolledBytes);
    CredentialsBack(u.credentials, eb + rest);
    EnrolledBack(u.enrolled, rest);
    I32RoundTrip(u.userId);
    ReadUserParts(U32Bytes(U32OfI32(u.userId)), U64Bytes(u.secUid), cb, eb, rest,
                  if |u.credentials| <= MAX_CREDENTIAL then Ok(Reverse(u.credentials), eb + rest) else Fail,
                  if |u.enrolled| <= MAX_CREDENTIAL then Ok(Reverse(u.enrolled), rest) else Fail);
  }

  lemma UserInverts()
    ensures Inverts(UserBytes, ReadUser, ReverseUser, UserWithinCaps)
  {
    forall u, rest
      ensures ReadUser(UserBytes(u) + rest) == if UserWithinCaps(u) then Ok(ReverseUser(u), rest) else Fail
    {
      ReadUserBack(u, rest);
    }
  }

  lemma ReadFileOf<T(!new), U(!new)>(list: seq<T>, encode: T -> seq<byte>, read: seq<byte> -> Parsed<U>, back: T -> U,
                                     good: T -> bool)
    requires Inverts(encode, read, back, good)
    ensures ReadFileWith(FileOf(list, encode), read) ==
            if |list| <= MAX_USER && All(list, good) then Ok(MapReverse(list, back), []) else Fail
  {
    var counted := CountedBytes(list, encode);
    VersionFirst(list, encode);
    SkipVersion(U32Bytes(VERSION), counted, read);
    ReadCountedBack(list, [], MAX_USER, encode, read, back, good);
    assert counted + [] == counted;
  }

  lemma VersionFirst<T>(list: seq<T>, encode: T -> seq<byte>)
    ensures FileOf(list, encode) == U32Bytes(VERSION) + CountedBytes(list, encode)
  {}

  lemma SkipVersion<T>(version: seq<byte>, counted: seq<byte>, read: seq<byte> -> Parsed<T>)
    requires |version| == 4
    ensures ReadFileWith(version + counted, read) == ReadCounted(counted, MAX_USER, read)
  {
    TakeBack(version, counted);
  }

  /** Reading what was written gives the deep reversal, and is refused exactly beyond the loader's caps. */
  lemma ReadFileBack(users: seq<User>)
    ensures ReadFile(FileBytes(users)) == if WithinCaps(users) then Ok(DeepReverse(users), []) else Fail
  {
    UserInverts();
    ReadFileOf(users, UserBytes, ReadUser, ReverseUser, UserWithinCaps);
  }

  lemma SavedBytes(users: seq<User>, file: Option<seq<byte>>, env: SaveEnv)
    requires Save(Some(users), file, env).0 == RESULT_SUCCESS
    ensures Save(Some(users), file, env).1 == Some(FileBytes(users)) && 8 <= |FileBytes(users)| <= PRE_APPLY_LEN
  {
    FileBytesLength(users);
  }

  lemma LoadOfParsed(b: seq<byte>)
    requires 0 < |b| <= MAX_BUFFER_LEN && ReadFile(b).Ok?
    ensures Load(Some(b)) == Some(ReadFile(b).value)
  {}

  /** A saved database loads back as its deep reversal. */
  lemma LoadOfSaved(users: seq<User>, file: Option<seq<byte>>, env: SaveEnv)
    requires Save(Some(users), file, env).0 == RESULT_SUCCESS && WithinCaps(users)
    ensures Load(Save(Some(users), file, env).1) == Some(DeepReverse(users))
  {
    SavedBytes(users, file, env);
    ReadFileBack(users);
    LoadOfParsed(FileBytes(users));
  }

  /** Saving, reloading, saving and reloading again restores every list, order included. */
  lemma TwoCyclesRestore(users: seq<User>, file: Option<seq<byte>>, env1: SaveEnv, env2: SaveEnv)
    requires WithinCaps(users)
    requires Save(Some(users), file, env1).0 == RESULT_SUCCESS
    requires Save(Some(DeepReverse(users)), Save(Some(users), file, env1).1, env2).0 == RESULT_SUCCESS
    ensures Load(Save(Load(Save(Some(users), file, env1).1), Save(Some(users), file, env1).1, env2).1) == Some(users)
  {
    LoadOfSaved(users, file, env1);
    WithinCapsReversed(users);
    LoadOfSaved(DeepReverse(users), Save(Some(users), file, env1).1, env2);
    DeepReverseTwice(users);
  }

  lemma WithinCapsReversed(users: seq<User>)
    requires WithinCaps(users)
    ensures WithinCaps(DeepReverse(users))
  {
    var r := DeepReverse(users);
    AllAt(users, UserWithinCaps);
    AllAt(r, UserWithinCaps);
    forall k | 0 <= k < |r| ensures UserWithinCaps(r[k]) {
      MapReverseAt(users, ReverseUser, k);
    }
  }

  // ----- a write cut short -----------------------------------------------------------------------

  /** A reader that succeeds looks only at the bytes it consumes. */
  ghost predicate Extends<T(!new)>(read: seq<byte> -> Parsed<T>) {
    forall s, more :: read(s).Ok? ==> read(s + more) == Ok(read(s).value, read(s).rest + more)
  }

  lemma TakeExtends(s: seq<byte>, size: nat, more: seq<byte>)
    requires Take(s, size).Ok?
    ensures Take(s + more, size) == Ok(Take(s, size).value, Take(s, size).rest + more)
  {
    assert (s + more)[..size] == s[..size] && (s + more)[size..] == s[size..] + more;
  }

  lemma {:induction false} ReadManyExtends<T(!new)>(s: seq<byte>, n: nat, read: seq<byte> -> Parsed<T>, acc: seq<T>,
                                                    more: seq<byte>)
    requires Extends(read) && ReadMany(s, n, read, acc).Ok?
    ensures ReadMany(s + more, n, read, acc) ==
            Ok(ReadMany(s, n, read, acc).value, ReadMany(s, n, read, acc).rest + more)
    decreases n
  {
    if n > 0 {
      ReadManyExtends(read(s).rest, n - 1, read, [read(s).value] + acc, more);
    }
  }

  lemma ReadCountedExtends<T(!new)>(s: seq<byte>, cap: nat, read: seq<byte> -> Parsed<T>, more: seq<byte>)
    requires Extends(read) && ReadCounted(s, cap, read).Ok?
    ensures ReadCounted(s + more, cap, read) ==
            Ok(ReadCounted(s, cap, read).value, ReadCounted(s, cap, read).rest + more)
  {
    var t := Take(s, 4);
    TakeExtends(s, 4, more);
    ReadManyExtends(t.rest, U32Of(t.value), read, [], more);
  }

  lemma RecordsExtend()
    ensures Extends(ReadCredential) && Extends(ReadEnrolled)
  {
    forall s, more | ReadCredential(s).Ok?
      ensures ReadCredential(s + more) == Ok(ReadCredential(s).value, ReadCredential(s).rest + more)
    {
      TakeExtends(s, CREDENTIAL_SIZE, more);
    }
    forall s, more | ReadEnrolled(s).Ok?
      ensures ReadEnrolled(s + more) == Ok(ReadEnrolled(s).value, ReadEnrolled(s).rest + more)
    {
      TakeExtends(s, ENROLLED_SIZE, more);
    }
  }

  lemma ReadUserExtends(s: seq<byte>, more: seq<byte>)
    requires ReadUser(s).Ok?
    ensures ReadUser(s + more) == Ok(ReadUser(s).value, ReadUser(s).rest + more)
  {
    RecordsExtend();
    TakeExtends(s, 4, more);
    var s1 := Take(s, 4).rest;
    TakeExtends(s1, 8, more);
    var s2 := Take(s1, 8).rest;
    ReadCountedExtends(s2, MAX_CREDENTIAL, ReadCredential, more);
    ReadCountedExtends(ReadCounted(s2, MAX_CREDENTIAL, ReadCredential).rest, MAX_CREDENTIAL, ReadEnrolled, more);
  }

  lemma ReadFileExtends(s: seq<byte>, more: seq<byte>)
    requires ReadFile(s).Ok?
    ensures ReadFile(s + more) == Ok(ReadFile(s).value, ReadFile(s).rest + more)
  {
    forall s, more | ReadUser(s).Ok?
      ensures ReadUser(s + more) == Ok(ReadUser(s).value, ReadUser(s).rest + more)
    {
      ReadUserExtends(s, more);
    }
    TakeExtends(s, 4, more);
    ReadCountedExtends(Take(s, 4).rest, MAX_USER, ReadUser, more);
  }

  lemma ProperPrefixFails(s: seq<byte>, more: seq<byte>)
    requires |more| > 0 && (ReadFile(s + more).Ok? ==> ReadFile(s + more).rest == [])
    ensures ReadFile(s).Fail?
  {
    if ReadFile(s).Ok? {
      ReadFileExtends(s, more);
    }
  }

  /** A write that stopped early never loads, whatever prefix reached the file: the loader cannot
      mistake a shortened database for a smaller one. */
  lemma TornFileNeverLoads(users: seq<User>, k: nat)
    requires k < |FileBytes(users)|
    ensures Load(Some(FileBytes(users)[..k])).None?
  {
    ReadFileBack(users);
    assert FileBytes(users) == FileBytes(users)[..k] + FileBytes(users)[k..];
    ProperPrefixFails(FileBytes(users)[..k], FileBytes(users)[k..]);
  }

  // ----- what the loader does not look at --------------------------------------------------------

  lemma VersionIgnored(version: seq<byte>, other: seq<byte>, tail: seq<byte>)
    requires |version| == |other| == 4
    ensures ReadFile(version + tail) == ReadFile(other + tail)
  {
    assert (version + tail)[..4] == version && (other + tail)[..4] == other;
    assert (version + tail)[4..] == tail && (other + tail)[4..] == tail;
  }

  /** The version, and what follows the last user, do not matter. */
  lemma LoadIgnores(version: seq<byte>, other: seq<byte>, tail: seq<byte>, more: seq<byte>)
    requires |version| == |other| == 4 && 4 + |tail| + |more| <= MAX_BUFFER_LEN
    ensures Load(Some(version + tail)) == Load(Some(other + tail))
    ensures Load(Some(version + tail)).Some? ==> Load(Some((version + tail) + more)) == Load(Some(version + tail))
  {
    VersionIgnored(version, other, tail);
    if ReadFile(version + tail).Ok? {
      ReadFileExtends(version + tail, more);
    }
  }
}
