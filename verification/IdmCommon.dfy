/** The records of the credential database and their in-memory layout. */
module IdmCommon {
  import opened Base

  const MAX_USER := 1000
  const MAX_CREDENTIAL := 5
  const MAX_AUTH_TYPE := 2

  const PIN_AUTH: u32 := 1
  const FACE_AUTH: u32 := 2

  datatype CredentialInfo = CredentialInfo(credentialId: u64, authType: u32, authSubType: u64,
                                           templateId: u64, capabilityLevel: u32)

  datatype EnrolledInfo = EnrolledInfo(authType: u32, enrolledId: u64)

  /** What a UserInfo object stands for. */
  datatype User = User(userId: i32, secUid: u64, credentials: seq<CredentialInfo>, enrolled: seq<EnrolledInfo>)

  class UserInfo {
    var userId: i32
    var secUid: u64
    var credentialInfoList: seq<CredentialInfo>
    var enrolledInfoList: seq<EnrolledInfo>

    function Value(): User
      reads this
    {
      User(userId, secUid, credentialInfoList, enrolledInfoList)
    }

    /** InitUserInfoNode: a zeroed user with two empty lists. */
    constructor ()
      ensures Value() == User(0, 0, [], []) && fresh(this)
    {
      userId, secUid, credentialInfoList, enrolledInfoList := 0, 0, [], [];
    }
  }

  ghost function Values(users: seq<UserInfo>): (r: seq<User>)
    reads users
    ensures |r| == |users|
  {
    seq(|users|, i requires 0 <= i < |users| reads users => users[i].Value())
  }

  // ----- record layout: 40 and 16 bytes, padding written as zeros --------------------------------

  const CREDENTIAL_SIZE := 40
  const ENROLLED_SIZE := 16
  const PADDING: seq<byte> := [0, 0, 0, 0]

  function CredentialBytes(c: CredentialInfo): (b: seq<byte>)
    ensures |b| == CREDENTIAL_SIZE
  {
    U64Bytes(c.credentialId) + U32Bytes(c.authType) + PADDING + U64Bytes(c.authSubType)
    + U64Bytes(c.templateId) + U32Bytes(c.capabilityLevel) + PADDING
  }

  function CredentialOf(b: seq<byte>): Option<CredentialInfo>
  {
    if |b| != CREDENTIAL_SIZE then None
    else Some(CredentialInfo(U64Of(b[0..8]), U32Of(b[8..12]), U64Of(b[16..24]), U64Of(b[24..32]), U32Of(b[32..36])))
  }

  lemma CredentialRoundTrip(c: CredentialInfo)
    ensures CredentialOf(CredentialBytes(c)) == Some(c)
  {
    var b := CredentialBytes(c);
    assert b[0..8] == U64Bytes(c.credentialId);
    assert b[8..12] == U32Bytes(c.authType);
    assert b[16..24] == U64Bytes(c.authSubType);
    assert b[24..32] == U64Bytes(c.templateId);
    assert b[32..36] == U32Bytes(c.capabilityLevel);
  }

  function EnrolledBytes(e: EnrolledInfo): (b: seq<byte>)
    ensures |b| == ENROLLED_SIZE
  {
    U32Bytes(e.authType) + PADDING + U64Bytes(e.enrolledId)
  }

  function EnrolledOf(b: seq<byte>): Option<EnrolledInfo>
  {
    if |b| != ENROLLED_SIZE then None
    else Some(EnrolledInfo(U32Of(b[0..4]), U64Of(b[8..16])))
  }

  lemma EnrolledRoundTrip(e: EnrolledInfo)
    ensures EnrolledOf(EnrolledBytes(e)) == Some(e)
  {
    var b := EnrolledBytes(e);
    assert b[0..4] == U32Bytes(e.authType);
    assert b[8..16] == U64Bytes(e.enrolledId);
  }

  /** The offsets of the fields. */
  lemma CredentialLayout(c: CredentialInfo)
    ensures var b := CredentialBytes(c);
            && b[0..8] == LeBytes(c.credentialId, 8) && b[8..12] == LeBytes(c.authType, 4) && b[12..16] == [0, 0, 0, 0]
            && b[16..24] == LeBytes(c.authSubType, 8) && b[24..32] == LeBytes(c.templateId, 8)
            && b[32..36] == LeBytes(c.capabilityLevel, 4) && b[36..40] == [0, 0, 0, 0]
  {
    SevenParts(U64Bytes(c.credentialId), U32Bytes(c.authType), PADDING, U64Bytes(c.authSubType), U64Bytes(c.templateId),
             U32Bytes(c.capabilityLevel), PADDING);
  }

  lemma SevenParts(a: seq<byte>, b: seq<byte>, c: seq<byte>, d: seq<byte>, e: seq<byte>, f: seq<byte>, g: seq<byte>)
    requires |a| == |d| == |e| == 8 && |b| == |c| == |f| == |g| == 4
    ensures var s := a + b + c + d + e + f + g;
            && s[0..8] == a && s[8..12] == b && s[12..16] == c && s[16..24] == d && s[24..32] == e && s[32..36] == f
            && s[36..40] == g
  {}

  lemma EnrolledLayout(e: EnrolledInfo)
    ensures var b := EnrolledBytes(e);
            b[0..4] == LeBytes(e.authType, 4) && b[4..8] == [0, 0, 0, 0] && b[8..16] == LeBytes(e.enrolledId, 8)
  {}
}
