/** user_idm_funcs.c as functions: enrolment, and adding, updating and deleting credentials against tokens. */
module UserIdmSpec {
  import opened Base
  import opened IdmCommon
  import opened IdmSession
  import opened Pool
  import opened CoAuth
  import opened DatabaseSpec
  import opened FileManager
  import AuthLevel
  import ContextSpec
  import DatabaseRuns

  // ----- starting an enrolment -------------------------------------------------------------------

  datatype PermissionParam = PermissionParam(token: ContextSpec.UserAuthToken, userId: i32, authType: u32,
                                             authSubType: u64)

  /** stray is the challenge of an enrolment without a session, which the code leaves uninitialised. */
  datatype EnrollEnv = EnrollEnv(now: u64, userMac: Mac<ContextSpec.UserAuthToken>, stray: u64, generate: GenerateEnv,
                                 add: InsertEnv)

  /** A fresh user token for the challenge of the session. */
  function CheckToken(session: Option<SessionInfo>, token: ContextSpec.UserAuthToken, env: EnrollEnv): ResultCode {
    if session.None? || session.value.challenge != token.challenge then RESULT_BAD_MATCH
    else if !TokenTimeValid(session, token.time) then RESULT_VERIFY_TOKEN_FAIL
    else ContextSpec.UserVerify(token, env.now, env.userMac)
  }

  predicate HasCredential(db: Db, userId: i32, authType: u32) {
    HasUser(db, userId) && HasType(UserOf(db, userId).credentials, authType)
  }

  /** A first PIN needs no token, a later one a PIN token; a face needs a PIN token and must be the first. */
  function Permission(session: Option<SessionInfo>, db: Db, p: PermissionParam, env: EnrollEnv): ResultCode {
    if p.authType == PIN_AUTH then
      if !HasCredential(db, p.userId, PIN_AUTH) then RESULT_SUCCESS
      else if p.token.authType != PIN_AUTH then RESULT_VERIFY_TOKEN_FAIL
      else CheckToken(session, p.token, env)
    else if p.authType == FACE_AUTH then
      if p.token.authType != PIN_AUTH then RESULT_VERIFY_TOKEN_FAIL
      else if HasCredential(db, p.userId, FACE_AUTH) then RESULT_EXCEED_LIMIT
      else CheckToken(session, p.token, env)
    else RESULT_BAD_MATCH
  }

  /** Enrolment is permitted exactly for a first PIN, or, with a fresh PIN token for the challenge of the session that
      is no older than its threshold, for a further PIN or a first face. */
  lemma PermissionIff(session: Option<SessionInfo>, db: Db, p: PermissionParam, env: EnrollEnv)
    ensures Permission(session, db, p, env) == RESULT_SUCCESS <==>
            || (p.authType == PIN_AUTH && !HasCredential(db, p.userId, PIN_AUTH))
            || (&& (p.authType == PIN_AUTH || (p.authType == FACE_AUTH && !HasCredential(db, p.userId, FACE_AUTH)))
                && p.token.authType == PIN_AUTH && session.Some? && session.value.challenge == p.token.challenge
                && session.value.validAuthTokenTime <= p.token.time <= env.now <= p.token.time + TOKEN_VALIDITY_PERIOD
                && env.userMac(p.token.(sign := [])) == Some(p.token.sign))
  {}

  /** What a refusal says: a second face exceeds the limit; a token that is not one for a PIN, or is older than the
      threshold of the session, fails to verify; for another challenge or another type there is no match. */
  lemma PermissionRefused(session: Option<SessionInfo>, db: Db, p: PermissionParam, env: EnrollEnv)
    requires p.authType != PIN_AUTH || HasCredential(db, p.userId, PIN_AUTH)
    ensures var r := Permission(session, db, p, env);
            if p.authType != PIN_AUTH && p.authType != FACE_AUTH then r == RESULT_BAD_MATCH
            else if p.token.authType != PIN_AUTH then r == RESULT_VERIFY_TOKEN_FAIL
            else if p.authType == FACE_AUTH && HasCredential(db, p.userId, FACE_AUTH) then r == RESULT_EXCEED_LIMIT
            else if session.None? || session.value.challenge != p.token.challenge then r == RESULT_BAD_MATCH
            else if p.token.time < session.value.validAuthTokenTime then r == RESULT_VERIFY_TOKEN_FAIL
            else r == ContextSpec.UserVerify(p.token, env.now, env.userMac)
  {}

  /** The user a permission check looks up. */
  function PermissionLookup(p: PermissionParam): Option<i32> {
    if p.authType == PIN_AUTH || (p.authType == FACE_AUTH && p.token.authType == PIN_AUTH) then Some(p.userId) else None
  }

  /** The schedule of an enrolment. */
  function EnrollSchedule(session: Option<SessionInfo>, ss: Option<seq<CoAuthSchedule>>,
                          pool: Option<seq<ExecutorInfo>>, p: PermissionParam, env: EnrollEnv): Option<CoAuthSchedule> {
    var challenge := if session.Some? then session.value.challenge else env.stray;
    Generate(ss, pool, p.authType, IdmBlank(challenge, p.authSubType), env.generate)
  }

  /** CheckEnrollPermission. Without a session the schedule is added all the same, and stays. */
  function Enroll(session: Option<SessionInfo>, ss: Option<seq<CoAuthSchedule>>, pool: Option<seq<ExecutorInfo>>,
                  db: Db, p: PermissionParam, env: EnrollEnv)
    : (ResultCode, Option<SessionInfo>, Option<seq<CoAuthSchedule>>, Option<u64>)
  {
    var permitted := Permission(session, db, p, env);
    if permitted != RESULT_SUCCESS then (permitted, session, ss, None)
    else Started(session, ss, EnrollSchedule(session, ss, pool, p, env), env)
  }

  /** The schedule is added and associated with the session. */
  function Started(session: Option<SessionInfo>, ss: Option<seq<CoAuthSchedule>>, s: Option<CoAuthSchedule>,
                   env: EnrollEnv)
    : (ResultCode, Option<SessionInfo>, Option<seq<CoAuthSchedule>>, Option<u64>)
  {
    if s.None? then (RESULT_NO_MEMORY, session, ss, None)
    else
      var (added, ss1) := Add(ss, s.value, env.add);
      if added != RESULT_SUCCESS then (added, session, ss1, None)
      else if session.None? then (RESULT_NEED_INIT, session, ss1, None)
      else (RESULT_SUCCESS, Associate(session, s.value.scheduleId), ss1, Some(s.value.scheduleId))
  }

  /** A failed enrolment leaves a schedule behind exactly when there is no session and all else works. */
  lemma OrphanEnrolmentIff(session: Option<SessionInfo>, ss: Option<seq<CoAuthSchedule>>,
                           pool: Option<seq<ExecutorInfo>>, db: Db, p: PermissionParam, env: EnrollEnv)
    ensures var (r, session1, ss1, id) := Enroll(session, ss, pool, db, p, env);
            && (r != RESULT_SUCCESS && ss1 != ss <==>
                && session.None? && Permission(session, db, p, env) == RESULT_SUCCESS
                && EnrollSchedule(session, ss, pool, p, env).Some? && Insertable(ss, env.add))
            && (r != RESULT_SUCCESS ==> session1 == session && id == None)
  {
    var s := EnrollSchedule(session, ss, pool, p, env);
    if s.Some? {
      AddIff(ss, s.value, env.add);
    }
  }

  /** Such an enrolment: a first PIN without a session, with one executor in the pool. */
  lemma OrphanEnrolment(userId: i32, token: ContextSpec.UserAuthToken, e: ExecutorInfo, env: EnrollEnv)
    requires e.authType == PIN_AUTH && env.generate.malloced && env.generate.draws[0] == Some(5)
    requires env.add.copied && env.add.inserted
    ensures var (r, session, ss, id) :=
              Enroll(None, Some([]), Some([e]), Db(Some([]), None), PermissionParam(token, userId, PIN_AUTH, 0), env);
            && r == RESULT_NEED_INIT && session == None && id == None
            && ss == Some([CoAuthSchedule(5, SCHEDULE_MODE_ENROLL, env.stray, 0, 0, [e])])
  {
    OneExecutor(e);
    var s := CoAuthSchedule(5, SCHEDULE_MODE_ENROLL, env.stray, 0, 0, [e]);
    assert [s] + [] == [s];
    assert FirstFresh(env.generate.draws, ScheduleIds([])) == Some(5);
  }

  // ----- credentials from tokens -----------------------------------------------------------------

  /** GetInfoFromToken; the id is set when the credential is added. */
  function CredentialFrom(t: ScheduleToken): CredentialInfo {
    CredentialInfo(0, t.authType, t.authSubType, t.templateId, t.capabilityLevel)
  }

  /** The credential has type, subtype, template and level of the token. */
  predicate IsContent(c: CredentialInfo, t: ScheduleToken) {
    && c.authType == t.authType && c.authSubType == t.authSubType && c.templateId == t.templateId
    && c.capabilityLevel == t.capabilityLevel
  }

  /** The clock when the session and when the token is checked, and the MAC. */
  datatype TokenEnv = TokenEnv(sessionNow: u64, tokenNow: u64, mac: Mac<ScheduleToken>)

  /** The token is for the session's schedule, in time, and verifies. */
  function CheckScheduleToken(session: Option<SessionInfo>, t: ScheduleToken, env: TokenEnv): ResultCode {
    if CurrentSchedule(session) != Some(t.scheduleId) || TimedOut(session, env.sessionNow) then RESULT_REACH_LIMIT
    else if TokenVerify(t, env.tokenNow, env.mac) != RESULT_SUCCESS then RESULT_BAD_SIGN
    else RESULT_SUCCESS
  }

  /** A token is accepted exactly while the session is at most ten minutes old, for the schedule it was last associated
      with and not broken off from, at most ten minutes after it was signed, and with the right MAC. */
  predicate Acceptable(session: Option<SessionInfo>, t: ScheduleToken, env: TokenEnv) {
    && session.Some? && session.value.isScheduleValid && session.value.scheduleId == t.scheduleId
    && session.value.time <= env.sessionNow <= session.value.time + 600_000
    && t.time <= env.tokenNow <= t.time + 600_000
    && env.mac(t.(sign := [])) == Some(t.sign)
  }

  lemma ScheduleTokenIff(session: Option<SessionInfo>, t: ScheduleToken, env: TokenEnv)
    ensures CheckScheduleToken(session, t, env) == RESULT_SUCCESS <==> Acceptable(session, t, env)
  {}

  /** The user an accepted token leads to: that of the session. */
  function TokenLookup(session: Option<SessionInfo>, t: ScheduleToken, env: TokenEnv): Option<i32> {
    if CheckScheduleToken(session, t, env) == RESULT_SUCCESS then Some(session.value.userId) else None
  }

  /** AddCredentialFunc: adds for the user of the session. */
  function AddCredential(session: Option<SessionInfo>, db: Db, t: ScheduleToken, check: TokenEnv, env: AddEnv)
    : (ResultCode, Db, Option<u64>)
  {
    var checked := CheckScheduleToken(session, t, check);
    if checked != RESULT_SUCCESS then (checked, db, None)
    else
      var (r, db1, c) := AddCredentialInfo(db, session.value.userId, CredentialFrom(t), env);
      (r, db1, if r == RESULT_SUCCESS then Some(c.credentialId) else None)
  }

  datatype UserTokenEnv = UserTokenEnv(sessionNow: u64, tokenNow: u64, userMac: Mac<ContextSpec.UserAuthToken>)

  /** The session is in time, and the user token for its challenge verifies. */
  predicate UserTokenAccepted(session: Option<SessionInfo>, t: ContextSpec.UserAuthToken, check: UserTokenEnv) {
    && session.Some? && session.value.challenge == t.challenge && !TimedOut(session, check.sessionNow)
    && ContextSpec.UserVerify(t, check.tokenNow, check.userMac) == RESULT_SUCCESS
  }

  /** A user token is accepted for a deletion exactly with the challenge of the session, at most ten minutes after the
      session was opened, at most ten minutes after the token was signed, and with the right MAC. */
  predicate Deletable(session: Option<SessionInfo>, t: ContextSpec.UserAuthToken, check: UserTokenEnv) {
    && session.Some? && t.challenge == session.value.challenge
    && session.value.time <= check.sessionNow <= session.value.time + 600_000
    && t.time <= check.tokenNow <= t.time + 600_000
    && check.userMac(t.(sign := [])) == Some(t.sign)
  }

  lemma UserTokenAcceptedIff(session: Option<SessionInfo>, t: ContextSpec.UserAuthToken, check: UserTokenEnv)
    ensures UserTokenAccepted(session, t, check) <==> Deletable(session, t, check)
  {}

  function DeleteLookup(session: Option<SessionInfo>, userId: i32, t: ContextSpec.UserAuthToken, check: UserTokenEnv)
    : Option<i32>
  {
    if UserTokenAccepted(session, t, check) then Some(userId) else None
  }

  /** DeleteCredentialFunc. */
  function DeleteCredential(session: Option<SessionInfo>, db: Db, userId: i32, credentialId: u64,
                            t: ContextSpec.UserAuthToken, out: CredentialInfo, check: UserTokenEnv, env: SaveEnv)
    : (ResultCode, Db, CredentialInfo)
  {
    if !UserTokenAccepted(session, t, check) then (RESULT_BAD_SIGN, db, out)
    else
      var (r, db1, c) := DeleteCredentialInfo(db, userId, credentialId, out, env);
      (if r == RESULT_SUCCESS then r else RESULT_BAD_SIGN, db1, c)
  }

  /** UpdateCredentialFunc: deletes the user's PIN and adds the one of the token. */
  function UpdateCredential(session: Option<SessionInfo>, db: Db, t: ScheduleToken, out: CredentialInfo,
                            check: TokenEnv, deleteEnv: SaveEnv, env: AddEnv)
    : (ResultCode, Db, CredentialInfo, Option<u64>)
  {
    if t.authType != PIN_AUTH then (RESULT_BAD_PARAM, db, out, None)
    else
      var checked := CheckScheduleToken(session, t, check);
      if checked != RESULT_SUCCESS then (checked, db, out, None)
      else ReplacePin(db, session.value.userId, CredentialFrom(t), out, deleteEnv, env)
  }

  function UpdateLookup(session: Option<SessionInfo>, t: ScheduleToken, env: TokenEnv): Option<i32> {
    if t.authType == PIN_AUTH then TokenLookup(session, t, env) else None
  }

  // ----- queries ---------------------------------------------------------------------------------

  const DEFAULT_AUTH_TYPE: u32 := 0
  const ALL_INFO_GET_USER_ID: i32 := -1

  /** The user QueryCredentialFunc looks up: none when the templates of all users are asked for. */
  function QueryLookup(userId: i32, authType: u32): Option<i32> {
    if authType != DEFAULT_AUTH_TYPE && userId == ALL_INFO_GET_USER_ID then None else Some(userId)
  }

  /** QueryCredentialFunc; fromExecutor is what QueryCredentialFromExecutor gives. */
  function Queried(db: Db, userId: i32, authType: u32, malloced: bool, fromExecutor: (ResultCode, seq<CredentialInfo>))
    : (ResultCode, seq<CredentialInfo>)
  {
    if authType == DEFAULT_AUTH_TYPE then
      if !HasUser(db, userId) then (RESULT_NOT_FOUND, [])
      else if |UserOf(db, userId).credentials| == 0 || !malloced then (RESULT_NO_MEMORY, [])
      else (RESULT_SUCCESS, UserOf(db, userId).credentials)
    else if userId == ALL_INFO_GET_USER_ID then fromExecutor
    else
      var (r, info) := QueryCredentialInfo(db, userId, authType, CredentialInfo(0, 0, 0, 0, 0));
      if r != RESULT_SUCCESS then (r, []) else if !malloced then (RESULT_NO_MEMORY, []) else (r, [info])
  }

  /** A query succeeds exactly for a user with a credential of the type asked for, or of any type, and gives the first
      of the type, or all. */
  lemma QueriedMeans(db: Db, userId: i32, authType: u32, malloced: bool,
                     fromExecutor: (ResultCode, seq<CredentialInfo>))
    requires authType == 0 || userId != -1
    ensures var (r, infos) := Queried(db, userId, authType, malloced, fromExecutor);
            && (r == RESULT_SUCCESS <==>
                malloced && HasUser(db, userId) &&
                exists c :: c in UserOf(db, userId).credentials && (authType == 0 || c.authType == authType))
            && (r == RESULT_SUCCESS && authType == 0 ==> infos == UserOf(db, userId).credentials)
            && (r == RESULT_SUCCESS && authType != 0 ==>
                  |infos| == 1 && AuthLevel.FirstOfType(db, userId, authType, infos[0]))
            && (r != RESULT_SUCCESS ==> infos == [])
            && (r == RESULT_NOT_FOUND <==>
                !HasUser(db, userId)
                || (authType != 0 && forall c :: c in UserOf(db, userId).credentials ==> c.authType != authType))
            && (r == RESULT_SUCCESS || r == RESULT_NOT_FOUND || r == RESULT_NO_MEMORY)
  {
    if HasUser(db, userId) {
      var cs := UserOf(db, userId).credentials;
      HasTypeIn(cs, authType);
      if authType == 0 {
        assert |cs| > 0 ==> cs[0] in cs;
      } else if HasType(cs, authType) {
        ContextSpec.QueriedIsFirst(db, userId, authType, CredentialInfo(0, 0, 0, 0, 0));
      }
    }
  }

  function ReplacePin(db: Db, userId: i32, c: CredentialInfo, out: CredentialInfo, deleteEnv: SaveEnv, env: AddEnv)
    : (ResultCode, Db, CredentialInfo, Option<u64>)
  {
    var (queried, old1) := QueryCredentialInfo(db, userId, PIN_AUTH, out);
    if queried != RESULT_SUCCESS then (queried, db, old1, None)
    else
      var (deleted, db1, old2) := DeleteCredentialInfo(db, userId, old1.credentialId, old1, deleteEnv);
      if deleted != RESULT_SUCCESS then (deleted, db1, old2, None)
      else
        var (r, db2, c1) := AddCredentialInfo(db1, userId, c, env);
        (r, db2, old2, if r == RESULT_SUCCESS then Some(c1.credentialId) else None)
  }

  // ----- what an update does ---------------------------------------------------------------------

  /** Where the user has a PIN: its first credential of the type. */
  function PinOf(u: User): CredentialInfo
    requires HasType(u.credentials, PIN_AUTH)
  {
    u.credentials[FirstIndex(u.credentials, CredentialHasType(PIN_AUTH))]
  }

  /** Deleting the PIN of a well-formed user takes exactly the PIN and its enrolled entry. */
  lemma PinDeleted(u: User)
    requires UserOk(u) && HasType(u.credentials, PIN_AUTH)
    ensures var u1 := DatabaseRuns.UserAfterDelete(u, PinOf(u).credentialId);
            && UserOk(u1) && u1.userId == u.userId && u1.secUid == u.secUid
            && u1.credentials == RemoveFirst(u.credentials, CredentialHasId(PinOf(u).credentialId))
            && (forall c :: c in u1.credentials <==> c in u.credentials && c.authType != PIN_AUTH)
            && !HasType(u1.credentials, PIN_AUTH)
            && |u1.credentials| < MAX_CREDENTIAL && |u1.enrolled| <= MAX_AUTH_TYPE
            && FirstIndex(u.credentials, CredentialHasId(PinOf(u).credentialId)) ==
               FirstIndex(u.credentials, CredentialHasType(PIN_AUTH))
  {
    var k := FirstIndex(u.credentials, CredentialHasType(PIN_AUTH));
    var p := CredentialHasId(PinOf(u).credentialId);
    FirstIndexUnique(u.credentials, p, k);
    DatabaseRuns.UserAfterDeleteOk(u, PinOf(u).credentialId);
    PinRemoved(u.credentials, k, p);
    assert u.credentials[k] in u.credentials;
    DatabaseRuns.RemoveFirstSub(u.enrolled, EnrolledHasType(PIN_AUTH));
    DatabaseRuns.RemoveFirstSub(u.credentials, p);
  }

  lemma PinRemoved(cs: seq<CredentialInfo>, k: nat, p: CredentialInfo -> bool)
    requires k < |cs| && FirstIndex(cs, CredentialHasType(PIN_AUTH)) == k && FirstIndex(cs, p) == k
    requires forall i, j :: 0 <= i < j < |cs| ==> !(cs[i].authType == PIN_AUTH && cs[j].authType == PIN_AUTH)
    ensures forall c :: c in RemoveFirst(cs, p) <==> c in cs && c.authType != PIN_AUTH
    ensures !HasType(RemoveFirst(cs, p), PIN_AUTH)
  {
    var q := CredentialHasType(PIN_AUTH);
    RemoveFirstAt(cs, p);
    RemoveFirstAt(cs, q);
    forall c ensures c in RemoveFirst(cs, p) <==> c in cs && c.authType != PIN_AUTH {
      RemoveOnly(cs, q, c);
    }
    HasTypeIn(RemoveFirst(cs, p), PIN_AUTH);
  }

  /** The guard on the number of credentials and enrolled entries never fires for a user whose PIN was deleted. */
  lemma ReaddNeverExceeds(u: User, c: CredentialInfo, env: AddEnv)
    requires UserOk(u) && HasType(u.credentials, PIN_AUTH)
    ensures AddCredentialToUser(DatabaseRuns.UserAfterDelete(u, PinOf(u).credentialId), c, env).0 != RESULT_EXCEED_LIMIT
  {
    PinDeleted(u);
  }

  /** Adding to a user of the list, when the type allows it. */
  lemma AddForUser(db: Db, userId: i32, c: CredentialInfo, env: AddEnv)
    requires HasUser(db, userId) && (c.authType == PIN_AUTH ==> !HasType(UserOf(db, userId).credentials, PIN_AUTH))
    ensures var (r, u1, c1) := AddCredentialToUser(UserOf(db, userId), c, env);
            AddCredentialInfo(db, userId, c, env) ==
            if r != RESULT_SUCCESS then (r, SetUser(db, userId, u1), c1)
            else (SaveDb(SetUser(db, userId, u1), env.save).0, SaveDb(SetUser(db, userId, u1), env.save).1, c1)
  {}

  /** What adding a PIN to a user without one does: on success it is in front, with a new id. */
  lemma AddPin(db: Db, userId: i32, c: CredentialInfo, env: AddEnv)
    requires HasUser(db, userId) && UserOk(UserOf(db, userId)) && !HasType(UserOf(db, userId).credentials, PIN_AUTH)
    requires c.authType == PIN_AUTH
    ensures var (r, db1, c1) := AddCredentialInfo(db, userId, c, env);
            var u := UserOf(db, userId);
            var u1 := AddCredentialToUser(u, c, env).1;
            && db1.users == SetUser(db, userId, u1).users
            && (r == RESULT_SUCCESS ==>
                  && u1.credentials == [c1] + u.credentials && c1 == c.(credentialId := c1.credentialId)
                  && u1.userId == u.userId && u1.secUid == u.secUid)
            && (r == RESULT_EXCEED_LIMIT ==> AddCredentialToUser(u, c, env).0 == RESULT_EXCEED_LIMIT)
  {
    AddForUser(db, userId, c, env);
    var u := UserOf(db, userId);
    AddToUserOk(u, c, env);
    DatabaseRuns.SaveKeepsUsers(SetUser(db, userId, AddCredentialToUser(u, c, env).1), env.save);
  }

  lemma SetUserTwice(db: Db, db1: Db, userId: i32, u1: User, u2: User)
    requires HasUser(db, userId) && u1.userId == userId && db1.users == SetUser(db, userId, u1).users
    ensures HasUser(db1, userId) && UserOf(db1, userId) == u1
    ensures SetUser(db1, userId, u2).users == SetUser(db, userId, u2).users
  {
    var us, k := db.users.value, FindUser(db.users.value, userId);
    forall j | 0 <= j < k ensures us[k := u1][j] == us[j] && !UserHasId(userId)(us[j]) {}
    FirstIndexUnique(us[k := u1], UserHasId(userId), k);
    assert us[k := u1][k := u2] == us[k := u2];
  }

  /** The user after a replaced PIN. */
  ghost predicate PinReplaced(u: User, u2: User, c: CredentialInfo, id: u64) {
    && u2.userId == u.userId && u2.secUid == u.secUid && HasType(u.credentials, PIN_AUTH)
    && u2.credentials == [c.(credentialId := id)] + RemoveFirst(u.credentials, CredentialHasId(PinOf(u).credentialId))
  }

  /** On success the PIN of the token has taken the place of the one PIN there was, which is handed back; the
      capacity guard never refuses the new one, and no other user changes whatever the outcome. */
  lemma ReplacePinMeans(db: Db, userId: i32, c: CredentialInfo, out: CredentialInfo, deleteEnv: SaveEnv, env: AddEnv)
    requires db.users.Some? && UsersOk(db.users.value) && c.authType == PIN_AUTH
    ensures var (r, db2, deleted, id) := ReplacePin(db, userId, c, out, deleteEnv, env);
            && r != RESULT_EXCEED_LIMIT
            && (!HasUser(db, userId) ==> db2.users == db.users)
            && (HasUser(db, userId) ==> exists u2 :: db2.users == SetUser(db, userId, u2).users)
            && (r == RESULT_SUCCESS ==>
                  && HasUser(db, userId) && HasType(UserOf(db, userId).credentials, PIN_AUTH) && id.Some?
                  && deleted == PinOf(UserOf(db, userId))
                  && exists u2 :: && db2.users == SetUser(db, userId, u2).users
                                  && PinReplaced(UserOf(db, userId), u2, c, id.value))
  {
    var (r, db2, deleted, id) := ReplacePin(db, userId, c, out, deleteEnv, env);
    if HasUser(db, userId) {
      var u := UserOf(db, userId);
      DatabaseRuns.UnchangedUser(db, userId);
      if HasType(u.credentials, PIN_AUTH) {
        ReplacePinOfUser(db, userId, c, out, deleteEnv, env);
      }
    }
  }

  lemma DeleteResult(db: Db, userId: i32, credentialId: u64, out: CredentialInfo, env: SaveEnv)
    requires HasUser(db, userId) && UserOk(UserOf(db, userId))
    ensures var cs := UserOf(db, userId).credentials;
            var (r, _, c) := DeleteCredentialInfo(db, userId, credentialId, out, env);
            var i := FirstIndex(cs, CredentialHasId(credentialId));
            r != RESULT_EXCEED_LIMIT && c == if i < |cs| then cs[i] else out
  {
    DatabaseRuns.DeleteOutcome(db, userId, credentialId, out, env);
    DatabaseRuns.SaveKeepsUsers(SetUser(db, userId, DatabaseRuns.UserAfterDelete(UserOf(db, userId), credentialId)),
                                env);
  }

  lemma DeletedPin(db: Db, userId: i32, deleteEnv: SaveEnv)
    requires db.users.Some? && UsersOk(db.users.value) && HasCredential(db, userId, PIN_AUTH)
    ensures var pin, u1 := PinOf(UserOf(db, userId)),
                DatabaseRuns.UserAfterDelete(UserOf(db, userId), PinOf(UserOf(db, userId)).credentialId);
            var (r, db1, c) := DeleteCredentialInfo(db, userId, pin.credentialId, pin, deleteEnv);
            && c == pin && r != RESULT_EXCEED_LIMIT && db1.users == SetUser(db, userId, u1).users
            && HasUser(db1, userId) && UserOf(db1, userId) == u1
  {
    var u := UserOf(db, userId);
    var pin := PinOf(u);
    PinDeleted(u);
    DeleteResult(db, userId, pin.credentialId, pin, deleteEnv);
    DatabaseRuns.DeleteCredentialInfoOk(db, userId, pin.credentialId, pin, deleteEnv);
    SetUserTwice(db, DeleteCredentialInfo(db, userId, pin.credentialId, pin, deleteEnv).1, userId,
                 DatabaseRuns.UserAfterDelete(u, pin.credentialId), u);
  }

  lemma ReplacePinOfUser(db: Db, userId: i32, c: CredentialInfo, out: CredentialInfo, deleteEnv: SaveEnv, env: AddEnv)
    requires db.users.Some? && UsersOk(db.users.value) && c.authType == PIN_AUTH && HasCredential(db, userId, PIN_AUTH)
    ensures var (r, db2, deleted, id) := ReplacePin(db, userId, c, out, deleteEnv, env);
            && r != RESULT_EXCEED_LIMIT
            && (exists u2 :: db2.users == SetUser(db, userId, u2).users)
            && (r == RESULT_SUCCESS ==>
                  && id.Some? && deleted == PinOf(UserOf(db, userId))
                  && exists u2 :: && db2.users == SetUser(db, userId, u2).users
                                  && PinReplaced(UserOf(db, userId), u2, c, id.value))
  {
    var u := UserOf(db, userId);
    var pin := PinOf(u);
    DeletedPin(db, userId, deleteEnv);
    var (deleted, db1, _) := DeleteCredentialInfo(db, userId, pin.credentialId, pin, deleteEnv);
    if deleted == RESULT_SUCCESS {
      var u1 := DatabaseRuns.UserAfterDelete(u, pin.credentialId);
      PinDeleted(u);
      ReaddNeverExceeds(u, c, env);
      AddPin(db1, userId, c, env);
      var u2 := AddCredentialToUser(u1, c, env).1;
      SetUserTwice(db, db1, userId, u1, u2);
      var (r, db2, c1) := AddCredentialInfo(db1, userId, c, env);
      assert db2.users == SetUser(db, userId, u2).users;
      assert r == RESULT_SUCCESS ==> PinReplaced(u, u2, c, c1.credentialId);
    }
  }

  /** A user with a replaced PIN has that PIN and no other, and keeps its other credentials. */
  lemma PinReplacedMeans(u: User, u2: User, c: CredentialInfo, id: u64)
    requires UserOk(u) && c.authType == PIN_AUTH && PinReplaced(u, u2, c, id)
    ensures forall x :: x in u2.credentials <==>
            x == c.(credentialId := id) || (x in u.credentials && x.authType != PIN_AUTH)
    ensures |u2.credentials| == |u.credentials|
  {
    PinDeleted(u);
    DatabaseRuns.RemoveFirstSub(u.credentials, CredentialHasId(PinOf(u).credentialId));
  }

  /** Memory and random numbers for a PIN, its enrolled entry included. */
  predicate PinInsertable(u: User, env: AddEnv) {
    && env.enrolledMalloced && env.enrolledInserted && FirstFresh(env.enrolledDraws, EnrolledIds(u.enrolled)).Some?
    && env.credentialMalloced && env.credentialInserted
    && FirstFresh(env.credentialDraws, CredentialIds(u.credentials)).Some?
  }

  lemma PinInsertedIff(u: User, c: CredentialInfo, env: AddEnv)
    requires UserOk(u) && HasType(u.credentials, PIN_AUTH) && c.authType == PIN_AUTH
    ensures var u1 := DatabaseRuns.UserAfterDelete(u, PinOf(u).credentialId);
            var (r, u2, _) := AddCredentialToUser(u1, c, env);
            && (r == RESULT_SUCCESS <==> PinInsertable(u1, env))
            && (HasType(u2.credentials, PIN_AUTH) <==> r == RESULT_SUCCESS)
            && UserOk(u2) && u2.userId == u.userId
  {
    PinDeleted(u);
    PinUnenrolled(u);
    var u1 := DatabaseRuns.UserAfterDelete(u, PinOf(u).credentialId);
    AddToUserOk(u1, c, env);
    var (r, u2, c1) := AddCredentialToUser(u1, c, env);
    if r == RESULT_SUCCESS {
      assert u2.credentials[0] == c1 && CredentialHasType(PIN_AUTH)(c1);
    }
  }

  /** With the PIN its enrolled entry is gone. */
  lemma PinUnenrolled(u: User)
    requires UserOk(u) && HasType(u.credentials, PIN_AUTH)
    ensures !IsEnrolled(DatabaseRuns.UserAfterDelete(u, PinOf(u).credentialId).enrolled, PIN_AUTH)
  {
    PinDeleted(u);
    DatabaseRuns.EnrolledRemoved(u.enrolled, PIN_AUTH, PIN_AUTH);
  }

  /** An update loses the PIN exactly when the user without it could not be saved, or could be but the new PIN then
      not be inserted; the update fails then. */
  lemma PinLostIff(db: Db, userId: i32, c: CredentialInfo, out: CredentialInfo, deleteEnv: SaveEnv, env: AddEnv)
    requires db.users.Some? && UsersOk(db.users.value) && c.authType == PIN_AUTH && HasCredential(db, userId, PIN_AUTH)
    ensures var (r, db2, _, _) := ReplacePin(db, userId, c, out, deleteEnv, env);
            var u1 := DatabaseRuns.UserAfterDelete(UserOf(db, userId), PinOf(UserOf(db, userId)).credentialId);
            && HasUser(db2, userId)
            && (!HasType(UserOf(db2, userId).credentials, PIN_AUTH) <==>
                !(Saves(SetUser(db, userId, u1).users.value, deleteEnv) && PinInsertable(u1, env)))
            && (!HasType(UserOf(db2, userId).credentials, PIN_AUTH) ==> r != RESULT_SUCCESS)
  {
    var u := UserOf(db, userId);
    var pin, u1 := PinOf(u), DatabaseRuns.UserAfterDelete(u, PinOf(u).credentialId);
    PinDeleted(u);
    DeletedPin(db, userId, deleteEnv);
    PinDeletedIff(db, userId, deleteEnv);
    PinInsertedIff(u, c, env);
    var (deleted, db1, _) := DeleteCredentialInfo(db, userId, pin.credentialId, pin, deleteEnv);
    if deleted == RESULT_SUCCESS {
      AddPin(db1, userId, c, env);
      PinAdded(db1, userId, c, env);
    }
  }

  lemma PinAdded(db1: Db, userId: i32, c: CredentialInfo, env: AddEnv)
    requires HasUser(db1, userId) && UserOk(UserOf(db1, userId)) && !HasType(UserOf(db1, userId).credentials, PIN_AUTH)
    requires c.authType == PIN_AUTH && UserOf(db1, userId).userId == userId
    ensures var db2, u2 := AddCredentialInfo(db1, userId, c, env).1, AddCredentialToUser(UserOf(db1, userId), c, env).1;
            HasUser(db2, userId) && UserOf(db2, userId) == u2
    ensures AddCredentialInfo(db1, userId, c, env).0 == RESULT_SUCCESS ==>
              AddCredentialToUser(UserOf(db1, userId), c, env).0 == RESULT_SUCCESS
  {
    var u2 := AddCredentialToUser(UserOf(db1, userId), c, env).1;
    AddPin(db1, userId, c, env);
    AddForUser(db1, userId, c, env);
    AddToUserOk(UserOf(db1, userId), c, env);
    SetUserTwice(db1, AddCredentialInfo(db1, userId, c, env).1, userId, u2, u2);
  }

  lemma PinDeletedIff(db: Db, userId: i32, deleteEnv: SaveEnv)
    requires db.users.Some? && UsersOk(db.users.value) && HasCredential(db, userId, PIN_AUTH)
    ensures var pin, u1 := PinOf(UserOf(db, userId)),
                DatabaseRuns.UserAfterDelete(UserOf(db, userId), PinOf(UserOf(db, userId)).credentialId);
            DeleteCredentialInfo(db, userId, pin.credentialId, pin, deleteEnv).0 == RESULT_SUCCESS <==>
            Saves(SetUser(db, userId, u1).users.value, deleteEnv)
  {
    var u := UserOf(db, userId);
    var pin, u1 := PinOf(u), DatabaseRuns.UserAfterDelete(u, PinOf(u).credentialId);
    PinDeleted(u);
    DatabaseRuns.DeleteOutcome(db, userId, pin.credentialId, pin, deleteEnv);
    SavesIff(SetUser(db, userId, u1).users.value, db.file, deleteEnv);
  }

  // ----- what the calls promise on success -------------------------------------------------------

  /** The schedule with the returned id was added, for the requested type, and is the session's. */
  ghost predicate EnrolledAs(session: Option<SessionInfo>, session1: Option<SessionInfo>,
                             ss: Option<seq<CoAuthSchedule>>, ss1: Option<seq<CoAuthSchedule>>, p: PermissionParam,
                             id: Option<u64>) {
    && id.Some? && session.Some? && CurrentSchedule(session1) == id && session1.value.userId == session.value.userId
    && ss.Some? && id.value !in ScheduleIds(ss.value)
    && exists s :: ss1 == Some([s] + ss.value) && s.scheduleId == id.value && s.scheduleMode == SCHEDULE_MODE_ENROLL
         && ScheduleOk(s) && s.executors[0].authType == p.authType && s.associateId == session.value.challenge
         && s.authSubType == p.authSubType && s.templateId == 0
  }

  lemma PermittedEnrols(session: Option<SessionInfo>, ss: Option<seq<CoAuthSchedule>>, pool: Option<seq<ExecutorInfo>>,
                        db: Db, p: PermissionParam, env: EnrollEnv)
    ensures var (r, session1, ss1, id) := Enroll(session, ss, pool, db, p, env);
            r == RESULT_SUCCESS ==> EnrolledAs(session, session1, ss, ss1, p, id)
  {
    var s := EnrollSchedule(session, ss, pool, p, env);
    if Enroll(session, ss, pool, db, p, env).0 == RESULT_SUCCESS {
      GenerateOk(ss, pool, p.authType, IdmBlank(session.value.challenge, p.authSubType), env.generate);
      AddIff(ss, s.value, env.add);
    }
  }

  /** The user has the credential, with a new id, in front of those it had; or, not known before, it may have been
      created with it. The file holds the list. */
  ghost predicate AddedFor(db: Db, db1: Db, userId: i32, t: ScheduleToken, id: Option<u64>) {
    && id.Some? && db.users.Some? && DatabaseRuns.Written(db1)
    && (HasUser(db, userId) ==>
          exists u1 :: db1.users == SetUser(db, userId, u1).users && ContentAdded(UserOf(db, userId), u1, t, id.value))
    && (!HasUser(db, userId) ==> t.authType == PIN_AUTH)
    && (!HasUser(db, userId) && db1.users != db.users ==>
          exists u1 :: && db1.users == Some([u1] + db.users.value) && u1.secUid !in SecUids(db.users.value)
                       && ContentAdded(User(userId, u1.secUid, [], []), u1, t, id.value))
  }

  /** The content of the token is in front, under an id the user had no credential with, and its type is enrolled;
      nothing else of the user changed. */
  ghost predicate ContentAdded(u: User, u1: User, t: ScheduleToken, id: u64) {
    && u1.userId == u.userId && u1.secUid == u.secUid
    && |u1.credentials| > 0 && u1.credentials[1..] == u.credentials
    && IsContent(u1.credentials[0], t) && u1.credentials[0].credentialId == id && id !in CredentialIds(u.credentials)
    && forall a :: IsEnrolled(u1.enrolled, a) <==> IsEnrolled(u.enrolled, a) || a == t.authType
  }

  lemma AddedIsContent(u: User, u1: User, t: ScheduleToken, c1: CredentialInfo)
    requires DatabaseRuns.CredentialAdded(u, u1, CredentialFrom(t), c1)
    ensures ContentAdded(u, u1, t, c1.credentialId)
  {}

  lemma SuccessNeedsUsers(db: Db, userId: i32, c: CredentialInfo, env: AddEnv)
    requires AddCredentialInfo(db, userId, c, env).0 == RESULT_SUCCESS
    ensures db.users.Some?
  {}

  lemma AddsFor(db: Db, userId: i32, t: ScheduleToken, env: AddEnv)
    requires db.users.Some? ==> UsersOk(db.users.value)
    requires AddCredentialInfo(db, userId, CredentialFrom(t), env).0 == RESULT_SUCCESS
    ensures var (_, db1, c1) := AddCredentialInfo(db, userId, CredentialFrom(t), env);
            AddedFor(db, db1, userId, t, Some(c1.credentialId))
  {
    var c := CredentialFrom(t);
    var (_, db1, c1) := AddCredentialInfo(db, userId, c, env);
    SuccessNeedsUsers(db, userId, c, env);
    if HasUser(db, userId) {
      DatabaseRuns.AddMeans(db, userId, c, env);
      var u1 :| && db1.users == SetUser(db, userId, u1).users
                && DatabaseRuns.CredentialAdded(UserOf(db, userId), u1, c, c1);
      AddedIsContent(UserOf(db, userId), u1, t, c1);
    } else {
      DatabaseRuns.AddMeansForNew(db, userId, c, env);
      if db1.users != db.users {
        var u1 :| && db1.users == Some([u1] + db.users.value) && u1.secUid !in SecUids(db.users.value)
                  && DatabaseRuns.CredentialAdded(User(userId, u1.secUid, [], []), u1, c, c1);
        AddedIsContent(User(userId, u1.secUid, [], []), u1, t, c1);
      }
    }
  }

  lemma AcceptedAdds(session: Option<SessionInfo>, db: Db, t: ScheduleToken, check: TokenEnv, env: AddEnv)
    requires db.users.Some? ==> UsersOk(db.users.value)
    ensures var (r, db1, id) := AddCredential(session, db, t, check, env);
            && (!Acceptable(session, t, check) ==> db1 == db && r != RESULT_SUCCESS)
            && (r == RESULT_SUCCESS ==> AddedFor(db, db1, session.value.userId, t, id))
  {
    ScheduleTokenIff(session, t, check);
    if AddCredential(session, db, t, check, env).0 == RESULT_SUCCESS {
      AddsFor(db, session.value.userId, t, env);
    }
  }

  /** The PIN of the token has taken the place of the old one, which is handed back. */
  ghost predicate ReplacedFor(db: Db, db1: Db, userId: i32, t: ScheduleToken, deleted: CredentialInfo,
                              id: Option<u64>) {
    && id.Some? && HasUser(db, userId) && DatabaseRuns.Written(db1)
    && deleted in UserOf(db, userId).credentials && deleted.authType == PIN_AUTH
    && exists u2 :: db1.users == SetUser(db, userId, u2).users && ContentReplaced(UserOf(db, userId), u2, t, id.value)
  }

  /** The content of the token is in front, and of the other credentials all but the PIN are still there. */
  ghost predicate ContentReplaced(u: User, u2: User, t: ScheduleToken, id: u64) {
    && u2.userId == u.userId && u2.secUid == u.secUid && |u2.credentials| == |u.credentials| > 0
    && IsContent(u2.credentials[0], t) && u2.credentials[0].credentialId == id
    && forall x :: x in u2.credentials[1..] <==> x in u.credentials && x.authType != PIN_AUTH
  }

  lemma ReplacedIsContent(u: User, u2: User, t: ScheduleToken, id: u64)
    requires UserOk(u) && t.authType == PIN_AUTH && PinReplaced(u, u2, CredentialFrom(t), id)
    ensures ContentReplaced(u, u2, t, id)
  {
    PinReplacedMeans(u, u2, CredentialFrom(t), id);
    PinDeleted(u);
    assert u2.credentials[1..] == RemoveFirst(u.credentials, CredentialHasId(PinOf(u).credentialId));
  }

  lemma ReplacesFor(db: Db, userId: i32, t: ScheduleToken, out: CredentialInfo, deleteEnv: SaveEnv, env: AddEnv)
    requires db.users.Some? && UsersOk(db.users.value) && t.authType == PIN_AUTH
    ensures var (r, db1, deleted, id) := ReplacePin(db, userId, CredentialFrom(t), out, deleteEnv, env);
            r == RESULT_SUCCESS ==> ReplacedFor(db, db1, userId, t, deleted, id)
  {
    var c := CredentialFrom(t);
    var (r, db1, deleted, id) := ReplacePin(db, userId, c, out, deleteEnv, env);
    ReplacePinMeans(db, userId, c, out, deleteEnv, env);
    if r == RESULT_SUCCESS {
      ReplacedWritten(db, userId, c, out, deleteEnv, env);
      var u2 :| db1.users == SetUser(db, userId, u2).users && PinReplaced(UserOf(db, userId), u2, c, id.value);
      ReplacedIsContent(UserOf(db, userId), u2, t, id.value);
    }
  }

  lemma ReplacedWritten(db: Db, userId: i32, c: CredentialInfo, out: CredentialInfo, deleteEnv: SaveEnv, env: AddEnv)
    requires db.users.Some? && UsersOk(db.users.value) && c.authType == PIN_AUTH
    requires ReplacePin(db, userId, c, out, deleteEnv, env).0 == RESULT_SUCCESS
    ensures DatabaseRuns.Written(ReplacePin(db, userId, c, out, deleteEnv, env).1)
  {
    DeletedPin(db, userId, deleteEnv);
    var pin := PinOf(UserOf(db, userId));
    var db1 := DeleteCredentialInfo(db, userId, pin.credentialId, pin, deleteEnv).1;
    DatabaseRuns.DeleteCredentialInfoOk(db, userId, pin.credentialId, pin, deleteEnv);
    DatabaseRuns.AddMeans(db1, userId, c, env);
  }

  lemma AcceptedReplaces(session: Option<SessionInfo>, db: Db, t: ScheduleToken, out: CredentialInfo, check: TokenEnv,
                         deleteEnv: SaveEnv, env: AddEnv)
    requires db.users.Some? ==> UsersOk(db.users.value)
    ensures var (r, db1, deleted, id) := UpdateCredential(session, db, t, out, check, deleteEnv, env);
            && (!Acceptable(session, t, check) || t.authType != PIN_AUTH ==> db1 == db && r != RESULT_SUCCESS)
            && (r == RESULT_SUCCESS ==> ReplacedFor(db, db1, session.value.userId, t, deleted, id))
  {
    ScheduleTokenIff(session, t, check);
    if Acceptable(session, t, check) && t.authType == PIN_AUTH && db.users.Some? {
      ReplacesFor(db, session.value.userId, t, out, deleteEnv, env);
    }
  }

  /** Exactly the credential of the id is gone, and handed back; nothing else of any user changed but the enrolled
      entry of a type the user has no credential of any more. */
  ghost predicate DeletedFor(db: Db, db1: Db, userId: i32, credentialId: u64, c: CredentialInfo) {
    && HasUser(db, userId) && c in UserOf(db, userId).credentials && c.credentialId == credentialId
    && var u, u1 := UserOf(db, userId), DatabaseRuns.UserAfterDelete(UserOf(db, userId), credentialId);
       && db1.users == SetUser(db, userId, u1).users
       && (forall x :: x in u1.credentials <==> x in u.credentials && x.credentialId != credentialId)
       && (forall t :: IsEnrolled(u1.enrolled, t) <==>
             IsEnrolled(u.enrolled, t) && (t != c.authType || HasType(u1.credentials, t)))
  }

  lemma AcceptedDeletes(session: Option<SessionInfo>, db: Db, userId: i32, credentialId: u64,
                        t: ContextSpec.UserAuthToken, out: CredentialInfo, check: UserTokenEnv, env: SaveEnv)
    requires db.users.Some? ==> UsersOk(db.users.value)
    ensures var (r, db1, c) := DeleteCredential(session, db, userId, credentialId, t, out, check, env);
            && (!Deletable(session, t, check) ==> r == RESULT_BAD_SIGN && db1 == db && c == out)
            && (r == RESULT_SUCCESS ==> DeletedFor(db, db1, userId, credentialId, c))
            && (r == RESULT_SUCCESS || r == RESULT_BAD_SIGN)
  {
    UserTokenAcceptedIff(session, t, check);
    if DeleteCredential(session, db, userId, credentialId, t, out, check, env).0 == RESULT_SUCCESS {
      DeletesFor(db, userId, credentialId, out, env);
    }
  }

  lemma DeletesFor(db: Db, userId: i32, credentialId: u64, out: CredentialInfo, env: SaveEnv)
    requires db.users.Some? ==> UsersOk(db.users.value)
    requires DeleteCredentialInfo(db, userId, credentialId, out, env).0 == RESULT_SUCCESS
    ensures var (_, db1, c) := DeleteCredentialInfo(db, userId, credentialId, out, env);
            DeletedFor(db, db1, userId, credentialId, c)
  {
    DatabaseRuns.DeleteMeans(db, userId, credentialId, out, env);
    var u, u1 := UserOf(db, userId), DatabaseRuns.UserAfterDelete(UserOf(db, userId), credentialId);
    forall t | HasType(u1.credentials, t) ensures IsEnrolled(u.enrolled, t) {
      HasTypeIn(u1.credentials, t);
    }
  }
}
