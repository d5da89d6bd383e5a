/** context_manager.c and user_auth_funcs.c: authentication contexts, each waiting for one schedule. */
module ContextSpec {
  import opened Base
  import opened Pool
  import opened CoAuth
  import opened DatabaseSpec
  import opened IdmCommon
  import LinkedLists
  import AuthLevel

  const DEFAULT_TYPE: u64 := 0

  datatype Context = Context(contextId: u64, userId: i32, challenge: u64, authType: u32, authTrustLevel: u32,
                             schedules: seq<CoAuthSchedule>)

  datatype AuthSolution = AuthSolution(contextId: u64, userId: i32, challenge: u64, authType: u32, authTrustLevel: u32)

  function HasContextId(id: u64): Context -> bool {
    (c: Context) => c.contextId == id
  }

  function FindContext(cs: seq<Context>, id: u64): nat {
    FirstIndex(cs, HasContextId(id))
  }

  predicate IsLive(cs: Option<seq<Context>>, id: u64) {
    cs.Some? && FindContext(cs.value, id) < |cs.value|
  }

  function ContextOf(cs: Option<seq<Context>>, id: u64): Context
    requires IsLive(cs, id)
  {
    cs.value[FindContext(cs.value, id)]
  }

  /** DestoryContext for the first context with the id. */
  function Destroy(cs: Option<seq<Context>>, id: u64): Option<seq<Context>> {
    if cs.None? then cs else Some(RemoveFirst(cs.value, HasContextId(id)))
  }

  // ----- generating a context --------------------------------------------------------------------

  datatype ContextEnv = ContextEnv(malloced: bool, listCreated: bool, generate: GenerateEnv, add: InsertEnv,
                                   scheduleInserted: bool, contextInserted: bool, idsMalloced: bool)

  /** CreateCoauthSchedule: an authentication schedule for the user's template, added to the live ones. */
  function CreateSchedule(ss: Option<seq<CoAuthSchedule>>, pool: Option<seq<ExecutorInfo>>, db: Db, p: AuthSolution,
                          env: ContextEnv): (Option<CoAuthSchedule>, Option<seq<CoAuthSchedule>>) {
    var (r, credential) := QueryCredentialInfo(db, p.userId, p.authType, CredentialInfo(0, 0, 0, 0, 0));
    if r != RESULT_SUCCESS then (None, ss)
    else
      var s := Generate(ss, pool, p.authType, AuthBlank(p.contextId, DEFAULT_TYPE, credential.templateId),
                        env.generate);
      if s.None? then (None, ss)
      else
        var (added, ss1) := Add(ss, s.value, env.add);
        if added != RESULT_SUCCESS then (None, ss1) else (s, ss1)
  }

  /** The checks of GenerateContext before anything is created. */
  predicate Admitted(cs: Option<seq<Context>>, pool: Option<seq<ExecutorInfo>>, db: Db, p: AuthSolution) {
    && cs.Some? && !IsLive(cs, p.contextId)
    && var atl := AuthLevel.TrustLevel(pool, db, p.userId, p.authType); atl.Some? && atl.value >= p.authTrustLevel
  }

  /** The user the checks of GenerateContext look up. */
  function SolutionLookup(cs: Option<seq<Context>>, pool: Option<seq<ExecutorInfo>>, p: AuthSolution): Option<i32> {
    if cs.Some? && !IsLive(cs, p.contextId) then AuthLevel.TrustLookup(pool, p.userId, p.authType) else None
  }

  /** GenerateContext. A failure after the schedule was added leaves the schedule behind. */
  function GenerateContext(cs: Option<seq<Context>>, ss: Option<seq<CoAuthSchedule>>, pool: Option<seq<ExecutorInfo>>,
                           db: Db, p: AuthSolution, env: ContextEnv)
    : (Option<Context>, Option<seq<Context>>, Option<seq<CoAuthSchedule>>)
  {
    if !Admitted(cs, pool, db, p) then (None, cs, ss) else CreateContext(cs.value, ss, pool, db, p, env)
  }

  function CreateContext(cs: seq<Context>, ss: Option<seq<CoAuthSchedule>>, pool: Option<seq<ExecutorInfo>>, db: Db,
                         p: AuthSolution, env: ContextEnv)
    : (Option<Context>, Option<seq<Context>>, Option<seq<CoAuthSchedule>>)
  {
    if !env.malloced || !env.listCreated then (None, Some(cs), ss)
    else
      var (s, ss1) := CreateSchedule(ss, pool, db, p, env);
      if s.None? || !env.scheduleInserted || !env.contextInserted || |cs| >= LinkedLists.UINT32_MAX then
        (None, Some(cs), ss1)
      else
        var c := Context(p.contextId, p.userId, p.challenge, p.authType, p.authTrustLevel, [s.value]);
        (Some(c), Some([c] + cs), ss1)
  }

  function IdsOf(ss: seq<CoAuthSchedule>): seq<u64> {
    if |ss| == 0 then [] else [ss[0].scheduleId] + IdsOf(ss[1..])
  }

  /** GenerateSolutionFunc: the ids of the new context's schedules. */
  function GenerateSolution(cs: Option<seq<Context>>, ss: Option<seq<CoAuthSchedule>>, pool: Option<seq<ExecutorInfo>>,
                            db: Db, p: AuthSolution, env: ContextEnv)
    : (ResultCode, Option<seq<Context>>, Option<seq<CoAuthSchedule>>, seq<u64>)
  {
    var (c, cs1, ss1) := GenerateContext(cs, ss, pool, db, p, env);
    if c.None? then (RESULT_GENERAL_ERROR, cs1, ss1, [])
    else
      var (r, cs2, ids) := Solution(c.value, cs1, env.idsMalloced);
      (r, cs2, ss1, ids)
  }

  /** The ids of a new context; without memory for them the context is destroyed. */
  function Solution(c: Context, cs: Option<seq<Context>>, idsMalloced: bool)
    : (ResultCode, Option<seq<Context>>, seq<u64>) {
    if |c.schedules| > 0 && !idsMalloced then (RESULT_NO_MEMORY, Destroy(cs, c.contextId), [])
    else (RESULT_SUCCESS, cs, IdsOf(c.schedules))
  }

  /** The solution from what GenerateContext gives. */
  lemma SolutionFrom(cs: Option<seq<Context>>, ss: Option<seq<CoAuthSchedule>>, pool: Option<seq<ExecutorInfo>>, db: Db,
                     p: AuthSolution, env: ContextEnv, c: Option<Context>, cs1: Option<seq<Context>>,
                     ss1: Option<seq<CoAuthSchedule>>)
    requires GenerateContext(cs, ss, pool, db, p, env) == (c, cs1, ss1)
    ensures GenerateSolution(cs, ss, pool, db, p, env) ==
            if c.None? then (RESULT_GENERAL_ERROR, cs1, ss1, [])
            else
              var (r, cs2, ids) := Solution(c.value, cs1, env.idsMalloced);
              (r, cs2, ss1, ids)
  {}

  // ----- requesting the result -------------------------------------------------------------------

  datatype UserAuthToken = UserAuthToken(authResult: u32, contextId: u64, userId: i32, challenge: u64, authType: u32,
                                         authTrustLevel: u32, enrolledId: u64, version: u32, time: u64, sign: seq<byte>)

  const BLANK_TOKEN := UserAuthToken(0, 0, 0, 0, 0, 0, 0, 0, 0, [])

  datatype ResultEnv = ResultEnv(now: u64, signTime: u64, mac: Mac<ScheduleToken>, userMac: Mac<UserAuthToken>,
                                 idsMalloced: bool)

  /** UserAuthTokenSign. */
  function UserSign(t: UserAuthToken, mac: Mac<UserAuthToken>): (ResultCode, UserAuthToken) {
    var t1 := t.(version := TOKEN_VERSION);
    var sign := mac(t1.(sign := []));
    if sign.None? then (RESULT_GENERAL_ERROR, t1) else (RESULT_SUCCESS, t1.(sign := sign.value))
  }

  /** UserAuthTokenVerify. */
  function UserVerify(t: UserAuthToken, now: u64, mac: Mac<UserAuthToken>): ResultCode {
    if !IsTimeValid(t.time, now) then RESULT_TOKEN_TIMEOUT
    else
      var sign := mac(t.(sign := []));
      if sign.None? then RESULT_GENERAL_ERROR else if sign.value != t.sign then RESULT_BAD_SIGN else RESULT_SUCCESS
  }

  predicate StillEnrolled(c: Context, db: Db) {
    HasUser(db, c.userId) && IsEnrolled(UserOf(db, c.userId).enrolled, c.authType)
  }

  /** What GetTokenDataAndSign fills in; the context id of the token is whatever the caller's buffer held. */
  function UserTokenData(c: Context, db: Db, out: UserAuthToken, signTime: u64): UserAuthToken
    requires StillEnrolled(c, db)
  {
    var es := UserOf(db, c.userId).enrolled;
    out.(authResult := 0, userId := c.userId, authTrustLevel := c.authTrustLevel, authType := c.authType,
         enrolledId := es[FirstIndex(es, EnrolledHasType(c.authType))].enrolledId, challenge := c.challenge,
         time := signTime)
  }

  /** GetTokenDataAndSign; a token that could not be made is zeroed. */
  function UserTokenOf(c: Context, db: Db, out: UserAuthToken, env: ResultEnv): (ResultCode, UserAuthToken) {
    if !StillEnrolled(c, db) then (RESULT_NOT_FOUND, BLANK_TOKEN)
    else
      var (r, t) := UserSign(UserTokenData(c, db, out, env.signTime), env.userMac);
      if r == RESULT_SUCCESS then (r, t) else (r, BLANK_TOKEN)
  }

  /** The schedule of the token is taken off the context: the result and the ids of the schedules left. */
  function Take(ss: seq<CoAuthSchedule>, scheduleId: u64, idsMalloced: bool): (ResultCode, seq<u64>) {
    var left := RemoveFirst(ss, HasScheduleId(scheduleId));
    if FirstIndex(ss, HasScheduleId(scheduleId)) == |ss| then (RESULT_NOT_FOUND, [])
    else if |left| > 0 && !idsMalloced then (RESULT_NO_MEMORY, [])
    else (RESULT_SUCCESS, IdsOf(left))
  }

  /** What becomes of a live context given a verified token: a result, a user token and the schedules left. */
  function Conclude(c: Context, db: Db, token: ScheduleToken, out: UserAuthToken, env: ResultEnv)
    : (ResultCode, UserAuthToken, seq<u64>)
  {
    var (taken, left) := Take(c.schedules, token.scheduleId, env.idsMalloced);
    if taken != RESULT_SUCCESS then (taken, out, [])
    else if token.scheduleResult != 0 then (RESULT_SUCCESS, out.(authResult := token.scheduleResult), left)
    else
      var (r, t) := UserTokenOf(c, db, out, env);
      (r, t, if r == RESULT_SUCCESS then left else [])
  }

  /** The user a live context given a verified token looks up. */
  function ConcludeLookup(c: Context, token: ScheduleToken, env: ResultEnv): Option<i32> {
    if token.scheduleResult == 0 && Take(c.schedules, token.scheduleId, env.idsMalloced).0 == RESULT_SUCCESS
    then Some(c.userId) else None
  }

  function ResultLookup(cs: Option<seq<Context>>, contextId: u64, token: ScheduleToken, env: ResultEnv): Option<i32> {
    if TokenVerify(token, env.now, env.mac) == RESULT_SUCCESS && IsLive(cs, contextId)
    then ConcludeLookup(ContextOf(cs, contextId), token, env) else None
  }

  /** RequestAuthResultFunc: a verified token ends the context it is presented for, whether or not it matches. */
  function RequestAuthResult(cs: Option<seq<Context>>, db: Db, contextId: u64, token: ScheduleToken, out: UserAuthToken,
                             env: ResultEnv): (ResultCode, Option<seq<Context>>, UserAuthToken, seq<u64>) {
    if TokenVerify(token, env.now, env.mac) != RESULT_SUCCESS then (RESULT_BAD_SIGN, cs, out, [])
    else if !IsLive(cs, contextId) then (RESULT_UNKNOWN, cs, out, [])
    else
      var (r, t, ids) := Conclude(ContextOf(cs, contextId), db, token, out, env);
      (r, Destroy(cs, contextId), t, ids)
  }

  /** CancelContextFunc. */
  function Cancel(cs: Option<seq<Context>>, contextId: u64, idsMalloced: bool)
    : (ResultCode, Option<seq<Context>>, seq<u64>) {
    if !IsLive(cs, contextId) then (RESULT_NOT_FOUND, cs, [])
    else
      var ss := ContextOf(cs, contextId).schedules;
      if |ss| > 0 && !idsMalloced then (RESULT_NO_MEMORY, Destroy(cs, contextId), [])
      else (RESULT_SUCCESS, Destroy(cs, contextId), IdsOf(ss))
  }

  // ----- what every reachable list of contexts satisfies -----------------------------------------

  predicate OtherContext(a: Context, b: Context) {
    a.contextId != b.contextId
  }

  predicate UniqueIds(cs: seq<Context>) {
    forall i, j :: 0 <= i < j < |cs| ==> OtherContext(cs[i], cs[j])
  }

  /** Context ids are unique, and each context waits for exactly one schedule, made for it. */
  predicate ContextsOk(cs: seq<Context>) {
    && UniqueIds(cs)
    && (forall k :: 0 <= k < |cs| ==> |cs[k].schedules| == 1 && cs[k].schedules[0].associateId == cs[k].contextId)
  }

  /** The context is for the user, challenge, type and trust level of the request. */
  predicate IsRequested(c: Context, p: AuthSolution) {
    && c.contextId == p.contextId && c.userId == p.userId && c.challenge == p.challenge && c.authType == p.authType
    && c.authTrustLevel == p.authTrustLevel
  }

  /** The schedule was made for the request: for its context, with all the executors of its type, and with the template
      of the user's first credential of that type. */
  ghost predicate MadeFor(s: CoAuthSchedule, ss: Option<seq<CoAuthSchedule>>, pool: Option<seq<ExecutorInfo>>, db: Db,
                          p: AuthSolution) {
    && ss.Some? && s.scheduleId !in ScheduleIds(ss.value) && ScheduleOk(s)
    && s.scheduleMode == SCHEDULE_MODE_AUTH && s.associateId == p.contextId && s.authSubType == 0
    && pool.Some? && (forall e :: e in s.executors <==> e in pool.value && e.authType == p.authType)
    && exists c :: AuthLevel.FirstOfType(db, p.userId, p.authType, c) && s.templateId == c.templateId
  }

  lemma QueriedIsFirst(db: Db, userId: i32, t: u32, out: CredentialInfo)
    requires QueryCredentialInfo(db, userId, t, out).0 == RESULT_SUCCESS
    ensures AuthLevel.FirstOfType(db, userId, t, QueryCredentialInfo(db, userId, t, out).1)
  {
    var users, i := db.users.value, FindUser(db.users.value, userId);
    var k := FirstIndex(users[i].credentials, CredentialHasType(t));
    assert forall j :: 0 <= j < i ==> !UserHasId(userId)(users[j]);
    assert forall j :: 0 <= j < k ==> !CredentialHasType(t)(users[i].credentials[j]);
  }

  lemma CreateScheduleFor(ss: Option<seq<CoAuthSchedule>>, pool: Option<seq<ExecutorInfo>>, db: Db, p: AuthSolution,
                          env: ContextEnv)
    ensures var (s, ss1) := CreateSchedule(ss, pool, db, p, env);
            s.Some? ==> MadeFor(s.value, ss, pool, db, p) && ss1 == Some([s.value] + ss.value)
  {
    var (r, c) := QueryCredentialInfo(db, p.userId, p.authType, CredentialInfo(0, 0, 0, 0, 0));
    if CreateSchedule(ss, pool, db, p, env).0.Some? {
      QueriedIsFirst(db, p.userId, p.authType, CredentialInfo(0, 0, 0, 0, 0));
      GenerateOk(ss, pool, p.authType, AuthBlank(p.contextId, DEFAULT_TYPE, c.templateId), env.generate);
    }
  }

  lemma GenerateContextOk(cs: Option<seq<Context>>, ss: Option<seq<CoAuthSchedule>>, pool: Option<seq<ExecutorInfo>>,
                          db: Db, p: AuthSolution, env: ContextEnv)
    requires cs.Some? ==> ContextsOk(cs.value)
    ensures var (c, cs1, ss1) := GenerateContext(cs, ss, pool, db, p, env);
            && (cs1.Some? <==> cs.Some?) && (cs1.Some? ==> ContextsOk(cs1.value))
            && (c.None? ==> cs1 == cs)
            && (c.Some? ==> Admitted(cs, pool, db, p) && cs1 == Some([c.value] + cs.value)
                            && IsRequested(c.value, p) && |c.value.schedules| == 1
                            && MadeFor(c.value.schedules[0], ss, pool, db, p)
                            && ss1 == Some(c.value.schedules + ss.value))
  {
    var (c, cs1, ss1) := GenerateContext(cs, ss, pool, db, p, env);
    if c.Some? {
      CreateScheduleFor(ss, pool, db, p, env);
      forall k | 0 <= k < |cs.value| ensures OtherContext(c.value, cs.value[k]) {
        assert !HasContextId(p.contextId)(cs.value[k]);
      }
    }
  }

  /** The schedule GenerateContext would add, when the user has a credential of the type. */
  function SolutionSchedule(ss: Option<seq<CoAuthSchedule>>, pool: Option<seq<ExecutorInfo>>, db: Db, p: AuthSolution,
                            env: ContextEnv): Option<CoAuthSchedule> {
    var (_, credential) := QueryCredentialInfo(db, p.userId, p.authType, CredentialInfo(0, 0, 0, 0, 0));
    Generate(ss, pool, p.authType, AuthBlank(p.contextId, DEFAULT_TYPE, credential.templateId), env.generate)
  }

  /** Everything up to the schedule works. */
  predicate ScheduleAdded(cs: Option<seq<Context>>, ss: Option<seq<CoAuthSchedule>>, pool: Option<seq<ExecutorInfo>>,
                          db: Db, p: AuthSolution, env: ContextEnv) {
    && Admitted(cs, pool, db, p) && env.malloced && env.listCreated
    && SolutionSchedule(ss, pool, db, p, env).Some? && Insertable(ss, env.add)
  }

  /** Memory and room for the context itself. */
  predicate ContextInsertable(cs: seq<Context>, env: ContextEnv) {
    env.scheduleInserted && env.contextInserted && |cs| < LinkedLists.UINT32_MAX
  }

  lemma CreateScheduleIff(ss: Option<seq<CoAuthSchedule>>, pool: Option<seq<ExecutorInfo>>, db: Db, p: AuthSolution,
                          env: ContextEnv)
    ensures var (s, ss1) := CreateSchedule(ss, pool, db, p, env);
            var made := QueryCredentialInfo(db, p.userId, p.authType, CredentialInfo(0, 0, 0, 0, 0)).0 == RESULT_SUCCESS
                        && SolutionSchedule(ss, pool, db, p, env).Some? && Insertable(ss, env.add);
            (s.Some? <==> made) && (ss1 != ss <==> made)
  {
    var s := SolutionSchedule(ss, pool, db, p, env);
    if s.Some? {
      AddIff(ss, s.value, env.add);
    }
  }

  /** GenerateContext fails and leaves its schedule behind exactly when all works but inserting the context;
      GenerateSolutionFunc does so too without memory for the ids. */
  lemma OrphanScheduleIff(cs: Option<seq<Context>>, ss: Option<seq<CoAuthSchedule>>, pool: Option<seq<ExecutorInfo>>,
                          db: Db, p: AuthSolution, env: ContextEnv)
    ensures var (c, _, ss1) := GenerateContext(cs, ss, pool, db, p, env);
            c.None? && ss1 != ss <==> ScheduleAdded(cs, ss, pool, db, p, env) && !ContextInsertable(cs.value, env)
    ensures var (r, cs1, ss1, _) := GenerateSolution(cs, ss, pool, db, p, env);
            r != RESULT_SUCCESS && ss1 != ss <==>
            ScheduleAdded(cs, ss, pool, db, p, env) && !(ContextInsertable(cs.value, env) && env.idsMalloced)
  {
    CreateScheduleIff(ss, pool, db, p, env);
    if Admitted(cs, pool, db, p) {
      AdmittedHasCredential(cs, pool, db, p);
    }
  }

  /** The trust level of user and type is v. */
  ghost predicate HasTrust(pool: seq<ExecutorInfo>, db: Db, userId: i32, t: u32, v: u32) {
    && (exists e :: e in pool && e.authType == t)
    && (exists c :: AuthLevel.FirstOfType(db, userId, t, c) && AuthLevel.IsHighest(v, pool, t, c.capabilityLevel))
  }

  /** A request is admitted exactly if no context has its id and the executors and the user's first credential of the
      type reach a trust level no lower than it asks for. */
  lemma AdmittedIff(cs: seq<Context>, pool: seq<ExecutorInfo>, db: Db, p: AuthSolution)
    ensures Admitted(Some(cs), Some(pool), db, p) <==>
            && (forall c :: c in cs ==> c.contextId != p.contextId)
            && (exists v: u32 :: HasTrust(pool, db, p.userId, p.authType, v) && v >= p.authTrustLevel)
  {
    LiveIff(cs, p.contextId);
    var atl := AuthLevel.TrustLevel(Some(pool), db, p.userId, p.authType);
    forall v: u32 ensures HasTrust(pool, db, p.userId, p.authType, v) <==> atl == Some(v) {
      AuthLevel.TrustLevelIs(pool, db, p.userId, p.authType, v);
    }
  }

  /** A context is generated exactly for an admitted request, with an executor schedule, memory and room. */
  lemma GeneratedIff(cs: Option<seq<Context>>, ss: Option<seq<CoAuthSchedule>>, pool: Option<seq<ExecutorInfo>>, db: Db,
                     p: AuthSolution, env: ContextEnv)
    ensures GenerateContext(cs, ss, pool, db, p, env).0.Some? <==>
            ScheduleAdded(cs, ss, pool, db, p, env) && ContextInsertable(cs.value, env)
  {
    CreateScheduleIff(ss, pool, db, p, env);
    if Admitted(cs, pool, db, p) {
      AdmittedHasCredential(cs, pool, db, p);
    }
  }

  lemma AdmittedHasCredential(cs: Option<seq<Context>>, pool: Option<seq<ExecutorInfo>>, db: Db, p: AuthSolution)
    requires Admitted(cs, pool, db, p)
    ensures QueryCredentialInfo(db, p.userId, p.authType, CredentialInfo(0, 0, 0, 0, 0)).0 == RESULT_SUCCESS
  {}

  /** Such a context: everything in place but the memory to insert it. */
  lemma OrphanSchedule(e: ExecutorInfo, c: CredentialInfo, env: ContextEnv)
    requires e.authType == c.authType == PIN_AUTH && e.esl == 2 && c.capabilityLevel == 3
    requires env.malloced && env.listCreated && env.generate.malloced && env.generate.draws[0] == Some(5)
    requires env.add.copied && env.add.inserted && env.scheduleInserted && !env.contextInserted
    ensures var db := Db(Some([User(100, 7, [c], [EnrolledInfo(PIN_AUTH, 8)])]), None);
            var (context, cs, ss) := GenerateContext(Some([]), Some([]), Some([e]), db,
                                                     AuthSolution(9, 100, 1, PIN_AUTH, 10000), env);
            && context == None && cs == Some([])
            && ss == Some([CoAuthSchedule(5, SCHEDULE_MODE_AUTH, 9, c.templateId, DEFAULT_TYPE, [e])])
  {
    var db := Db(Some([User(100, 7, [c], [EnrolledInfo(PIN_AUTH, 8)])]), None);
    var s := CoAuthSchedule(5, SCHEDULE_MODE_AUTH, 9, c.templateId, DEFAULT_TYPE, [e]);
    OneCredential(db, c);
    TrustOfOne(e, c, db);
    OneExecutor(e);
    assert [s] + [] == [s];
    assert FirstFresh(env.generate.draws, ScheduleIds([])) == Some(5);
  }

  lemma OneCredential(db: Db, c: CredentialInfo)
    requires db == Db(Some([User(100, 7, [c], [EnrolledInfo(PIN_AUTH, 8)])]), None) && c.authType == PIN_AUTH
    ensures QueryCredentialInfo(db, 100, PIN_AUTH, CredentialInfo(0, 0, 0, 0, 0)) == (RESULT_SUCCESS, c)
    ensures AuthLevel.Acl(db, 100, PIN_AUTH) == Some(c.capabilityLevel)
  {
    var u := User(100, 7, [c], [EnrolledInfo(PIN_AUTH, 8)]);
    assert UserHasId(100)(u) && UserOf(db, 100) == u;
    assert CredentialHasType(PIN_AUTH)(c);
  }

  lemma TrustOfOne(e: ExecutorInfo, c: CredentialInfo, db: Db)
    requires e.esl == 2 && c.capabilityLevel == 3 && e.authType == PIN_AUTH
             && AuthLevel.Acl(db, 100, PIN_AUTH) == Some(3)
    ensures AuthLevel.TrustLevel(Some([e]), db, 100, PIN_AUTH) == Some(40000)
  {
    assert |[e][1..]| == 0;
    assert OfAuthType([e], PIN_AUTH) == [e];
    assert AuthLevel.WeakestEsl([e]) == AuthLevel.Min(AuthLevel.WeakestEsl([e][1..]), 2) == 2;
    assert AuthLevel.Satisfied(AuthLevel.GENERATION_ATL[0], 2, 3);
  }

  /** Destroying a context leaves the others and none with its id. */
  lemma DestroyOk(cs: seq<Context>, id: u64)
    requires ContextsOk(cs)
    ensures var r := RemoveFirst(cs, HasContextId(id));
            && ContextsOk(r) && |r| <= |cs| && FindContext(r, id) == |r|
            && (forall c :: c in r <==> c in cs && c.contextId != id)
  {
    var p, r := HasContextId(id), RemoveFirst(cs, HasContextId(id));
    RemoveKeepsPairwise(cs, p, OtherContext);
    forall i, j | 0 <= i < j < |cs| ensures !(p(cs[i]) && p(cs[j])) {
      assert OtherContext(cs[i], cs[j]);
    }
    forall c ensures c in r <==> c in cs && !p(c) {
      RemoveOnly(cs, p, c);
    }
    forall k | 0 <= k < |r| ensures !p(r[k]) {
      assert r[k] in r;
    }
    FirstIndexUnique(r, p, |r|);
  }

  /** The first verified token presented for a live context ends it, matching or not; nothing else is ended. */
  lemma VerifiedTokenEnds(cs: seq<Context>, db: Db, contextId: u64, token: ScheduleToken, out: UserAuthToken,
                          env: ResultEnv)
    requires ContextsOk(cs)
    ensures var (r, cs1, _, _) := RequestAuthResult(Some(cs), db, contextId, token, out, env);
            && (r == RESULT_BAD_SIGN <==> TokenVerify(token, env.now, env.mac) != RESULT_SUCCESS)
            && (r == RESULT_UNKNOWN <==>
                TokenVerify(token, env.now, env.mac) == RESULT_SUCCESS && !IsLive(Some(cs), contextId))
            && cs1.Some? && ContextsOk(cs1.value)
            && (IsLive(cs1, contextId) <==>
                  IsLive(Some(cs), contextId) && TokenVerify(token, env.now, env.mac) != RESULT_SUCCESS)
            && (forall c :: c in cs1.value ==> c in cs)
            && (forall c :: c in cs && c.contextId != contextId ==> c in cs1.value)
  {
    DestroyOk(cs, contextId);
  }

  /** The context is live and waits for the schedule of the token, which verifies. */
  predicate Awaited(cs: seq<Context>, contextId: u64, token: ScheduleToken, env: ResultEnv) {
    && TokenVerify(token, env.now, env.mac) == RESULT_SUCCESS && IsLive(Some(cs), contextId)
    && |ContextOf(Some(cs), contextId).schedules| > 0
    && ContextOf(Some(cs), contextId).schedules[0].scheduleId == token.scheduleId
  }

  /** The user is known and has an entry of the type. */
  lemma StillEnrolledIff(c: Context, db: Db)
    ensures StillEnrolled(c, db) <==>
            && HasUser(db, c.userId)
            && exists e :: e in UserOf(db, c.userId).enrolled && e.authType == c.authType
  {
    if HasUser(db, c.userId) {
      IsEnrolledIn(UserOf(db, c.userId).enrolled, c.authType);
    }
  }

  /** For a success token a user token is signed exactly when the token verifies and is for the schedule the live
      context waits for, the user is still enrolled with the type, and a MAC of the token is at hand; no schedule is
      left then. */
  lemma UserTokenIff(cs: seq<Context>, db: Db, contextId: u64, token: ScheduleToken, out: UserAuthToken, env: ResultEnv)
    requires ContextsOk(cs) && token.scheduleResult == 0
    ensures var (r, _, t, ids) := RequestAuthResult(Some(cs), db, contextId, token, out, env);
            && (r == RESULT_SUCCESS <==>
                && Awaited(cs, contextId, token, env) && StillEnrolled(ContextOf(Some(cs), contextId), db)
                && env.userMac(UserTokenData(ContextOf(Some(cs), contextId), db, out, env.signTime)
                               .(version := TOKEN_VERSION, sign := [])).Some?)
            && ids == []
            && (r != RESULT_SUCCESS ==> t == if Awaited(cs, contextId, token, env) then BLANK_TOKEN else out)
  {
    if IsLive(Some(cs), contextId) {
      TakeOne(ContextOf(Some(cs), contextId), token.scheduleId, env.idsMalloced);
    }
  }

  /** What a signed user token claims: the user, type, trust level and challenge of the context, the enrolled id the
      user has for the type, and success; it verifies for ten minutes from its time. */
  lemma UserTokenClaims(cs: seq<Context>, db: Db, contextId: u64, token: ScheduleToken, out: UserAuthToken,
                        env: ResultEnv)
    requires ContextsOk(cs) && token.scheduleResult == 0
    requires RequestAuthResult(Some(cs), db, contextId, token, out, env).0 == RESULT_SUCCESS
    ensures IsLive(Some(cs), contextId)
    ensures var c, t := ContextOf(Some(cs), contextId), RequestAuthResult(Some(cs), db, contextId, token, out, env).2;
            && t.userId == c.userId && t.authType == c.authType && t.authTrustLevel == c.authTrustLevel
            && t.challenge == c.challenge && t.authResult == 0 && t.time == env.signTime && t.version == 0
            && t.contextId == out.contextId
            && HasUser(db, c.userId) && EnrolledInfo(c.authType, t.enrolledId) in UserOf(db, c.userId).enrolled
            && (forall now: u64 :: UserVerify(t, now, env.userMac) == RESULT_SUCCESS <==>
                  env.signTime <= now <= env.signTime + 600_000)
  {
    UserTokenIff(cs, db, contextId, token, out, env);
    TakeOne(ContextOf(Some(cs), contextId), token.scheduleId, env.idsMalloced);
    UserTokenVerifies(ContextOf(Some(cs), contextId), db, out, env);
  }

  lemma UserTokenVerifies(c: Context, db: Db, out: UserAuthToken, env: ResultEnv)
    requires UserTokenOf(c, db, out, env).0 == RESULT_SUCCESS
    ensures var t := UserTokenOf(c, db, out, env).1;
            && t.(version := out.version, sign := out.sign) == UserTokenData(c, db, out, env.signTime)
            && EnrolledInfo(c.authType, t.enrolledId) in UserOf(db, c.userId).enrolled
            && forall now: u64 :: UserVerify(t, now, env.userMac) == RESULT_SUCCESS <==> IsTimeValid(env.signTime, now)
  {
    var es := UserOf(db, c.userId).enrolled;
    assert es[FirstIndex(es, EnrolledHasType(c.authType))] in es;
    var t := UserTokenOf(c, db, out, env).1;
    assert t.(sign := []) == UserTokenData(c, db, out, env.signTime).(version := TOKEN_VERSION, sign := []);
  }

  /** For a failure token the failure is handed on, under the same conditions on token and context. */
  lemma FailureTokenIff(cs: seq<Context>, db: Db, contextId: u64, token: ScheduleToken, out: UserAuthToken,
                        env: ResultEnv)
    requires ContextsOk(cs) && token.scheduleResult != 0
    ensures var (r, _, t, ids) := RequestAuthResult(Some(cs), db, contextId, token, out, env);
            && (r == RESULT_SUCCESS <==> Awaited(cs, contextId, token, env))
            && (r == RESULT_SUCCESS ==> ids == [] && t == out.(authResult := token.scheduleResult))
  {
    if IsLive(Some(cs), contextId) {
      TakeOne(ContextOf(Some(cs), contextId), token.scheduleId, env.idsMalloced);
    }
  }

  /** A context with one schedule: taking that one leaves none, any other is not found. */
  lemma TakeOne(c: Context, scheduleId: u64, idsMalloced: bool)
    requires |c.schedules| == 1
    ensures Take(c.schedules, scheduleId, idsMalloced) ==
            if c.schedules[0].scheduleId == scheduleId then (RESULT_SUCCESS, []) else (RESULT_NOT_FOUND, [])
  {
    var p := HasScheduleId(scheduleId);
    assert |c.schedules[1..]| == 0;
    assert FirstIndex(c.schedules, p) == if p(c.schedules[0]) then 0 else 1;
    assert p(c.schedules[0]) ==> RemoveFirst(c.schedules, p) == c.schedules[1..];
  }

  // ----- the ids handed back ---------------------------------------------------------------------

  /** On success the caller gets the id of the one schedule of the new context, which is live; otherwise no id. */
  lemma SolutionIds(cs: Option<seq<Context>>, ss: Option<seq<CoAuthSchedule>>, pool: Option<seq<ExecutorInfo>>, db: Db,
                    p: AuthSolution, env: ContextEnv)
    requires cs.Some? ==> ContextsOk(cs.value)
    ensures var (r, cs1, ss1, ids) := GenerateSolution(cs, ss, pool, db, p, env);
            && (r == RESULT_SUCCESS ==>
                  && cs.Some? && cs1.Some? && |cs1.value| > 0 && cs1.value[1..] == cs.value
                  && IsRequested(cs1.value[0], p) && |cs1.value[0].schedules| == 1
                  && ids == [cs1.value[0].schedules[0].scheduleId]
                  && ss1.Some? && cs1.value[0].schedules[0] in ss1.value)
            && (r != RESULT_SUCCESS ==> ids == [] && cs1 == cs)
  {
    var (c, mid, ss1) := GenerateContext(cs, ss, pool, db, p, env);
    GenerateContextOk(cs, ss, pool, db, p, env);
    if c.Some? {
      OneId(c.value);
      NewestDestroyed(c.value, cs.value);
    }
  }

  lemma OneId(c: Context)
    requires |c.schedules| == 1
    ensures IdsOf(c.schedules) == [c.schedules[0].scheduleId]
  {
    assert |c.schedules[1..]| == 0;
  }

  lemma NewestDestroyed(c: Context, cs: seq<Context>)
    ensures Destroy(Some([c] + cs), c.contextId) == Some(cs) && ([c] + cs)[1..] == cs
  {
    var all := [c] + cs;
    assert HasContextId(c.contextId)(all[0]) && all[1..] == cs;
    assert RemoveFirst(all, HasContextId(c.contextId)) == all[1..];
  }

  /** A live context is cancelled, whether or not there is memory for the id of its schedule, which is handed back on
      success; no other context is touched. */
  lemma CancelMeans(cs: seq<Context>, contextId: u64, idsMalloced: bool)
    requires ContextsOk(cs)
    ensures var (r, cs1, ids) := Cancel(Some(cs), contextId, idsMalloced);
            && (r == RESULT_SUCCESS <==> idsMalloced && exists c :: c in cs && c.contextId == contextId)
            && (r == RESULT_NOT_FOUND <==> forall c :: c in cs ==> c.contextId != contextId)
            && (r == RESULT_SUCCESS || r == RESULT_NOT_FOUND || r == RESULT_NO_MEMORY)
            && (r == RESULT_SUCCESS ==>
                  exists c :: c in cs && c.contextId == contextId && ids == [c.schedules[0].scheduleId])
            && (r != RESULT_SUCCESS ==> ids == [])
            && cs1.Some? && ContextsOk(cs1.value)
            && (forall c :: c in cs1.value <==> c in cs && c.contextId != contextId)
  {
    LiveIff(cs, contextId);
    DestroyOk(cs, contextId);
    if IsLive(Some(cs), contextId) {
      var c := ContextOf(Some(cs), contextId);
      assert HasContextId(contextId)(c) && c in cs;
      OneId(c);
    }
  }

  lemma LiveIff(cs: seq<Context>, id: u64)
    ensures IsLive(Some(cs), id) <==> exists c :: c in cs && c.contextId == id
  {
    FirstIndexIn(cs, HasContextId(id));
    if c :| c in cs && c.contextId == id {
      assert HasContextId(id)(c);
    }
  }
}
