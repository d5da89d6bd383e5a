/** The state behind the HAL calls and what each call does to it. Every call holds the global lock, so a run
    is a sequence of calls. */
module HalState {
  import opened Base
  import opened IdmCommon
  import opened IdmSession
  import opened Pool
  import opened CoAuth
  import opened ContextSpec
  import opened UserIdmSpec
  import opened DatabaseSpec
  import opened FileManager
  import FileLoader
  import AuthLevel
  import DatabaseRuns

  /** A user of the list that was there when so many had been dropped or replaced. */
  datatype CachedUser = CachedUser(list: nat, userId: i32)

  /** lists counts the lists that were dropped or replaced; cached is g_currentUser. */
  datatype Hal = Hal(pool: Option<seq<ExecutorInfo>>, schedules: Option<seq<CoAuthSchedule>>,
                     contexts: Option<seq<Context>>, session: Option<SessionInfo>, db: Db, lists: nat,
                     cached: Option<CachedUser>)

  /** The process starts with nothing initialised and no file. */
  const START := Hal(None, None, None, None, Db(None, None), 0, None)

  datatype Call =
    | Restart  // the process ends and starts anew; only the file stays
    | Init
    | Close
    | ExecutorRegister(e: ExecutorInfo, registerEnv: RegisterEnv)
    | ExecutorUnRegister(executorId: u64)
    | OpenSession(userId: i32, openEnv: OpenEnv)
    | CloseSession
    | InitSchedulation(param: PermissionParam, enrollEnv: EnrollEnv)
    | CancelSchedule
    | GetScheduleToken(scheduleId: u64, msg: seq<byte>, finishEnv: FinishEnv)
    | DeleteScheduleInfo(scheduleId: u64)
    | AddCredentialCall(token: ScheduleToken, check: TokenEnv, addEnv: AddEnv)
    | UpdateCredentialCall(token: ScheduleToken, check: TokenEnv, saveEnv: SaveEnv, addEnv: AddEnv, now: u64)
    | DeleteCredentialCall(userId: i32, credentialId: u64, userToken: UserAuthToken, deleteCheck: UserTokenEnv,
                           saveEnv: SaveEnv)
    | DeleteUserEnforce(userId: i32, malloced: bool, saveEnv: SaveEnv, now: u64)
    | SolutionCall(solution: AuthSolution, contextEnv: ContextEnv)
    | RequestResult(contextId: u64, token: ScheduleToken, out: UserAuthToken, resultEnv: ResultEnv)
    | CancelContext(contextId: u64, malloced: bool)
    | GetSecureUid(userId: i32)
    | QueryCredential(userId: i32, authType: u32)
    | GetAuthTrustLevel(userId: i32, authType: u32)

  /** The token a schedule is finished with: its id and zeros. */
  function BlankToken(id: u64): ScheduleToken {
    ScheduleToken(0, id, 0, 0, 0, 0, 0, 0, 0, [])
  }

  function OrEmpty<T>(list: Option<seq<T>>): Option<seq<T>> {
    if list.None? then Some([]) else list
  }

  function Started(h: Hal): Hal {
    var users := FileLoader.Load(h.db.file);
    if users.None? then Closed(h)
    else h.(pool := OrEmpty(h.pool), schedules := OrEmpty(h.schedules), contexts := OrEmpty(h.contexts),
            db := Db(users, h.db.file))
  }

  /** Close leaves the session alone. */
  function Closed(h: Hal): Hal {
    h.(pool := None, schedules := None, contexts := None, db := h.db.(users := None))
  }

  function Update(h: Hal, c: Call): (ResultCode, Db)
    requires c.UpdateCredentialCall?
  {
    var (r, db, _, _) := UpdateCredential(h.session, h.db, c.token, DatabaseRuns.NO_CREDENTIAL, c.check, c.saveEnv,
                                          c.addEnv);
    (r, db)
  }

  function DeleteUser(h: Hal, c: Call): (ResultCode, Db)
    requires c.DeleteUserEnforce?
  {
    var (r, db, _) := DeleteUserInfo(h.db, c.userId, c.malloced, c.saveEnv);
    (r, db)
  }

  /** What a call does to everything but the cache. */
  function Effect(h: Hal, c: Call): Hal {
    match c
    case Restart => START.(db := Db(None, h.db.file))
    case Init => Started(h)
    case Close => Closed(h)
    case ExecutorRegister(e, env) => if h.pool.None? then h else h.(pool := Some(Register(h.pool.value, e, env).1))
    case ExecutorUnRegister(id) => if h.pool.None? then h else h.(pool := Some(Unregister(h.pool.value, id)))
    case OpenSession(userId, env) => h.(session := Open(userId, env))
    case CloseSession => h.(session := None)
    case InitSchedulation(p, env) =>
      var (_, session, ss, _) := Enroll(h.session, h.schedules, h.pool, h.db, p, env);
      h.(session := session, schedules := ss)
    case CancelSchedule => h.(session := BreakOff(h.session))
    case GetScheduleToken(id, msg, env) =>
      h.(schedules := if msg == [] then Remove(h.schedules, id)
         else ScheduleFinish(h.schedules, msg, BlankToken(id), env).1)
    case DeleteScheduleInfo(id) => h.(schedules := Remove(h.schedules, id))
    case AddCredentialCall(t, check, env) => h.(db := AddCredential(h.session, h.db, t, check, env).1)
    case UpdateCredentialCall(_, _, _, _, now) =>
      var (r, db) := Update(h, c);
      h.(db := db, session := if r == RESULT_SUCCESS then Refresh(h.session, now) else h.session)
    case DeleteCredentialCall(userId, id, t, check, env) =>
      h.(db := DeleteCredential(h.session, h.db, userId, id, t, DatabaseRuns.NO_CREDENTIAL, check, env).1)
    case DeleteUserEnforce(_, _, _, now) =>
      var (r, db) := DeleteUser(h, c);
      h.(db := db, session := if r == RESULT_SUCCESS then Refresh(h.session, now) else h.session)
    case SolutionCall(p, env) =>
      var (_, cs, ss, _) := GenerateSolution(h.contexts, h.schedules, h.pool, h.db, p, env);
      h.(contexts := cs, schedules := ss)
    case RequestResult(id, t, out, env) => h.(contexts := RequestAuthResult(h.contexts, h.db, id, t, out, env).1)
    case CancelContext(id, malloced) => h.(contexts := Cancel(h.contexts, id, malloced).1)
    case GetSecureUid(_) => h
    case QueryCredential(_, _) => h
    case GetAuthTrustLevel(_, _) => h
  }

  // ----- the cached user -------------------------------------------------------------------------

  /** The user the call looks up, if it comes to a lookup. */
  function LookedUp(h: Hal, c: Call): Option<i32> {
    match c
    case InitSchedulation(p, _) => PermissionLookup(p)
    case AddCredentialCall(t, check, _) => TokenLookup(h.session, t, check)
    case UpdateCredentialCall(t, check, _, _, _) => UpdateLookup(h.session, t, check)
    case DeleteCredentialCall(userId, _, t, check, _) => DeleteLookup(h.session, userId, t, check)
    case DeleteUserEnforce(userId, _, _, _) => Some(userId)
    case SolutionCall(p, _) => SolutionLookup(h.contexts, h.pool, p)
    case RequestResult(id, t, _, env) => ResultLookup(h.contexts, id, t, env)
    case GetSecureUid(userId) => Some(userId)
    case QueryCredential(userId, authType) => QueryLookup(userId, authType)
    case GetAuthTrustLevel(userId, authType) => AuthLevel.TrustLookup(h.pool, userId, authType)
    case _ => None
  }

  /** The user a walk through the list finds. */
  function Walk(h: Hal, id: i32): Option<CachedUser> {
    if HasUser(h.db, id) then Some(CachedUser(h.lists, id)) else None
  }

  /** What QueryUserInfo returns: the cached user if it has the id, else the one a walk finds. */
  function ThroughCache(h: Hal, id: i32): Option<CachedUser> {
    if h.cached.Some? && h.cached.value.userId == id then h.cached else Walk(h, id)
  }

  /** The call drops the list or loads another; the cache is left alone. */
  predicate EndsList(c: Call) {
    c.Init? || c.Close?
  }

  /** The process ends, or a user is deleted: the cache is emptied. */
  predicate Forgets(h: Hal, c: Call) {
    || c.Restart?
    || (c.DeleteUserEnforce? && HasUser(h.db, c.userId) && |UserOf(h.db, c.userId).credentials| > 0 && c.malloced)
  }

  function CacheAfter(h: Hal, c: Call): Option<CachedUser> {
    var id := LookedUp(h, c);
    if Forgets(h, c) then None
    else if id.None? || ThroughCache(h, id.value).None? then h.cached
    else ThroughCache(h, id.value)
  }

  function ListsAfter(h: Hal, c: Call): nat {
    if c.Restart? then 0 else if EndsList(c) then h.lists + 1 else h.lists
  }

  function Step(h: Hal, c: Call): Hal {
    Effect(h, c).(lists := ListsAfter(h, c), cached := CacheAfter(h, c))
  }

  /** Init and Close meet an empty cache. Otherwise the code goes on to read a user that was freed, and what it does
      is not modelled. */
  predicate MeetsEmptyCache(h: Hal, c: Call) {
    EndsList(c) ==> h.cached.None?
  }

  predicate EmptyCacheRun(h: Hal, calls: seq<Call>)
    decreases |calls|
  {
    |calls| == 0 || (MeetsEmptyCache(h, calls[0]) && EmptyCacheRun(Step(h, calls[0]), calls[1..]))
  }

  // ----- what happened so far --------------------------------------------------------------------

  /** A schedule that became live for a requested type; user is the session's when it was associated with a session. */
  datatype Generated = Generated(schedule: CoAuthSchedule, user: Option<i32>, authType: u32)

  /** A context that became live, the request for it, and the trust level of its user and type at that time. */
  datatype Solved = Solved(context: Context, request: AuthSolution, atl: u32)

  datatype Issued = Issued(contextId: u64, token: UserAuthToken)

  datatype History = History(generated: seq<Generated>, signed: seq<ScheduleToken>, solved: seq<Solved>,
                             issued: seq<Issued>)

  const NOTHING := History([], [], [], [])

  /** The schedule the call made live, if any. */
  function NewSchedule(h: Hal, c: Call): Option<Generated> {
    match c
    case InitSchedulation(p, env) =>
      var (r, _, ss, _) := Enroll(h.session, h.schedules, h.pool, h.db, p, env);
      var s := EnrollSchedule(h.session, h.schedules, h.pool, p, env);
      if ss == h.schedules || s.None? then None
      else Some(Generated(s.value, if r == RESULT_SUCCESS then Some(h.session.value.userId) else None, p.authType))
    case SolutionCall(p, env) =>
      var ss := GenerateSolution(h.contexts, h.schedules, h.pool, h.db, p, env).2;
      if ss == h.schedules || ss.None? || ss.value == [] then None else Some(Generated(ss.value[0], None, p.authType))
    case _ => None
  }

  /** The token ScheduleFinish signed, if it did. */
  function NewToken(h: Hal, c: Call): Option<ScheduleToken> {
    if !c.GetScheduleToken? then None
    else
      var (r, _, t) := ScheduleFinish(h.schedules, c.msg, BlankToken(c.scheduleId), c.finishEnv);
      if r == RESULT_SUCCESS && t.scheduleResult == 0 then Some(t) else None
  }

  /** The context the call generated, if any. */
  function NewContext(h: Hal, c: Call): Option<Solved> {
    if !c.SolutionCall? then None
    else
      var context := GenerateContext(h.contexts, h.schedules, h.pool, h.db, c.solution, c.contextEnv).0;
      var atl := AuthLevel.TrustLevel(h.pool, h.db, c.solution.userId, c.solution.authType);
      if context.None? || atl.None? then None else Some(Solved(context.value, c.solution, atl.value))
  }

  /** The user token the call issued, if any. */
  function NewUserToken(h: Hal, c: Call): Option<Issued> {
    if !c.RequestResult? then None
    else
      var (r, _, t, _) := RequestAuthResult(h.contexts, h.db, c.contextId, c.token, c.out, c.resultEnv);
      if r == RESULT_SUCCESS && c.token.scheduleResult == 0 then Some(Issued(c.contextId, t)) else None
  }

  function With<T>(s: seq<T>, x: Option<T>): seq<T> {
    if x.None? then s else [x.value] + s
  }

  function Record(h: Hal, log: History, c: Call): History {
    History(With(log.generated, NewSchedule(h, c)), With(log.signed, NewToken(h, c)),
            With(log.solved, NewContext(h, c)), With(log.issued, NewUserToken(h, c)))
  }

  function Run(h: Hal, log: History, calls: seq<Call>): (Hal, History)
    decreases |calls|
  {
    if |calls| == 0 then (h, log) else Run(Step(h, calls[0]), Record(h, log, calls[0]), calls[1..])
  }
}
