/** The context list of context_manager.c and the calls of user_auth_funcs.c, changed in place. */
module Contexts {
  import opened Base
  import opened Pool
  import opened CoAuth
  import opened CoAuthFuncs
  import opened ContextSpec
  import IdmCommon
  import LinkedLists
  import AuthLevel
  import Database
  import DatabaseSpec

  class UserAuthContext {
    const contextId: u64
    const userId: i32
    const challenge: u64
    const authType: u32
    const authTrustLevel: u32
    var scheduleList: seq<CoAuthSchedule>

    ghost function Value(): Context
      reads this
    {
      Context(contextId, userId, challenge, authType, authTrustLevel, scheduleList)
    }

    /** CopyParamToContext, with an empty schedule list. */
    constructor (p: AuthSolution)
      ensures Value() == Context(p.contextId, p.userId, p.challenge, p.authType, p.authTrustLevel, [])
    {
      contextId, userId, challenge := p.contextId, p.userId, p.challenge;
      authType, authTrustLevel, scheduleList := p.authType, p.authTrustLevel, [];
    }

    /** ScheduleOnceFinish. */
    method ScheduleOnceFinish(scheduleId: u64) returns (r: ResultCode)
      modifies this
      ensures scheduleList == RemoveFirst(old(scheduleList), HasScheduleId(scheduleId))
      ensures r == if FirstIndex(old(scheduleList), HasScheduleId(scheduleId)) < |old(scheduleList)| then RESULT_SUCCESS
                   else RESULT_NOT_FOUND
    {
      var i := FindFirst(scheduleList, HasScheduleId(scheduleId));
      RemoveFirstAt(scheduleList, HasScheduleId(scheduleId));
      if i == |scheduleList| {
        return RESULT_NOT_FOUND;
      }
      scheduleList := scheduleList[..i] + scheduleList[i + 1..];
      return RESULT_SUCCESS;
    }

    method GetScheduleIds(malloced: bool) returns (r: ResultCode, ids: seq<u64>)
      ensures r == if |scheduleList| > 0 && !malloced then RESULT_NO_MEMORY else RESULT_SUCCESS
      ensures ids == if r == RESULT_SUCCESS then IdsOf(scheduleList) else []
    {
      ids := [];
      if |scheduleList| == 0 {
        return RESULT_SUCCESS, [];
      }
      if !malloced {
        return RESULT_NO_MEMORY, [];
      }
      assert scheduleList[0..] == scheduleList;
      for index := 0 to |scheduleList|
        invariant ids + IdsOf(scheduleList[index..]) == IdsOf(scheduleList)
      {
        assert scheduleList[index..][1..] == scheduleList[index + 1..];
        ids := ids + [scheduleList[index].scheduleId];
      }
      return RESULT_SUCCESS, ids;
    }
  }

  ghost function Values(contexts: seq<UserAuthContext>): (r: seq<Context>)
    reads contexts
    ensures |r| == |contexts|
  {
    seq(|contexts|, i requires 0 <= i < |contexts| reads contexts => contexts[i].Value())
  }

  class ContextManager {
    var inited: bool  // g_contextList is not NULL
    var contextList: seq<UserAuthContext>
    ghost var contexts: seq<Context>  // what the list stands for

    ghost function Live(): Option<seq<Context>>
      reads this
    {
      if inited then Some(contexts) else None
    }

    ghost predicate Valid()
      reads this, contextList
    {
      && contexts == Values(contextList) && ContextsOk(contexts) && |contextList| <= LinkedLists.UINT32_MAX
      && (!inited ==> contextList == [])
    }

    constructor ()
      ensures Valid() && Live() == None
    {
      inited, contextList, contexts := false, [], [];
    }

    method InitUserAuthContextList() returns (r: ResultCode)
      requires Valid()
      modifies this
      ensures Valid() && r == RESULT_SUCCESS && Live() == if old(Live()).None? then Some([]) else old(Live())
    {
      inited := true;
      return RESULT_SUCCESS;
    }

    method DestoryUserAuthContextList()
      modifies this
      ensures Valid() && Live() == None
    {
      inited, contextList, contexts := false, [], [];
    }

    /** Walks the list for the id. */
    method GetContext(contextId: u64) returns (context: UserAuthContext?)
      requires Valid()
      ensures context == null <==> !IsLive(Live(), contextId)
      ensures context != null ==> var k := FindContext(Values(contextList), contextId);
                                  k < |contextList| && context == contextList[k]
    {
      ghost var values := Values(contextList);
      var index := 0;
      while index < |contextList| && contextList[index].contextId != contextId
        invariant index <= |contextList|
        invariant forall j :: 0 <= j < index ==> !HasContextId(contextId)(values[j])
      {
        assert values[index].contextId == contextList[index].contextId;
        index := index + 1;
      }
      FirstIndexUnique(values, HasContextId(contextId), index);
      return if index < |contextList| then contextList[index] else null;
    }

    /** Where the context is in the list, found by its identity. */
    method Position(context: UserAuthContext) returns (i: nat)
      requires context in contextList
      ensures i < |contextList| && contextList[i] == context
    {
      i := 0;
      while contextList[i] != context
        invariant 0 <= i < |contextList| && context in contextList[i..]
        decreases |contextList| - i
      {
        i := i + 1;
      }
    }

    /** Removes a context of the list. */
    method DestoryContext(context: UserAuthContext)
      requires inited && context in contextList
      requires UniqueIds(Values(contextList))
      modifies this
      ensures contexts == Values(contextList) && |contextList| < |old(contextList)| && inited
      ensures Live() == Destroy(Some(old(Values(contextList))), context.contextId)
    {
      ghost var values := Values(contextList);
      var i := Position(context);
      DestroyedAt(values, context.contextId, i);
      Unlink(i);
    }

    method Unlink(i: nat)
      requires i < |contextList|
      modifies this`contextList, this`contexts
      ensures contexts == Values(contextList) == old(Values(contextList))[..i] + old(Values(contextList))[i + 1..]
      ensures |contextList| == |old(contextList)| - 1
    {
      ghost var values := Values(contextList);
      contextList := contextList[..i] + contextList[i + 1..];
      contexts := values[..i] + values[i + 1..];
      assert Values(contextList) == contexts;
    }

    /** IsContextDuplicate. */
    method IsContextDuplicate(contextId: u64) returns (duplicate: bool)
      requires Valid()
      ensures duplicate <==> IsLive(Live(), contextId)
    {
      var context := GetContext(contextId);
      return context != null;
    }

    /** The checks of GenerateContext. */
    method IsAdmitted(pool: ResourcePool, db: Database.IdmDatabase, params: AuthSolution) returns (admitted: bool)
      requires Valid() && pool.Valid() && db.Valid()
      modifies db`currentUser
      ensures db.Valid() && db.State() == old(db.State())
      ensures admitted <==> Admitted(Live(), pool.Executors(), old(db.State()), params)
      ensures db.currentUser == old(db.LookedUp(SolutionLookup(Live(), pool.Executors(), params)))
    {
      if !inited {
        return false;
      }
      var duplicate := IsContextDuplicate(params.contextId);
      if duplicate {
        return false;
      }
      var authTypeAtl := AuthLevel.SingleAuthTrustLevel(pool, db, params.userId, params.authType);
      return authTypeAtl.Some? && authTypeAtl.value >= params.authTrustLevel;
    }

    /** A context waiting for the schedule, inserted at the head of the list. */
    method InsertContext(params: AuthSolution, schedule: CoAuthSchedule) returns (context: UserAuthContext)
      requires inited && Valid() && !IsLive(Live(), params.contextId) && |contextList| < LinkedLists.UINT32_MAX
      requires schedule.associateId == params.contextId
      modifies this`contextList, this`contexts
      ensures Valid() && contextList == [context] + old(contextList)
              && Live() == Some([context.Value()] + old(Live()).value)
      ensures context.Value() == Context(params.contextId, params.userId, params.challenge, params.authType,
                                         params.authTrustLevel, [schedule])
    {
      ghost var values := Values(contextList);
      InsertOk(values, params, schedule);
      context := new UserAuthContext(params);
      context.scheduleList := [schedule];
      contextList, contexts := [context] + contextList, [context.Value()] + contexts;
      assert Values(contextList) == contexts;
    }

    /** The part of GenerateContext after its checks. */
    method CreateContext(center: CoAuthCenter, pool: ResourcePool, db: Database.IdmDatabase, params: AuthSolution,
                         env: ContextEnv) returns (context: UserAuthContext?)
      requires Valid() && center.Valid() && pool.Valid() && db.Valid() && inited && !IsLive(Live(), params.contextId)
      modifies this`contextList, this`contexts, center.scheduleList, db`currentUser
      ensures Valid() && center.Valid() && db.Valid()
      ensures (if context == null then None else Some(context.Value()), Live(), center.Schedules()) ==
              old(ContextSpec.CreateContext(Live().value, center.Schedules(), pool.Executors(), db.State(), params,
                                            env))
      ensures db.currentUser == old(if env.malloced && env.listCreated then db.Looked(params.userId)
                                    else db.currentUser)
      ensures contextList == if context == null then old(contextList) else [context] + old(contextList)
    {
      if !env.malloced || !env.listCreated {
        return null;
      }
      var schedule := CreateCoauthSchedule(center, pool, db, params, env);
      if schedule.None? || !env.scheduleInserted || !env.contextInserted || |contextList| >= LinkedLists.UINT32_MAX {
        return null;
      }
      context := InsertContext(params, schedule.value);
    }

    method GenerateContext(center: CoAuthCenter, pool: ResourcePool, db: Database.IdmDatabase, params: AuthSolution,
                           env: ContextEnv) returns (context: UserAuthContext?)
      requires Valid() && center.Valid() && pool.Valid() && db.Valid()
      modifies this`contextList, this`contexts, center.scheduleList, db`currentUser
      ensures Valid() && center.Valid() && db.Valid()
      ensures (if context == null then None else Some(context.Value()), Live(), center.Schedules()) ==
              old(ContextSpec.GenerateContext(Live(), center.Schedules(), pool.Executors(), db.State(), params, env))
      ensures db.currentUser == old(db.LookedUp(SolutionLookup(Live(), pool.Executors(), params)))
      ensures contextList == if context == null then old(contextList) else [context] + old(contextList)
    {
      var admitted := IsAdmitted(pool, db, params);
      if !admitted {
        return null;
      }
      context := CreateContext(center, pool, db, params, env);
    }

    /** The ids of a new context, which is destroyed when there is no memory for them. */
    method AnswerSolution(context: UserAuthContext?, idsMalloced: bool) returns (r: ResultCode, ids: seq<u64>)
      requires Valid() && (context != null ==> inited && context in contextList)
      modifies this
      ensures Valid()
      ensures (r, Live(), ids) == if context == null then (RESULT_GENERAL_ERROR, old(Live()), [])
                                 else old(Solution(context.Value(), Live(), idsMalloced))
    {
      if context == null {
        return RESULT_GENERAL_ERROR, [];
      }
      DestroyOk(Values(contextList), context.contextId);
      r, ids := context.GetScheduleIds(idsMalloced);
      if r != RESULT_SUCCESS {
        DestoryContext(context);
      }
    }

    method GenerateSolutionFunc(center: CoAuthCenter, pool: ResourcePool, db: Database.IdmDatabase,
                                params: AuthSolution, env: ContextEnv) returns (r: ResultCode, ids: seq<u64>)
      requires Valid() && center.Valid() && pool.Valid() && db.Valid()
      modifies this, center.scheduleList, db`currentUser
      ensures Valid() && center.Valid() && db.Valid()
      ensures (r, Live(), center.Schedules(), ids) ==
              old(GenerateSolution(Live(), center.Schedules(), pool.Executors(), db.State(), params, env))
      ensures db.currentUser == old(db.LookedUp(SolutionLookup(Live(), pool.Executors(), params)))
    {
      ghost var cs, ss, executors, state := Live(), center.Schedules(), pool.Executors(), db.State();
      var context := GenerateContext(center, pool, db, params, env);
      SolutionFrom(cs, ss, executors, state, params, env,
                   if context == null then None else Some(context.Value()), Live(), center.Schedules());
      r, ids := AnswerSolution(context, env.idsMalloced);
    }

    method RequestAuthResultFunc(db: Database.IdmDatabase, contextId: u64, token: ScheduleToken, out: UserAuthToken,
                                 env: ResultEnv) returns (r: ResultCode, authToken: UserAuthToken, ids: seq<u64>)
      requires Valid() && db.Valid()
      modifies this, contextList, db`currentUser
      ensures Valid() && db.Valid()
      ensures (r, Live(), authToken, ids) == old(RequestAuthResult(Live(), db.State(), contextId, token, out, env))
      ensures db.currentUser == old(db.LookedUp(ResultLookup(Live(), contextId, token, env)))
    {
      r := CoAuthTokenVerify(token, env.now, env.mac);
      if r != RESULT_SUCCESS {
        return RESULT_BAD_SIGN, out, [];
      }
      var context := GetContext(contextId);
      if context == null {
        return RESULT_UNKNOWN, out, [];
      }
      r, authToken, ids := EndContext(context, db, contextId, token, out, env);
    }

    /** The part of RequestAuthResultFunc for a live context. */
    method EndContext(context: UserAuthContext, db: Database.IdmDatabase, contextId: u64, token: ScheduleToken,
                      out: UserAuthToken, env: ResultEnv)
      returns (r: ResultCode, authToken: UserAuthToken, ids: seq<u64>)
      requires Valid() && db.Valid() && IsLive(Live(), contextId)
               && context == contextList[FindContext(contexts, contextId)]
      modifies this, context, db`currentUser
      ensures Valid() && db.Valid() && Live() == old(Destroy(Live(), contextId))
      ensures (r, authToken, ids) == old(Conclude(ContextOf(Live(), contextId), db.State(), token, out, env))
      ensures db.currentUser == old(db.LookedUp(ConcludeLookup(ContextOf(Live(), contextId), token, env)))
    {
      ghost var values, k := contexts, FindContext(contexts, contextId);
      assert context.Value() == values[k];
      r, authToken, ids := ConcludeContext(context, db, token, out, env);
      DestroyConcluded(context, values, k);
    }

    /** Destroys a context whose schedules may have changed since the list stood for values. */
    method DestroyConcluded(context: UserAuthContext, ghost values: seq<Context>, ghost k: nat)
      requires inited && ContextsOk(values) && |values| == |contextList| <= LinkedLists.UINT32_MAX
      requires k == FindContext(values, context.contextId) < |contextList| && context == contextList[k]
      requires forall j :: 0 <= j < |contextList| && j != k ==> contextList[j].Value() == values[j]
      modifies this
      ensures Valid() && Live() == Destroy(Some(values), context.contextId)
    {
      DestroyOk(values, context.contextId);
      SameButOne(values, Values(contextList), k, context.contextId);
      DestoryContext(context);
    }

    method CancelContextFunc(contextId: u64, idsMalloced: bool) returns (r: ResultCode, ids: seq<u64>)
      requires Valid()
      modifies this
      ensures Valid() && (r, Live(), ids) == old(Cancel(Live(), contextId, idsMalloced))
    {
      var context := GetContext(contextId);
      if context == null {
        return RESULT_NOT_FOUND, [];
      }
      DestroyOk(Values(contextList), contextId);
      r, ids := context.GetScheduleIds(idsMalloced);
      assert Values(contextList)[FindContext(Values(contextList), contextId)] == context.Value();
      DestoryContext(context);
    }
  }

  /** Takes the schedule off the context and lists the ids of those left. */
  method TakeSchedule(context: UserAuthContext, scheduleId: u64, idsMalloced: bool)
    returns (r: ResultCode, ids: seq<u64>)
    modifies context
    ensures (r, ids) == old(Take(context.scheduleList, scheduleId, idsMalloced))
  {
    r := context.ScheduleOnceFinish(scheduleId);
    if r != RESULT_SUCCESS {
      return r, [];
    }
    r, ids := context.GetScheduleIds(idsMalloced);
  }

  /** What RequestAuthResultFunc does with a live context before it destroys it. */
  method ConcludeContext(context: UserAuthContext, db: Database.IdmDatabase, token: ScheduleToken, out: UserAuthToken,
                         env: ResultEnv) returns (r: ResultCode, authToken: UserAuthToken, ids: seq<u64>)
    requires db.Valid()
    modifies context, db`currentUser
    ensures db.Valid()
    ensures (r, authToken, ids) == old(Conclude(context.Value(), db.State(), token, out, env))
    ensures db.currentUser == old(db.LookedUp(ConcludeLookup(context.Value(), token, env)))
  {
    ghost var c := context.Value();
    r, ids := TakeSchedule(context, token.scheduleId, env.idsMalloced);
    if r != RESULT_SUCCESS {
      return r, out, [];
    }
    if token.scheduleResult != 0 {
      return r, out.(authResult := token.scheduleResult), ids;
    }
    TokenIgnoresSchedules(c, context.Value(), db.State(), out, env);
    r, authToken := GetTokenDataAndSign(context, db, out, env);
    ids := if r == RESULT_SUCCESS then ids else [];
  }

  lemma TokenIgnoresSchedules(c: Context, d: Context, db: DatabaseSpec.Db, out: UserAuthToken, env: ResultEnv)
    requires d == c.(schedules := d.schedules)
    ensures UserTokenOf(d, db, out, env) == UserTokenOf(c, db, out, env)
  {}

  method UserAuthTokenSign(token: UserAuthToken, mac: Mac<UserAuthToken>) returns (r: ResultCode, signed: UserAuthToken)
    ensures (r, signed) == UserSign(token, mac)
  {
    signed := token.(version := TOKEN_VERSION);
    var sign := mac(signed.(sign := []));
    if sign.None? {
      return RESULT_GENERAL_ERROR, signed;
    }
    return RESULT_SUCCESS, signed.(sign := sign.value);
  }

  method GetTokenDataAndSign(context: UserAuthContext, db: Database.IdmDatabase, out: UserAuthToken, env: ResultEnv)
    returns (r: ResultCode, authToken: UserAuthToken)
    requires db.Valid()
    modifies db`currentUser
    ensures db.Valid() && (r, authToken) == old(UserTokenOf(context.Value(), db.State(), out, env))
    ensures db.currentUser == old(db.Looked(context.userId))
  {
    var enrolled;
    r, enrolled := db.GetEnrolledInfoAuthType(context.userId, context.authType);
    if r != RESULT_SUCCESS {
      return r, BLANK_TOKEN;
    }
    authToken := out.(authResult := 0, userId := context.userId, authTrustLevel := context.authTrustLevel,
                      authType := context.authType, enrolledId := enrolled.value.enrolledId,
                      challenge := context.challenge, time := env.signTime);
    r, authToken := UserAuthTokenSign(authToken, env.userMac);
    authToken := if r == RESULT_SUCCESS then authToken else BLANK_TOKEN;
  }

  /** Destroying a context does not depend on the schedules it still holds. */
  lemma SameButOne(cs: seq<Context>, ds: seq<Context>, k: nat, id: u64)
    requires UniqueIds(cs) && |ds| == |cs| && k == FindContext(cs, id) < |cs|
    requires forall j :: 0 <= j < |cs| && j != k ==> ds[j] == cs[j]
    requires ds[k].contextId == id
    ensures UniqueIds(ds) && Destroy(Some(ds), id) == Destroy(Some(cs), id)
  {
    forall i, j | 0 <= i < j < |ds| ensures OtherContext(ds[i], ds[j]) {
      assert OtherContext(cs[i], cs[j]);
    }
    DestroyedAt(cs, id, k);
    DestroyedAt(ds, id, k);
    assert ds[..k] == cs[..k] && ds[k + 1..] == cs[k + 1..];
  }

  lemma DestroyedAt(cs: seq<Context>, id: u64, i: nat)
    requires UniqueIds(cs) && i < |cs| && cs[i].contextId == id
    ensures Destroy(Some(cs), id) == Some(cs[..i] + cs[i + 1..])
  {
    forall j | 0 <= j < i ensures !HasContextId(id)(cs[j]) {
      assert OtherContext(cs[j], cs[i]);
    }
    FirstIndexUnique(cs, HasContextId(id), i);
    RemoveFirstAt(cs, HasContextId(id));
  }

  lemma InsertOk(cs: seq<Context>, p: AuthSolution, s: CoAuthSchedule)
    requires ContextsOk(cs) && !IsLive(Some(cs), p.contextId) && s.associateId == p.contextId
    ensures ContextsOk([Context(p.contextId, p.userId, p.challenge, p.authType, p.authTrustLevel, [s])] + cs)
  {
    forall k | 0 <= k < |cs| ensures cs[k].contextId != p.contextId {
      assert !HasContextId(p.contextId)(cs[k]);
    }
  }

  method CreateCoauthSchedule(center: CoAuthCenter, pool: ResourcePool, db: Database.IdmDatabase, params: AuthSolution,
                              env: ContextEnv) returns (schedule: Option<CoAuthSchedule>)
    requires center.Valid() && pool.Valid() && db.Valid()
    modifies center.scheduleList, db`currentUser
    ensures center.Valid() && db.Valid()
    ensures (schedule, center.Schedules()) ==
            CreateSchedule(old(center.Schedules()), old(pool.Executors()), old(db.State()), params, env)
    ensures db.currentUser == old(db.Looked(params.userId))
    ensures schedule.Some? ==> schedule.value.associateId == params.contextId
  {
    var r, credential := db.QueryCredentialInfo(params.userId, params.authType,
                                                IdmCommon.CredentialInfo(0, 0, 0, 0, 0));
    if r != RESULT_SUCCESS {
      return None;
    }
    schedule := center.GenerateAuthSchedule(pool, params.contextId, params.authType, DEFAULT_TYPE,
                                            credential.templateId, env.generate);
    if schedule.None? {
      return None;
    }
    r := center.AddCoAuthSchedule(schedule.value, env.add);
    if r != RESULT_SUCCESS {
      return None;
    }
  }
}
