/** The schedule list of coauth.c and the calls of coauth_funcs.c, changed in place. */
module CoAuthFuncs {
  import opened Base
  import opened LinkedLists
  import opened Pool
  import opened CoAuth
  import ExecutorMessage
  import Tlv

  method CoAuthTokenSign(token: ScheduleToken, mac: Mac<ScheduleToken>) returns (r: ResultCode, signed: ScheduleToken)
    ensures (r, signed) == TokenSign(token, mac)
    ensures r == RESULT_SUCCESS ==>
              forall now: u64 :: TokenVerify(signed, now, mac) == RESULT_SUCCESS <==> IsTimeValid(token.time, now)
  {
    signed := token.(version := TOKEN_VERSION);
    var sign := mac(signed.(sign := []));
    if sign.None? {
      return RESULT_GENERAL_ERROR, signed;
    }
    signed := signed.(sign := sign.value);
    return RESULT_SUCCESS, signed;
  }

  method CoAuthTokenVerify(token: ScheduleToken, now: u64, mac: Mac<ScheduleToken>) returns (r: ResultCode)
    ensures r == TokenVerify(token, now, mac)
    ensures r == RESULT_SUCCESS <==>
            token.time <= now <= token.time + TOKEN_VALIDITY_PERIOD && mac(token.(sign := [])) == Some(token.sign)
  {
    if now < token.time || now - token.time > TOKEN_VALIDITY_PERIOD {
      return RESULT_TOKEN_TIMEOUT;
    }
    var rightSign := mac(token.(sign := []));
    if rightSign.None? {
      return RESULT_GENERAL_ERROR;
    }
    return if rightSign.value != token.sign then RESULT_BAD_SIGN else RESULT_SUCCESS;
  }

  /** Copies the first executors of the list out, one node after the other. */
  method CopyExecutors(list: LinkedList<ExecutorInfo>) returns (es: seq<ExecutorInfo>)
    requires list.Valid()
    ensures es == list.contents
  {
    es := [];
    var tempNode := list.head;
    for i := 0 to list.size
      invariant tempNode == At(list.nodes, i) && es == list.contents[..i]
    {
      es := es + [tempNode.data];
      assert list.nodes[i].next == At(list.nodes, i + 1);
      tempNode := tempNode.next;
    }
  }

  method MountExecutor(pool: ResourcePool, authType: u32) returns (es: Option<seq<ExecutorInfo>>)
    requires pool.Valid()
    ensures es == Mount(pool.Executors(), authType)
  {
    var executors := pool.QueryExecutor(authType);
    if executors.None? || executors.value.size == 0 || executors.value.size > MAX_EXECUTOR_SIZE {
      return None;
    }
    var copies := CopyExecutors(executors.value);
    return Some(copies);
  }

  /** The loop of ScheduleFinish over the mounted executors. */
  method FindVerifierKey(es: seq<ExecutorInfo>) returns (key: Option<seq<byte>>)
    ensures key == VerifierKey(es)
  {
    assert es[0..] == es;
    for index := 0 to |es|
      invariant VerifierKey(es) == VerifierKey(es[index..])
    {
      if Verifies(es[index]) {
        return Some(es[index].pubKey);
      }
      assert es[index..][1..] == es[index + 1..];
    }
    return None;
  }

  class CoAuthCenter {
    var inited: bool  // g_scheduleList is not NULL
    var scheduleList: LinkedList<CoAuthSchedule>

    ghost predicate Valid()
      reads this, scheduleList, scheduleList.nodes
    {
      scheduleList.Valid()
    }

    ghost function Schedules(): Option<seq<CoAuthSchedule>>
      reads this, scheduleList
    {
      if inited then Some(scheduleList.contents) else None
    }

    constructor ()
      ensures Valid() && Schedules() == None
    {
      inited := false;
      scheduleList := new LinkedList();
    }

    method InitCoAuth() returns (r: ResultCode)
      requires Valid()
      modifies this
      ensures Valid() && r == RESULT_SUCCESS
      ensures Schedules() == if old(Schedules()).None? then Some([]) else old(Schedules())
    {
      if !inited {
        inited := true;
        scheduleList := new LinkedList();
      }
      return RESULT_SUCCESS;
    }

    method DestoryCoAuth()
      requires Valid()
      modifies this
      ensures Valid() && Schedules() == None
    {
      inited := false;
    }

    method AddCoAuthSchedule(schedule: CoAuthSchedule, env: InsertEnv) returns (r: ResultCode)
      requires Valid()
      modifies scheduleList
      ensures Valid() && (r, Schedules()) == Add(old(Schedules()), schedule, env)
    {
      if !inited {
        return RESULT_NEED_INIT;
      }
      if !env.copied {
        return RESULT_NO_MEMORY;
      }
      r := scheduleList.Insert(schedule, env.inserted);
    }

    method RemoveCoAuthSchedule(scheduleId: u64) returns (r: ResultCode)
      requires Valid()
      modifies scheduleList, scheduleList.nodes
      ensures Valid() && Schedules() == Remove(old(Schedules()), scheduleId)
      ensures r == if !inited then RESULT_NEED_INIT
                   else if Lookup(old(Schedules()).value, scheduleId).Some? then RESULT_SUCCESS else RESULT_NOT_FOUND
    {
      if !inited {
        return RESULT_NEED_INIT;
      }
      r := scheduleList.Remove(HasScheduleId(scheduleId));
    }

    /** The first live schedule with the id, found with an iterator. */
    method GetCoAuthSchedule(scheduleId: u64) returns (r: ResultCode, schedule: Option<CoAuthSchedule>)
      requires Valid()
      ensures Schedules().None? ==> r == RESULT_NEED_INIT && schedule == None
      ensures Schedules().Some? ==> schedule == Lookup(Schedules().value, scheduleId)
                                    && r == if schedule.Some? then RESULT_SUCCESS else RESULT_BAD_MATCH
    {
      if !inited {
        return RESULT_NEED_INIT, None;
      }
      schedule := FindSchedule(scheduleList, scheduleId);
      return if schedule.Some? then RESULT_SUCCESS else RESULT_BAD_MATCH, schedule;
    }

    method GenerateValidScheduleId(draws: Draws) returns (id: Option<u64>)
      requires Valid()
      ensures id == if inited then FirstFresh(draws, ScheduleIds(scheduleList.contents)) else None
    {
      if !inited {
        return None;
      }
      var taken := CollectIds(scheduleList, (s: CoAuthSchedule) => s.scheduleId);
      assert taken == ScheduleIds(scheduleList.contents);
      id := GenerateDeduplicateUint64(draws, taken);
    }

    method GenerateSchedule(pool: ResourcePool, authType: u32, blank: CoAuthSchedule, env: GenerateEnv)
      returns (schedule: Option<CoAuthSchedule>)
      requires Valid() && pool.Valid()
      ensures schedule == Generate(Schedules(), pool.Executors(), authType, blank, env)
    {
      if !env.malloced {
        return None;
      }
      var id := GenerateValidScheduleId(env.draws);
      if id.None? {
        return None;
      }
      var es := MountExecutor(pool, authType);
      if es.None? {
        return None;
      }
      return Some(blank.(scheduleId := id.value, executors := es.value));
    }

    method GenerateAuthSchedule(pool: ResourcePool, contextId: u64, authType: u32, authSubType: u64, templateId: u64,
                                env: GenerateEnv) returns (schedule: Option<CoAuthSchedule>)
      requires Valid() && pool.Valid()
      ensures schedule == Generate(Schedules(), pool.Executors(), authType,
                                   AuthBlank(contextId, authSubType, templateId), env)
    {
      schedule := GenerateSchedule(pool, authType, AuthBlank(contextId, authSubType, templateId), env);
    }

    method GenerateIdmSchedule(pool: ResourcePool, challenge: u64, authType: u32, authSubType: u64, env: GenerateEnv)
      returns (schedule: Option<CoAuthSchedule>)
      requires Valid() && pool.Valid()
      ensures schedule == Generate(Schedules(), pool.Executors(), authType, IdmBlank(challenge, authSubType), env)
    {
      schedule := GenerateSchedule(pool, authType, IdmBlank(challenge, authSubType), env);
    }

    /** The checks of ScheduleFinish up to the schedule, in its order. */
    method FindReported(msg: seq<byte>, token: ScheduleToken, listed: bool)
      returns (r: ResultCode, schedule: CoAuthSchedule, info: ExecutorMessage.ExecutorResultInfo)
      requires Valid()
      ensures r == RESULT_SUCCESS ==>
                && Schedules().Some? && ExecutorMessage.Decode(msg, listed) == Some(info)
                   && token.scheduleId == info.scheduleId
                && info.result == 0 && Lookup(Schedules().value, info.scheduleId) == Some(schedule)
      ensures r != RESULT_SUCCESS ==>
                forall env: FinishEnv :: env.listed == listed ==>
                    TokenOfMessage(Schedules(), msg, token, env) == (r, token)
    {
      schedule, info := IdmBlank(0, 0), ExecutorMessage.ExecutorResultInfo([], [], 0, 0, 0, 0, 0);
      var resultInfo := ExecutorMessage.GetExecutorResultInfo(msg, listed);
      if resultInfo.None? || token.scheduleId != resultInfo.value.scheduleId || resultInfo.value.result != 0 {
        return RESULT_GENERAL_ERROR, schedule, info;
      }
      var found;
      r, found := GetCoAuthSchedule(resultInfo.value.scheduleId);
      if r != RESULT_SUCCESS {
        return r, schedule, info;
      }
      return RESULT_SUCCESS, found.value, resultInfo.value;
    }

    method SignReport(schedule: CoAuthSchedule, info: ExecutorMessage.ExecutorResultInfo, token: ScheduleToken,
                      env: FinishEnv)
      returns (r: ResultCode, out: ScheduleToken)
      ensures (r, out) == TokenOfSchedule(schedule, info, token, env)
    {
      var publicKey := FindVerifierKey(schedule.executors);
      if publicKey.None? || !env.keyCopied {
        return RESULT_SUCCESS, token;
      }
      r := env.ed25519(publicKey.value, info.data, info.sign);
      if r != RESULT_SUCCESS {
        return r, token;
      }
      r, out := CoAuthTokenSign(TokenData(schedule.executors[0].authType, info, token, env.now), env.mac);
    }

    /** The token of a valid message, before the schedule is removed. */
    method TokenFor(msg: seq<byte>, token: ScheduleToken, env: FinishEnv) returns (r: ResultCode, out: ScheduleToken)
      requires Valid()
      ensures (r, out) == TokenOfMessage(Schedules(), msg, token, env)
    {
      var schedule, info;
      r, schedule, info := FindReported(msg, token, env.listed);
      if r != RESULT_SUCCESS {
        return r, token;
      }
      r, out := SignReport(schedule, info, token, env);
    }

    /** ScheduleFinish. */
    method FinishSchedule(msg: seq<byte>, token: ScheduleToken, env: FinishEnv)
      returns (r: ResultCode, out: ScheduleToken)
      requires Valid()
      modifies scheduleList, scheduleList.nodes
      ensures Valid() && (r, Schedules(), out) == ScheduleFinish(old(Schedules()), msg, token, env)
    {
      if |msg| == 0 || |msg| > Tlv.MAX_BUFFER_SIZE {
        return RESULT_BAD_PARAM, token;
      }
      r, out := TokenFor(msg, token.(scheduleResult := 1), env);
      KeepsId(Schedules(), msg, token.(scheduleResult := 1), env);
      var _ := RemoveCoAuthSchedule(out.scheduleId);
    }

    /** GetScheduleInfo: the schedule, unless it names more executors than a schedule can hold. */
    method GetScheduleInfo(scheduleId: u64) returns (r: ResultCode, info: Option<CoAuthSchedule>)
      requires Valid()
      ensures r == RESULT_SUCCESS <==> info.Some?
      ensures info.Some? <==> && Schedules().Some? && Lookup(Schedules().value, scheduleId).Some?
                              && |Lookup(Schedules().value, scheduleId).value.executors| <= MAX_EXECUTOR_SIZE
      ensures info.Some? ==> info == Lookup(Schedules().value, scheduleId)
    {
      r, info := GetCoAuthSchedule(scheduleId);
      if r == RESULT_SUCCESS && |info.value.executors| > MAX_EXECUTOR_SIZE {
        return RESULT_UNKNOWN, None;
      }
    }
  }

  /** The schedule id of the token is the same before and after. */
  lemma KeepsId(ss: Option<seq<CoAuthSchedule>>, msg: seq<byte>, token: ScheduleToken, env: FinishEnv)
    ensures TokenOfMessage(ss, msg, token, env).1.scheduleId == token.scheduleId
  {}

  method FindSchedule(list: LinkedList<CoAuthSchedule>, scheduleId: u64) returns (schedule: Option<CoAuthSchedule>)
    requires list.Valid()
    ensures schedule == Lookup(list.contents, scheduleId)
  {
    var cursor := new LinkedListIterator(list);
    ghost var s, i := list.contents, 0;
    var more := cursor.HasNext();
    while more
      invariant fresh(cursor) && cursor.Valid() && cursor.list == list && cursor.pos == i && i <= |s|
      invariant more <==> i < |s|
      invariant forall j :: 0 <= j < i ==> !HasScheduleId(scheduleId)(s[j])
      decreases |s| - i
    {
      var next := cursor.Next();
      assert next == Some(s[i]);
      if next.value.scheduleId == scheduleId {
        FirstIndexUnique(s, HasScheduleId(scheduleId), i);
        return next;
      }
      i := i + 1;
      more := cursor.HasNext();
    }
    FirstIndexUnique(s, HasScheduleId(scheduleId), i);
    return None;
  }
}
