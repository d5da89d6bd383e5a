/** The schedule pool of auth_res_pool.cpp and, over it, ExecutorMessenger::Finish and CoAuthManager. */
module Services {
  import opened Base
  import opened ServiceSpec

  class AuthResPool {
    var scheResPool: map<u64, Register>

    constructor ()
      ensures scheResPool == map[]
    {
      scheResPool := map[];
    }

    /** std::map::insert keeps an entry that is already there. */
    method Insert(scheduleId: u64, executorNum: u64, callback: nat) returns (r: i32)
      modifies this
      ensures r == SUCCESS
      ensures scheResPool == if scheduleId in old(scheResPool) then old(scheResPool)
                             else old(scheResPool)[scheduleId := Register(executorNum, callback)]
    {
      if scheduleId !in scheResPool {
        scheResPool := scheResPool[scheduleId := Register(executorNum, callback)];
      }
      return SUCCESS;
    }

    method FindScheduleCallback(scheduleId: u64) returns (r: i32, callback: nat)
      ensures r == if scheduleId in scheResPool then SUCCESS else FAIL
      ensures r == SUCCESS ==> callback == scheResPool[scheduleId].callback
    {
      if scheduleId !in scheResPool {
        return FAIL, 0;
      }
      return SUCCESS, scheResPool[scheduleId].callback;
    }

    method ScheduleCountMinus(scheduleId: u64) returns (r: i32)
      modifies this
      ensures r == SUCCESS <==> scheduleId in old(scheResPool) && old(scheResPool)[scheduleId].executorNum > 0
      ensures r == SUCCESS || r == FAIL
      ensures r == SUCCESS ==>
                var was := old(scheResPool)[scheduleId];
                scheResPool == old(scheResPool)[scheduleId := Register(was.executorNum - 1, was.callback)]
      ensures r == FAIL ==> scheResPool == old(scheResPool)
    {
      if scheduleId !in scheResPool {
        return FAIL;
      }
      var register := scheResPool[scheduleId];
      if register.executorNum <= 0 {
        return FAIL;
      }
      scheResPool := scheResPool[scheduleId := Register(register.executorNum - 1, register.callback)];
      return SUCCESS;
    }

    /** For an unknown schedule the count keeps whatever the caller's variable holds. */
    method GetScheduleCount(scheduleId: u64, stray: u64) returns (r: i32, scheduleCount: u64)
      ensures r == if scheduleId in scheResPool then SUCCESS else FAIL
      ensures scheduleCount == if scheduleId in scheResPool then scheResPool[scheduleId].executorNum else stray
    {
      if scheduleId !in scheResPool {
        return FAIL, stray;
      }
      return SUCCESS, scheResPool[scheduleId].executorNum;
    }

    method DeleteScheduleCallback(scheduleId: u64) returns (r: i32)
      modifies this
      ensures scheResPool == old(scheResPool) - {scheduleId}
      ensures r == if scheduleId in old(scheResPool) then SUCCESS else FAIL
    {
      if scheduleId !in scheResPool {
        return FAIL;
      }
      scheResPool := scheResPool - {scheduleId};
      return SUCCESS;
    }
  }

  class CoAuthService {
    const pool: AuthResPool
    var timers: set<u64>           // the calls CallMonitor watches
    var delivered: seq<Delivery>   // the OnFinish calls made so far
    var hal: seq<HalCall>

    ghost function View(): Service
      reads this, pool
    {
      Service(pool.scheResPool, timers, delivered, hal)
    }

    constructor (pool: AuthResPool)
      ensures this.pool == pool && View() == Service(pool.scheResPool, {}, [], [])
    {
      this.pool := pool;
      timers, delivered, hal := {}, [], [];
    }

    method CallbackOnFinish(scheduleId: u64, callback: nat, code: i32)
      modifies this`delivered
      ensures delivered == old(delivered) + [Delivery(scheduleId, callback, code)]
    {
      delivered := delivered + [Delivery(scheduleId, callback, code)];
    }

    /** DoSignToken: on failure it delivers the error and drops the schedule itself. */
    method DoSignToken(scheduleId: u64, callback: nat, signRet: i32) returns (r: i32)
      modifies this, pool
      ensures r == signRet
      ensures View() == old(if signRet == SUCCESS then CallHal(View(), Sign(scheduleId))
                            else Deliver(CallHal(View(), Sign(scheduleId)), scheduleId, callback, signRet))
    {
      hal := hal + [Sign(scheduleId)];
      if signRet != SUCCESS {
        CallbackOnFinish(scheduleId, callback, signRet);
        var _ := pool.DeleteScheduleCallback(scheduleId);
      }
      return signRet;
    }

    /** ExecutorMessenger::Finish. */
    method FinishReport(scheduleId: u64, report: Report, stray: u64) returns (r: i32)
      modifies this, pool
      ensures (r, View()) == OnFinish(old(View()), scheduleId, report, stray)
      ensures forall id :: EventMeans(old(View()), Finish(scheduleId, report, stray), id, View())
    {
      forall id {
        FinishMeans(View(), scheduleId, report, stray, id);
      }
      var _, scheCount := pool.GetScheduleCount(scheduleId, stray);
      if scheCount > 1 {
        var _ := pool.ScheduleCountMinus(scheduleId);
        return SUCCESS;
      }
      timers := timers - {scheduleId};
      assert timers - {scheduleId} == timers;
      var findRet, callback := pool.FindScheduleCallback(scheduleId);
      if findRet != SUCCESS {
        hal := hal + [Drop(scheduleId)];
        return FAIL;
      }
      r := FinishFound(scheduleId, callback, report);
    }

    /** The part of Finish after the callback was found. */
    method FinishFound(scheduleId: u64, callback: nat, report: Report) returns (r: i32)
      requires scheduleId in pool.scheResPool && callback == pool.scheResPool[scheduleId].callback
               && scheduleId !in timers
      modifies this, pool
      ensures (r, View()) == LastReport(old(View()), scheduleId, report)
    {
      assert timers - {scheduleId} == timers;
      if !report.hasResult {
        hal := hal + [Drop(scheduleId)];
        CallbackOnFinish(scheduleId, callback, FAIL);
        var _ := pool.DeleteScheduleCallback(scheduleId);
        return FAIL;
      }
      if report.code == SUCCESS {
        r := DoSignToken(scheduleId, callback, report.signRet);
        if r != SUCCESS {
          return r;
        }
      }
      CallbackOnFinish(scheduleId, callback, report.code);
      var _ := pool.DeleteScheduleCallback(scheduleId);
      return SUCCESS;
    }

    /** CoAuthManager::TimeOut. */
    method OnTimer(scheduleId: u64, drops: bool)
      modifies this, pool
      ensures View() == OnTimeOut(old(View()), scheduleId, drops)
      ensures forall id :: EventMeans(old(View()), TimeOut(scheduleId, drops), id, View())
    {
      forall id ensures EventMeans(View(), TimeOut(scheduleId, drops), id, OnTimeOut(View(), scheduleId, drops)) {
        HandleMeans(View(), TimeOut(scheduleId, drops), id);
      }
      var findRet, callback := pool.FindScheduleCallback(scheduleId);
      if findRet != SUCCESS {
        return;
      }
      CallbackOnFinish(scheduleId, callback, TIMEOUT);
      if drops {
        hal := hal + [Drop(scheduleId)];
      }
      var _ := pool.DeleteScheduleCallback(scheduleId);
    }

    /** What arrives between two starts, one event after the other. */
    method HandleEvents(events: seq<Event>)
      modifies this, pool
      ensures View() == HandleAll(old(View()), events)
    {
      ghost var end := HandleAll(View(), events);
      assert events[0..] == events;
      for i := 0 to |events|
        invariant HandleAll(View(), events[i..]) == end
      {
        assert events[i..][1..] == events[i + 1..];
        match events[i]
        case Finish(id, report, stray) =>
          var _ := FinishReport(id, report, stray);
        case TimeOut(id, drops) =>
          OnTimer(id, drops);
        case ClientDied(id) =>
          var _ := pool.DeleteScheduleCallback(id);
      }
    }

    /** Asks one executor after the other to begin; one without a callback is passed over. */
    method BeginExecute(starts: seq<Start>, gaps: seq<seq<Event>>) returns (executeRet: i32)
      requires |gaps| == |starts|
      modifies this, pool
      ensures (View(), executeRet) == Begin(old(View()), SUCCESS, starts, gaps)
    {
      executeRet := SUCCESS;
      ghost var end := Begin(View(), executeRet, starts, gaps);
      assert starts[0..] == starts && gaps[0..] == gaps;
      for i := 0 to |starts|
        invariant Begin(View(), executeRet, starts[i..], gaps[i..]) == end
      {
        assert starts[i..][1..] == starts[i + 1..] && gaps[i..][1..] == gaps[i + 1..];
        if starts[i].Asked? && starts[i].ret != SUCCESS {
          executeRet := starts[i].ret;
        }
        HandleEvents(gaps[i]);
      }
    }

    /** CoAuthManager::CoAuthHandle; infoRet and starts are what GetScheduleInfo and the executors answer. */
    method HandleSchedule(scheduleId: u64, callback: nat, infoRet: i32, starts: seq<Start>, gaps: seq<seq<Event>>)
      requires |gaps| == |starts| <= 0xFFFF_FFFF
      modifies this, pool
      ensures View() == CoAuthHandle(old(View()), scheduleId, callback, infoRet, starts, gaps)
      ensures infoRet != SUCCESS || |starts| == 0 ==>
              Deliveries(View(), scheduleId) == old(Deliveries(View(), scheduleId)) + 1
      ensures infoRet == SUCCESS && |starts| > 0 ==>
                (Deliveries(View(), scheduleId) <= old(Deliveries(View(), scheduleId)) + 1 <==>
                 (forall k :: 0 <= k < |starts| ==> !Fails(starts[k]))
                 || !Concludes(Flat(gaps), scheduleId, old(Waiting(View(), scheduleId, |starts|))))
    {
      if infoRet != SUCCESS || |starts| == 0 {
        UnsavedDeliversOnce(View(), scheduleId, callback, infoRet, starts, gaps);
      } else {
        AtMostOnceIff(View(), scheduleId, callback, starts, gaps, []);
      }
      if infoRet != SUCCESS {
        CallbackOnFinish(scheduleId, callback, infoRet);
        return;
      }
      var executorNum := |starts|;
      if executorNum == 0 {
        CallbackOnFinish(scheduleId, callback, FAIL);
        return;
      }
      var _ := pool.Insert(scheduleId, executorNum, callback);
      timers := timers + {scheduleId};
      var executeRet := BeginExecute(starts, gaps);
      if executeRet != SUCCESS {
        CallbackOnFinish(scheduleId, callback, executeRet);
        var _ := pool.DeleteScheduleCallback(scheduleId);
        timers := timers - {scheduleId};
      }
    }
  }
}
