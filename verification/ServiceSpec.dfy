/** executor_messenger.cpp, auth_res_pool.cpp and coauth_manager.cpp: how a schedule handed to its executors comes to
    its one result. A report, a timeout and a client's death each run to completion; they fall between the starts. */
module ServiceSpec {
  import opened Base

  const SUCCESS: i32 := 0
  const FAIL: i32 := 1
  const TIMEOUT: i32 := 4

  /** What the pool holds of a schedule: the reports still to come, and the client's callback. */
  datatype Register = Register(executorNum: u64, callback: nat)

  /** OnFinish of the callback was called for the schedule with the code. */
  datatype Delivery = Delivery(scheduleId: u64, callback: nat, code: i32)

  datatype HalCall = Sign(id: u64) | Drop(id: u64)

  datatype Service = Service(pool: map<u64, Register>, timers: set<u64>, delivered: seq<Delivery>, hal: seq<HalCall>)

  /** A report of an executor: its code, whether it came with a result, and what GetScheduleToken then returns. */
  datatype Report = Report(code: i32, hasResult: bool, signRet: i32)

  datatype Event =
    | Finish(id: u64, report: Report, stray: u64)  // stray is the uninitialised count read for an unknown schedule
    | TimeOut(id: u64, drops: bool)                // drops: every executor accepted the cancellation
    | ClientDied(id: u64)

  function Deliver(s: Service, id: u64, callback: nat, code: i32): Service {
    s.(delivered := s.delivered + [Delivery(id, callback, code)], pool := s.pool - {id})
  }

  function CallHal(s: Service, c: HalCall): Service {
    s.(hal := s.hal + [c])
  }

  /** The last report: it ends the timer and, if the schedule is still there, delivers. */
  function LastReport(s: Service, id: u64, r: Report): (i32, Service) {
    var s1 := s.(timers := s.timers - {id});
    if id !in s.pool then (FAIL, CallHal(s1, Drop(id)))
    else
      var callback := s.pool[id].callback;
      if !r.hasResult then (FAIL, Deliver(CallHal(s1, Drop(id)), id, callback, FAIL))
      else if r.code == SUCCESS then (r.signRet, Deliver(CallHal(s1, Sign(id)), id, callback, r.signRet))
      else (SUCCESS, Deliver(s1, id, callback, r.code))
  }

  function Minus(s: Service, id: u64): Service {
    if id !in s.pool || s.pool[id].executorNum == 0 then s
    else s.(pool := s.pool[id := Register(s.pool[id].executorNum - 1, s.pool[id].callback)])
  }

  /** ExecutorMessenger::Finish. */
  function OnFinish(s: Service, id: u64, r: Report, stray: u64): (i32, Service) {
    var count := if id in s.pool then s.pool[id].executorNum else stray;
    if count > 1 then (SUCCESS, Minus(s, id)) else LastReport(s, id, r)
  }

  /** CoAuthManager::TimeOut: delivers, cancels, and forgets the schedule. */
  function OnTimeOut(s: Service, id: u64, drops: bool): Service {
    if id !in s.pool then s
    else
      var s1 := Deliver(s, id, s.pool[id].callback, TIMEOUT);
      if drops then CallHal(s1, Drop(id)) else s1
  }

  function Handle(s: Service, e: Event): Service {
    match e
    case Finish(id, r, stray) => OnFinish(s, id, r, stray).1
    case TimeOut(id, drops) => OnTimeOut(s, id, drops)
    case ClientDied(id) => s.(pool := s.pool - {id})
  }

  function HandleAll(s: Service, es: seq<Event>): Service
    decreases |es|
  {
    if |es| == 0 then s else HandleAll(Handle(s, es[0]), es[1..])
  }

  // ----- starting the executors ------------------------------------------------------------------

  /** An executor of the schedule: not registered with the service, or asked to begin with this answer. */
  datatype Start = NoCallback | Asked(ret: i32)

  predicate Succeeds(x: Start) {
    x == Asked(SUCCESS)
  }

  predicate Fails(x: Start) {
    x.Asked? && x.ret != SUCCESS
  }

  function NextRet(ret: i32, x: Start): i32 {
    if Fails(x) then x.ret else ret
  }

  /** BeginExecute: one start after the other, each followed by what happens before the next. */
  function Begin(s: Service, ret: i32, starts: seq<Start>, gaps: seq<seq<Event>>): (Service, i32)
    requires |gaps| == |starts|
    decreases |starts|
  {
    if |starts| == 0 then (s, ret)
    else Begin(HandleAll(s, gaps[0]), NextRet(ret, starts[0]), starts[1..], gaps[1..])
  }

  /** SaveScheduleCallback and the timer; an entry that is already there stays as it is. */
  function Saved(s: Service, id: u64, callback: nat, n: u64): Service {
    s.(pool := if id in s.pool then s.pool else s.pool[id := Register(n, callback)], timers := s.timers + {id})
  }

  /** A failed start delivers, whatever became of the schedule meanwhile. */
  function Concluded(s: Service, id: u64, callback: nat, ret: i32): Service {
    if ret == SUCCESS then s
    else
      var s1 := Deliver(s, id, callback, ret);
      s1.(timers := s1.timers - {id})
  }

  /** CoAuthHandle for the executors GetScheduleInfo found, or its error. */
  function CoAuthHandle(s: Service, id: u64, callback: nat, infoRet: i32, starts: seq<Start>,
                        gaps: seq<seq<Event>>): Service
    requires |gaps| == |starts| <= 0xFFFF_FFFF
  {
    if infoRet != SUCCESS then s.(delivered := s.delivered + [Delivery(id, callback, infoRet)])
    else if |starts| == 0 then s.(delivered := s.delivered + [Delivery(id, callback, FAIL)])
    else
      var (s1, ret) := Begin(Saved(s, id, callback, |starts|), SUCCESS, starts, gaps);
      Concluded(s1, id, callback, ret)
  }

  // ----- counting --------------------------------------------------------------------------------

  function ReportFor(id: u64): Event -> bool {
    (e: Event) => e.Finish? && e.id == id
  }

  function DeliveredFor(id: u64): Delivery -> bool {
    (d: Delivery) => d.scheduleId == id
  }

  function SignedFor(id: u64): HalCall -> bool {
    (c: HalCall) => c == Sign(id)
  }

  function Deliveries(s: Service, id: u64): nat {
    Occurrences(s.delivered, DeliveredFor(id))
  }

  function Signs(s: Service, id: u64): nat {
    Occurrences(s.hal, SignedFor(id))
  }

  lemma {:induction false} OccurrencesSnoc<T>(s: seq<T>, x: T, p: T -> bool)
    ensures Occurrences(s + [x], p) == Occurrences(s, p) + if p(x) then 1 else 0
  {
    if |s| == 0 {
      assert s + [x] == [x] && [x][1..] == [];
    } else {
      assert (s + [x])[1..] == s[1..] + [x];
      OccurrencesSnoc(s[1..], x, p);
    }
  }

  /** What one event does to another schedule: nothing; and to this one: it waits on, with one report less if the
      event was one, or it goes, with at most one delivery and one signature. */
  ghost predicate EventMeans(s: Service, e: Event, id: u64, s1: Service) {
    && (id !in s.pool ==> id !in s1.pool && Deliveries(s1, id) == Deliveries(s, id) && Signs(s1, id) == Signs(s, id))
    && (id in s.pool && id in s1.pool ==>
          && Deliveries(s1, id) == Deliveries(s, id) && Signs(s1, id) == Signs(s, id)
             && s1.pool[id].callback == s.pool[id].callback
          && (if ReportFor(id)(e) then s.pool[id].executorNum > 1
              && s1.pool[id].executorNum == s.pool[id].executorNum - 1
              else s1.pool[id] == s.pool[id]))
    && (id in s.pool && id !in s1.pool ==>
          if e == ClientDied(id) then Deliveries(s1, id) == Deliveries(s, id) && Signs(s1, id) == Signs(s, id)
          else
            && (e.TimeOut? || (e.Finish? && s.pool[id].executorNum <= 1)) && e.id == id
            && Deliveries(s1, id) == Deliveries(s, id) + 1 && Signs(s1, id) <= Signs(s, id) + 1)
  }

  lemma HandleMeans(s: Service, e: Event, id: u64)
    ensures EventMeans(s, e, id, Handle(s, e))
  {
    match e
    case Finish(other, r, stray) =>
      FinishMeans(s, other, r, stray, id);
    case TimeOut(other, drops) =>
      if other in s.pool {
        OccurrencesSnoc(s.delivered, Delivery(other, s.pool[other].callback, TIMEOUT), DeliveredFor(id));
        OccurrencesSnoc(s.hal, Drop(other), SignedFor(id));
      }
    case ClientDied(_) =>
  }

  lemma FinishMeans(s: Service, other: u64, r: Report, stray: u64, id: u64)
    ensures EventMeans(s, Finish(other, r, stray), id, OnFinish(s, other, r, stray).1)
  {
    var callback := if other in s.pool then s.pool[other].callback else 0;
    var code := if !r.hasResult then FAIL else if r.code == SUCCESS then r.signRet else r.code;
    OccurrencesSnoc(s.delivered, Delivery(other, callback, code), DeliveredFor(id));
    OccurrencesSnoc(s.hal, Drop(other), SignedFor(id));
    OccurrencesSnoc(s.hal, Sign(other), SignedFor(id));
  }

  /** Deliveries made plus the one a waiting schedule may still get. */
  function Potential(s: Service, id: u64): nat {
    Deliveries(s, id) + if id in s.pool then 1 else 0
  }

  /** No event lets a schedule deliver more than it may, and it signs no more often than it delivers. */
  lemma {:induction false} PotentialNeverGrows(s: Service, es: seq<Event>, id: u64)
    ensures var s1 := HandleAll(s, es);
            && Deliveries(s, id) <= Deliveries(s1, id) <= Potential(s1, id) <= Potential(s, id)
            && Signs(s1, id) - Signs(s, id) <= Deliveries(s1, id) - Deliveries(s, id)
            && (id !in s.pool ==> id !in s1.pool)
    decreases |es|
  {
    if |es| > 0 {
      HandleMeans(s, es[0], id);
      PotentialNeverGrows(Handle(s, es[0]), es[1..], id);
    }
  }

  predicate NoTimeOut(es: seq<Event>, id: u64) {
    forall k :: 0 <= k < |es| ==> !(es[k].TimeOut? && es[k].id == id)
  }

  predicate NoDeath(es: seq<Event>, id: u64) {
    forall k :: 0 <= k < |es| ==> es[k] != ClientDied(id)
  }

  /** Reports before the last are silent: they only count down, to no less than one. */
  lemma {:induction false} SilentReports(s: Service, es: seq<Event>, id: u64)
    requires NoTimeOut(es, id) && (id in s.pool ==> Occurrences(es, ReportFor(id)) < s.pool[id].executorNum)
    ensures var s1 := HandleAll(s, es);
            && Deliveries(s1, id) == Deliveries(s, id) && Signs(s1, id) == Signs(s, id)
            && (id in s1.pool ==>
                  && id in s.pool && s1.pool[id].executorNum >= 1
                  && s1.pool[id] == Register(s.pool[id].executorNum - Occurrences(es, ReportFor(id)),
                                             s.pool[id].callback))
            && (NoDeath(es, id) ==> (id in s1.pool <==> id in s.pool))
    decreases |es|
  {
    if |es| > 0 {
      var s1 := Handle(s, es[0]);
      HandleMeans(s, es[0], id);
      assert NoTimeOut(es[1..], id);
      SilentReports(s1, es[1..], id);
    }
  }

  // ----- a whole schedule ------------------------------------------------------------------------

  function Flat(gaps: seq<seq<Event>>): seq<Event> {
    if |gaps| == 0 then [] else gaps[0] + Flat(gaps[1..])
  }

  function LastFailure(ret: i32, starts: seq<Start>): i32
    decreases |starts|
  {
    if |starts| == 0 then ret else LastFailure(NextRet(ret, starts[0]), starts[1..])
  }

  lemma {:induction false} HandleAllAppend(s: Service, es: seq<Event>, fs: seq<Event>)
    ensures HandleAll(s, es + fs) == HandleAll(HandleAll(s, es), fs)
    decreases |es|
  {
    if |es| == 0 {
      assert es + fs == fs;
    } else {
      assert (es + fs)[1..] == es[1..] + fs && (es + fs)[0] == es[0];
      HandleAllAppend(Handle(s, es[0]), es[1..], fs);
    }
  }

  /** The starts themselves change nothing: the loop handles the events between them and keeps the last failure. */
  lemma {:induction false} BeginFlat(s: Service, ret: i32, starts: seq<Start>, gaps: seq<seq<Event>>)
    requires |gaps| == |starts|
    ensures Begin(s, ret, starts, gaps) == (HandleAll(s, Flat(gaps)), LastFailure(ret, starts))
    decreases |starts|
  {
    if |starts| > 0 {
      BeginFlat(HandleAll(s, gaps[0]), NextRet(ret, starts[0]), starts[1..], gaps[1..]);
      HandleAllAppend(s, gaps[0], Flat(gaps[1..]));
    }
  }

  /** The result is a failure exactly when some start fails; then fewer starts succeed than there are. */
  lemma {:induction false} LastFailureIff(ret: i32, starts: seq<Start>)
    ensures LastFailure(ret, starts) == SUCCESS <==>
            ret == SUCCESS && forall k :: 0 <= k < |starts| ==> !Fails(starts[k])
    ensures Occurrences(starts, Succeeds) <= |starts|
    ensures ret == SUCCESS && LastFailure(ret, starts) != SUCCESS ==> Occurrences(starts, Succeeds) < |starts|
    decreases |starts|
  {
    if |starts| > 0 {
      LastFailureIff(NextRet(ret, starts[0]), starts[1..]);
      LastFailureIff(SUCCESS, starts[1..]);
      assert (forall k :: 0 <= k < |starts| ==> !Fails(starts[k])) <==>
             !Fails(starts[0]) && forall k :: 0 <= k < |starts[1..]| ==> !Fails(starts[1..][k]) by {
        if forall k :: 0 <= k < |starts| ==> !Fails(starts[k]) {
          forall k | 0 <= k < |starts[1..]| ensures !Fails(starts[1..][k]) {
            assert !Fails(starts[k + 1]);
          }
        }
        if !Fails(starts[0]) && forall k :: 0 <= k < |starts[1..]| ==> !Fails(starts[1..][k]) {
          forall k | 0 <= k < |starts| ensures !Fails(starts[k]) {
            assert k > 0 ==> starts[k] == starts[1..][k - 1];
          }
        }
      }
    }
  }

  /** The schedule is new to the pool, no timer fires before the starts end, and only executors that were started
      report meanwhile, each once. */
  ghost predicate Orderly(s: Service, id: u64, starts: seq<Start>, gaps: seq<seq<Event>>) {
    && |gaps| == |starts| && 1 <= |starts| <= 0xFFFF_FFFF && id !in s.pool
    && NoTimeOut(Flat(gaps), id) && Occurrences(Flat(gaps), ReportFor(id)) <= Occurrences(starts, Succeeds)
  }

  /** If a start fails, no report delivers before the failure path does; that path delivers the one result of the
      schedule, and nothing that happens later delivers or signs. */
  lemma FailedStartDeliversOnce(s: Service, id: u64, callback: nat, starts: seq<Start>, gaps: seq<seq<Event>>,
                                after: seq<Event>)
    requires Orderly(s, id, starts, gaps) && LastFailure(SUCCESS, starts) != SUCCESS
    ensures var before := HandleAll(Saved(s, id, callback, |starts|), Flat(gaps));
            var s1 := CoAuthHandle(s, id, callback, SUCCESS, starts, gaps);
            && Deliveries(before, id) == Deliveries(s, id) && Signs(before, id) == Signs(s, id)
            && s1.delivered == before.delivered + [Delivery(id, callback, LastFailure(SUCCESS, starts))]
            && id !in s1.pool && id !in s1.timers
            && Deliveries(HandleAll(s1, after), id) == Deliveries(s, id) + 1
            && Signs(HandleAll(s1, after), id) == Signs(s, id)
  {
    var saved := Saved(s, id, callback, |starts|);
    var before := HandleAll(saved, Flat(gaps));
    BeginFlat(saved, SUCCESS, starts, gaps);
    LastFailureIff(SUCCESS, starts);
    SilentReports(saved, Flat(gaps), id);
    var s1 := CoAuthHandle(s, id, callback, SUCCESS, starts, gaps);
    OccurrencesSnoc(before.delivered, Delivery(id, callback, LastFailure(SUCCESS, starts)), DeliveredFor(id));
    PotentialNeverGrows(s1, after, id);
    NothingLeft(s1, after, id);
  }

  /** A schedule that is not in the pool gets no delivery and no signature, whatever is reported. */
  lemma {:induction false} NothingLeft(s: Service, es: seq<Event>, id: u64)
    requires id !in s.pool
    ensures Deliveries(HandleAll(s, es), id) == Deliveries(s, id) && Signs(HandleAll(s, es), id) == Signs(s, id)
    decreases |es|
  {
    if |es| > 0 {
      HandleMeans(s, es[0], id);
      NothingLeft(Handle(s, es[0]), es[1..], id);
    }
  }

  // ----- exactly how often a schedule delivers ---------------------------------------------------

  /** Among es, before the client's death, a timer fires or the last of n reports arrives. */
  predicate Concludes(es: seq<Event>, id: u64, n: nat)
    decreases |es|
  {
    if |es| == 0 || es[0] == ClientDied(id) then false
    else if es[0].TimeOut? && es[0].id == id then true
    else if ReportFor(id)(es[0]) then n <= 1 || Concludes(es[1..], id, n - 1)
    else Concludes(es[1..], id, n)
  }

  /** Among es, before the client's death, a timer fires. */
  predicate EarlyTimeOut(es: seq<Event>, id: u64)
    decreases |es|
  {
    if |es| == 0 || es[0] == ClientDied(id) then false
    else (es[0].TimeOut? && es[0].id == id) || EarlyTimeOut(es[1..], id)
  }

  function One(b: bool): nat {
    if b then 1 else 0
  }

  /** A waiting schedule delivers once if the events conclude it, else not at all. */
  lemma {:induction false} DeliversIff(s: Service, es: seq<Event>, id: u64)
    requires id in s.pool
    ensures Deliveries(HandleAll(s, es), id) == Deliveries(s, id) + One(Concludes(es, id, s.pool[id].executorNum))
    decreases |es|
  {
    if |es| > 0 {
      var s1 := Handle(s, es[0]);
      HandleMeans(s, es[0], id);
      if id in s1.pool {
        DeliversIff(s1, es[1..], id);
      } else {
        NothingLeft(s1, es[1..], id);
      }
    }
  }

  /** With too few reports to be the last, only the timer concludes. */
  lemma {:induction false} ConcludesByTimer(es: seq<Event>, id: u64, n: nat)
    requires Occurrences(es, ReportFor(id)) < n
    ensures Concludes(es, id, n) <==> EarlyTimeOut(es, id)
    decreases |es|
  {
    if |es| > 0 {
      ConcludesByTimer(es[1..], id, if ReportFor(id)(es[0]) then n - 1 else n);
    }
  }

  /** The reports a schedule waits for once it is saved: an entry that is already there keeps its count. */
  function Waiting(s: Service, id: u64, n: nat): nat {
    if id in s.pool then s.pool[id].executorNum else n
  }

  /** The exact number of deliveries, whatever arrives and whenever: a failed start delivers on top of what its gaps
      concluded, and takes away what could come after; otherwise all events together conclude at most once. */
  lemma DeliveryCount(s: Service, id: u64, callback: nat, starts: seq<Start>, gaps: seq<seq<Event>>, after: seq<Event>)
    requires 1 <= |starts| == |gaps| <= 0xFFFF_FFFF
    ensures var end, n := HandleAll(CoAuthHandle(s, id, callback, SUCCESS, starts, gaps), after),
                Waiting(s, id, |starts|);
            && Deliveries(end, id) == Deliveries(s, id) +
                 (if LastFailure(SUCCESS, starts) != SUCCESS then 1 + One(Concludes(Flat(gaps), id, n))
                  else One(Concludes(Flat(gaps) + after, id, n)))
            && Signs(end, id) - Signs(s, id) <= Deliveries(end, id) - Deliveries(s, id)
  {
    var saved, ret := Saved(s, id, callback, |starts|), LastFailure(SUCCESS, starts);
    var before, s1 := HandleAll(saved, Flat(gaps)), CoAuthHandle(s, id, callback, SUCCESS, starts, gaps);
    BeginFlat(saved, SUCCESS, starts, gaps);
    PotentialNeverGrows(saved, Flat(gaps), id);
    if ret != SUCCESS {
      DeliversIff(saved, Flat(gaps), id);
      OccurrencesSnoc(before.delivered, Delivery(id, callback, ret), DeliveredFor(id));
      NothingLeft(s1, after, id);
    } else {
      HandleAllAppend(saved, Flat(gaps), after);
      DeliversIff(saved, Flat(gaps) + after, id);
      PotentialNeverGrows(before, after, id);
    }
  }

  /** A schedule delivers at most once exactly when no start fails, or nothing concludes it before the starts end. */
  lemma AtMostOnceIff(s: Service, id: u64, callback: nat, starts: seq<Start>, gaps: seq<seq<Event>>, after: seq<Event>)
    requires 1 <= |starts| == |gaps| <= 0xFFFF_FFFF
    ensures Deliveries(HandleAll(CoAuthHandle(s, id, callback, SUCCESS, starts, gaps), after), id)
            <= Deliveries(s, id) + 1 <==>
            (forall k :: 0 <= k < |starts| ==> !Fails(starts[k]))
                || !Concludes(Flat(gaps), id, Waiting(s, id, |starts|))
  {
    DeliveryCount(s, id, callback, starts, gaps, after);
    LastFailureIff(SUCCESS, starts);
  }

  /** When the schedule is new and only started executors report, each once, that is: when no start fails, or no timer
      fires before both the end of the starts and the client's death. */
  lemma AtMostOnceUnlessEarlyTimeOut(s: Service, id: u64, callback: nat, starts: seq<Start>, gaps: seq<seq<Event>>,
                                     after: seq<Event>)
    requires 1 <= |starts| == |gaps| <= 0xFFFF_FFFF && id !in s.pool
    requires Occurrences(Flat(gaps), ReportFor(id)) <= Occurrences(starts, Succeeds)
    ensures Deliveries(HandleAll(CoAuthHandle(s, id, callback, SUCCESS, starts, gaps), after), id)
            <= Deliveries(s, id) + 1 <==>
            (forall k :: 0 <= k < |starts| ==> !Fails(starts[k])) || !EarlyTimeOut(Flat(gaps), id)
  {
    AtMostOnceIff(s, id, callback, starts, gaps, after);
    LastFailureIff(SUCCESS, starts);
    if LastFailure(SUCCESS, starts) != SUCCESS {
      ConcludesByTimer(Flat(gaps), id, |starts|);
    }
  }

  /** A schedule that is never saved delivers its one error at once; an earlier entry of the id is left as it was. */
  lemma UnsavedDeliversOnce(s: Service, id: u64, callback: nat, infoRet: i32, starts: seq<Start>, gaps: seq<seq<Event>>)
    requires |gaps| == |starts| <= 0xFFFF_FFFF && (infoRet != SUCCESS || |starts| == 0)
    ensures var s1 := CoAuthHandle(s, id, callback, infoRet, starts, gaps);
            Deliveries(s1, id) == Deliveries(s, id) + 1 && s1 == s.(delivered := s1.delivered)
  {
    OccurrencesSnoc(s.delivered, Delivery(id, callback, if infoRet != SUCCESS then infoRet else FAIL),
                    DeliveredFor(id));
  }

  /** When no start fails, the reports up to the last of the executors asked are silent; the last one delivers its
      own result, ends the timer and takes the schedule out of the pool. */
  lemma LastReportDelivers(s: Service, id: u64, callback: nat, starts: seq<Start>, gaps: seq<seq<Event>>,
                           more: seq<Event>, r: Report, stray: u64)
    requires Orderly(s, id, starts, gaps) && LastFailure(SUCCESS, starts) == SUCCESS
    requires var es := Flat(gaps) + more;
             NoTimeOut(es, id) && NoDeath(es, id) && Occurrences(es, ReportFor(id)) == |starts| - 1
    ensures var before := HandleAll(CoAuthHandle(s, id, callback, SUCCESS, starts, gaps), more);
            var s1 := Handle(before, Finish(id, r, stray));
            && Deliveries(before, id) == Deliveries(s, id) && Signs(before, id) == Signs(s, id)
            && before.pool.Keys >= {id} && before.pool[id] == Register(1, callback)
            && s1.delivered == before.delivered + [Delivery(id, callback, if !r.hasResult then FAIL
                                                                         else if r.code == SUCCESS then r.signRet
                                                                         else r.code)]
            && id !in s1.pool && id !in s1.timers
            && (Signs(s1, id) == Signs(s, id) + 1 <==> r.hasResult && r.code == SUCCESS)
  {
    var saved, es := Saved(s, id, callback, |starts|), Flat(gaps) + more;
    BeginFlat(saved, SUCCESS, starts, gaps);
    HandleAllAppend(saved, Flat(gaps), more);
    SilentReports(saved, es, id);
    var before := HandleAll(saved, es);
    OccurrencesSnoc(before.hal, Drop(id), SignedFor(id));
    OccurrencesSnoc(before.hal, Sign(id), SignedFor(id));
  }

  /** With fewer reports than executors, as when one had no callback to begin with, only the timer or the client's
      death ends the wait. */
  lemma TooFewReportsWait(s: Service, id: u64, callback: nat, starts: seq<Start>, gaps: seq<seq<Event>>,
                          more: seq<Event>)
    requires Orderly(s, id, starts, gaps) && LastFailure(SUCCESS, starts) == SUCCESS
    requires var es := Flat(gaps) + more;
             NoTimeOut(es, id) && NoDeath(es, id) && Occurrences(es, ReportFor(id)) < |starts|
    ensures var end := HandleAll(CoAuthHandle(s, id, callback, SUCCESS, starts, gaps), more);
            && Deliveries(end, id) == Deliveries(s, id) && id in end.pool
            && Deliveries(Handle(end, TimeOut(id, true)), id) == Deliveries(s, id) + 1
  {
    var saved, es := Saved(s, id, callback, |starts|), Flat(gaps) + more;
    BeginFlat(saved, SUCCESS, starts, gaps);
    HandleAllAppend(saved, Flat(gaps), more);
    SilentReports(saved, es, id);
    HandleMeans(HandleAll(saved, es), TimeOut(id, true), id);
  }

  /** A report for a schedule that is not in the pool never delivers; whether it claims success depends on the
      uninitialised count. */
  lemma UnknownReport(s: Service, id: u64, r: Report, stray: u64)
    requires id !in s.pool
    ensures OnFinish(s, id, r, stray).1.delivered == s.delivered && OnFinish(s, id, r, stray).1.pool == s.pool
    ensures OnFinish(s, id, r, stray).0 == SUCCESS <==> stray > 1
    ensures OnFinish(s, id, r, stray).1.hal == if stray > 1 then s.hal else s.hal + [Drop(id)]
  {}

  /** A timer that fires while the executors are still being started makes a failed start deliver a second time. */
  lemma EarlyTimeOutDeliversTwice(id: u64)
    ensures var s := Service(map[], {}, [], []);
            var s1 := CoAuthHandle(s, id, 7, SUCCESS, [Asked(FAIL)], [[TimeOut(id, true)]]);
            s1.delivered == [Delivery(id, 7, TIMEOUT), Delivery(id, 7, FAIL)]
  {
    var s := Service(map[], {}, [], []);
    var saved, starts, gap := Saved(s, id, 7, 1), [Asked(FAIL)], [TimeOut(id, true)];
    var gaps := [gap];
    assert |gap[1..]| == 0 && |starts[1..]| == 0 && |gaps[1..]| == 0;
    assert HandleAll(saved, gap) == HandleAll(Handle(saved, gap[0]), gap[1..]) == Handle(saved, gap[0]);
    assert Begin(saved, SUCCESS, starts, gaps) == Begin(HandleAll(saved, gap), FAIL, starts[1..], gaps[1..]);
  }

  // ----- what is delivered, and to whom ----------------------------------------------------------

  /** The code a schedule concluded by the event delivers. */
  predicate Explains(e: Event, id: u64, code: i32) {
    match e
    case TimeOut(other, _) => other == id && code == 4
    case Finish(other, r, _) => other == id
        && code == (if !r.hasResult then 1 else if r.code == 0 then r.signRet else r.code)
    case ClientDied(_) => false
  }

  /** d tells the callback of a waiting schedule, which then waits no more, what the event came to. */
  ghost predicate Tells(s: Service, e: Event, s1: Service, d: Delivery) {
    && d.scheduleId in s.pool && d.scheduleId !in s1.pool && d.callback == s.pool[d.scheduleId].callback
    && Explains(e, d.scheduleId, d.code)
  }

  lemma HandleTells(s: Service, e: Event)
    ensures var s1 := Handle(s, e);
            s1.delivered == s.delivered || exists d :: s1.delivered == s.delivered + [d] && Tells(s, e, s1, d)
  {
    var s1 := Handle(s, e);
    if s1.delivered != s.delivered {
      var d := s1.delivered[|s.delivered|];
      assert s1.delivered == s.delivered + [d] && Tells(s, e, s1, d);
    }
  }

  /** The deliveries for the id after the first n go to the callback, each with the code of one of the events. */
  ghost predicate ToldTo(delivered: seq<Delivery>, n: nat, id: u64, callback: nat, es: seq<Event>) {
    forall k :: n <= k < |delivered| && delivered[k].scheduleId == id ==>
      delivered[k].callback == callback && exists e :: e in es && Explains(e, id, delivered[k].code)
  }

  /** Whatever happens to a waiting schedule, its own callback is told, with the code of one of the events. */
  lemma {:induction false} OwnDeliveries(s: Service, es: seq<Event>, id: u64, callback: nat)
    requires id in s.pool ==> s.pool[id].callback == callback
    ensures var end := HandleAll(s, es);
            s.delivered <= end.delivered && ToldTo(end.delivered, |s.delivered|, id, callback, es)
    decreases |es|
  {
    if |es| > 0 {
      var s1, end := Handle(s, es[0]), HandleAll(s, es);
      HandleMeans(s, es[0], id);
      HandleTells(s, es[0]);
      OwnDeliveries(s1, es[1..], id, callback);
      forall k | |s.delivered| <= k < |end.delivered| && end.delivered[k].scheduleId == id
        ensures end.delivered[k].callback == callback && exists e :: e in es && Explains(e, id, end.delivered[k].code)
      {
        if k < |s1.delivered| {
          assert end.delivered[k] == s1.delivered[k];
          assert es[0] in es;
        } else {
          var e :| e in es[1..] && Explains(e, id, end.delivered[k].code);
          assert e in es;
        }
      }
    }
  }

  /** Everything delivered for a schedule with a new id, from its start on, goes to its client, with the code of an
      event or of a failed start. */
  lemma ClientIsTold(s: Service, id: u64, callback: nat, starts: seq<Start>, gaps: seq<seq<Event>>, after: seq<Event>)
    requires 1 <= |starts| == |gaps| <= 0xFFFF_FFFF && id !in s.pool
    ensures var end, es := HandleAll(CoAuthHandle(s, id, callback, SUCCESS, starts, gaps), after), Flat(gaps) + after;
            && s.delivered <= end.delivered
            && forall k :: |s.delivered| <= k < |end.delivered| && end.delivered[k].scheduleId == id ==>
                 && end.delivered[k].callback == callback
                 && ((exists e :: e in es && Explains(e, id, end.delivered[k].code))
                     || (exists j: nat :: LastToFail(starts, j) && end.delivered[k].code == starts[j].ret))
  {
    var saved, ret := Saved(s, id, callback, |starts|), LastFailure(SUCCESS, starts);
    var s1 := CoAuthHandle(s, id, callback, SUCCESS, starts, gaps);
    BeginFlat(saved, SUCCESS, starts, gaps);
    OwnDeliveries(saved, Flat(gaps), id, callback);
    StaysWith(saved, Flat(gaps), id, callback);
    OwnDeliveries(s1, after, id, callback);
    if ret != SUCCESS {
      LastFailureOf(SUCCESS, starts);
    }
  }

  lemma {:induction false} StaysWith(s: Service, es: seq<Event>, id: u64, callback: nat)
    requires id in s.pool ==> s.pool[id].callback == callback
    ensures id in HandleAll(s, es).pool ==> HandleAll(s, es).pool[id].callback == callback
    decreases |es|
  {
    if |es| > 0 {
      HandleMeans(s, es[0], id);
      StaysWith(Handle(s, es[0]), es[1..], id, callback);
    }
  }

  /** Start k fails, and none after it. */
  predicate LastToFail(starts: seq<Start>, k: nat) {
    k < |starts| && Fails(starts[k]) && forall j :: k < j < |starts| ==> !Fails(starts[j])
  }

  /** The failure kept is that of the last start that fails. */
  lemma {:induction false} LastFailureOf(ret: i32, starts: seq<Start>)
    ensures if exists k: nat :: LastToFail(starts, k)
            then exists k: nat :: LastToFail(starts, k) && LastFailure(ret, starts) == starts[k].ret
            else LastFailure(ret, starts) == ret
    decreases |starts|
  {
    if |starts| > 0 {
      var rest := starts[1..];
      LastFailureOf(NextRet(ret, starts[0]), rest);
      if k: nat :| LastToFail(rest, k) && LastFailure(NextRet(ret, starts[0]), rest) == rest[k].ret {
        assert forall j :: k + 1 < j < |starts| ==> starts[j] == rest[j - 1];
        assert LastToFail(starts, k + 1);
      } else {
        forall j | 0 < j < |starts| ensures !Fails(starts[j]) {
          NoneFails(rest, ret);
          assert starts[j] == rest[j - 1];
        }
        assert Fails(starts[0]) ==> LastToFail(starts, 0);
      }
    }
  }

  lemma {:induction false} NoneFails(starts: seq<Start>, ret: i32)
    requires !exists k: nat :: LastToFail(starts, k)
    ensures forall j :: 0 <= j < |starts| ==> !Fails(starts[j])
    decreases |starts|
  {
    if |starts| > 0 {
      var n := |starts| - 1;
      assert !LastToFail(starts, n);
      var front := starts[..n];
      forall k: nat | LastToFail(front, k) ensures false {
        assert LastToFail(starts, k);
      }
      NoneFails(front, ret);
      assert forall j :: 0 <= j < n ==> starts[j] == front[j];
    }
  }

  // ----- what is left in the HAL -----------------------------------------------------------------

  function EndsInHal(id: u64): HalCall -> bool {
    (c: HalCall) => c == Sign(id) || c == Drop(id)
  }

  /** While a schedule waits the HAL is not asked to end it. When it waits no more, the HAL was asked exactly if a timer
      fired and every executor accepted the cancellation, or the last report came without a result or with success: a
      last report of a failure, and the death of the client, leave the schedule in the HAL. */
  lemma EndedInHalIff(s: Service, e: Event, id: u64)
    requires id in s.pool
    ensures var s1 := Handle(s, e);
            && (id in s1.pool ==> Occurrences(s1.hal, EndsInHal(id)) == Occurrences(s.hal, EndsInHal(id)))
            && (id !in s1.pool ==>
                  Occurrences(s1.hal, EndsInHal(id)) == Occurrences(s.hal, EndsInHal(id)) +
                    One((e.TimeOut? && e.drops) || (e.Finish? && (!e.report.hasResult || e.report.code == 0))))
  {
    if !e.ClientDied? {
      OccurrencesSnoc(s.hal, Drop(e.id), EndsInHal(id));
      OccurrencesSnoc(s.hal, Sign(e.id), EndsInHal(id));
    }
  }

  /** Such a report: the client is told, and the HAL is not. */
  lemma LeftInHal(id: u64, code: i32)
    requires code != 0
    ensures var s := Service(map[id := Register(1, 7)], {id}, [], []);
            Handle(s, Finish(id, Report(code, true, 0), 0)) == Service(map[], {}, [Delivery(id, 7, code)], [])
  {
    var s := Service(map[id := Register(1, 7)], {id}, [], []);
    assert s.pool - {id} == map[] && s.timers - {id} == {};
  }

  // ----- the timers ------------------------------------------------------------------------------

  /** Every waiting schedule has a timer. */
  predicate TimersCover(s: Service) {
    forall id :: id in s.pool ==> id in s.timers
  }

  lemma HandleCovers(s: Service, e: Event)
    requires TimersCover(s)
    ensures TimersCover(Handle(s, e))
  {}

  lemma {:induction false} AllCovered(s: Service, es: seq<Event>)
    requires TimersCover(s)
    ensures TimersCover(HandleAll(s, es))
    decreases |es|
  {
    if |es| > 0 {
      HandleCovers(s, es[0]);
      AllCovered(Handle(s, es[0]), es[1..]);
    }
  }

  /** Whatever is handled and whatever happens, no schedule waits without a timer; a failed start ends its own. */
  lemma NoWaitWithoutTimer(s: Service, id: u64, callback: nat, infoRet: i32, starts: seq<Start>,
                           gaps: seq<seq<Event>>, after: seq<Event>)
    requires |gaps| == |starts| <= 0xFFFF_FFFF && TimersCover(s)
    ensures TimersCover(HandleAll(CoAuthHandle(s, id, callback, infoRet, starts, gaps), after))
    ensures var s1 := CoAuthHandle(s, id, callback, infoRet, starts, gaps);
            infoRet == SUCCESS && (exists x :: x in starts && Fails(x)) ==> id !in s1.pool && id !in s1.timers
  {
    var s1 := CoAuthHandle(s, id, callback, infoRet, starts, gaps);
    if infoRet == SUCCESS && |starts| > 0 {
      var saved := Saved(s, id, callback, |starts|);
      BeginFlat(saved, SUCCESS, starts, gaps);
      LastFailureIff(SUCCESS, starts);
      AllCovered(saved, Flat(gaps));
    }
    AllCovered(s1, after);
  }

  /** What a report for a waiting schedule returns: success while others are to come, and for the last one the failure
      to sign or the lack of a result, but success for the report of a failure. */
  lemma FinishReturns(s: Service, id: u64, r: Report, stray: u64)
    requires id in s.pool
    ensures OnFinish(s, id, r, stray).0 ==
            if s.pool[id].executorNum <= 1 && !r.hasResult then 1
            else if s.pool[id].executorNum <= 1 && r.code == 0 then r.signRet
            else 0
  {}
}
