/** Over any run of calls: a token once too old for the session stays too old. */
module HalSession {
  import opened Base
  import opened IdmSession
  import HalState
  import HalSchedules
  import UserIdmSpec

  /** The step a call makes on the session, if any. */
  function SessionStepOf(h: HalState.Hal, c: HalState.Call): Option<SessionStep> {
    match c
    case OpenSession(userId, env) => Some(OpenStep(userId, env))
    case Restart => Some(CloseStep)
    case CloseSession => Some(CloseStep)
    case InitSchedulation(p, env) =>
      var id := UserIdmSpec.Enroll(h.session, h.schedules, h.pool, h.db, p, env).3;
      if id.Some? then Some(AssociateStep(id.value)) else None
    case CancelSchedule => Some(BreakOffStep)
    case UpdateCredentialCall(_, _, _, _, now) =>
      if HalState.Update(h, c).0 == RESULT_SUCCESS then Some(RefreshStep(now)) else None
    case DeleteUserEnforce(_, _, _, now) =>
      if HalState.DeleteUser(h, c).0 == RESULT_SUCCESS then Some(RefreshStep(now)) else None
    case _ => None
  }

  lemma EnrolmentIsSessionStep(h: HalState.Hal, c: HalState.Call)
    requires c.InitSchedulation?
    ensures HalState.Step(h, c).session ==
            if SessionStepOf(h, c).None? then h.session else Step(h.session, SessionStepOf(h, c).value)
  {
    HalSchedules.EnrollAdds(h, c.param, c.enrollEnv);
  }

  lemma CallIsSessionStep(h: HalState.Hal, c: HalState.Call)
    ensures HalState.Step(h, c).session ==
            if SessionStepOf(h, c).None? then h.session else Step(h.session, SessionStepOf(h, c).value)
  {
    if c.InitSchedulation? {
      EnrolmentIsSessionStep(h, c);
    }
  }

  /** The steps a run of calls makes on the session. */
  function SessionSteps(h: HalState.Hal, calls: seq<HalState.Call>): seq<SessionStep>
    decreases |calls|
  {
    if |calls| == 0 then []
    else
      var step, rest := SessionStepOf(h, calls[0]), SessionSteps(HalState.Step(h, calls[0]), calls[1..]);
      if step.None? then rest else [step.value] + rest
  }

  lemma {:induction false} RunIsSessionRun(h: HalState.Hal, log: HalState.History, calls: seq<HalState.Call>)
    ensures HalState.Run(h, log, calls).0.session == Run(h.session, SessionSteps(h, calls))
    decreases |calls|
  {
    if |calls| > 0 {
      CallIsSessionStep(h, calls[0]);
      RunIsSessionRun(HalState.Step(h, calls[0]), HalState.Record(h, log, calls[0]), calls[1..]);
      var step, rest := SessionStepOf(h, calls[0]), SessionSteps(HalState.Step(h, calls[0]), calls[1..]);
      if step.Some? {
        assert ([step.value] + rest)[1..] == rest;
      }
    }
  }

  /** Once a session refuses a token time, no later state of the run accepts it, under a clock that does not go back. */
  lemma TooOldForever(h: HalState.Hal, log: HalState.History, calls: seq<HalState.Call>, clock: u64, tokenTime: u64)
    requires ThresholdPast(h.session, clock) && ClockForward(clock, SessionSteps(h, calls))
    requires h.session.Some? && !TokenTimeValid(h.session, tokenTime)
    ensures !TokenTimeValid(HalState.Run(h, log, calls).0.session, tokenTime)
  {
    RunIsSessionRun(h, log, calls);
    RefusedForever(h.session, clock, tokenTime, SessionSteps(h, calls));
  }

  /** From the start of the process: a token time refused after some calls is refused after any more calls. */
  lemma TooOldFromStart(calls: seq<HalState.Call>, more: seq<HalState.Call>, tokenTime: u64)
    requires HalState.EmptyCacheRun(HalState.START, calls + more)
    requires ClockForward(0, SessionSteps(HalState.START, calls))
    requires var (h, log) := HalState.Run(HalState.START, HalState.NOTHING, calls);
             && ClockForward(EndClock(0, SessionSteps(HalState.START, calls)), SessionSteps(h, more))
             && h.session.Some? && !TokenTimeValid(h.session, tokenTime)
    ensures var (h, log) := HalState.Run(HalState.START, HalState.NOTHING, calls);
            !TokenTimeValid(HalState.Run(h, log, more).0.session, tokenTime)
  {
    var (h, log) := HalState.Run(HalState.START, HalState.NOTHING, calls);
    RunIsSessionRun(HalState.START, HalState.NOTHING, calls);
    ThresholdStaysPast(None, 0, SessionSteps(HalState.START, calls));
    TooOldForever(h, log, more, EndClock(0, SessionSteps(HalState.START, calls)), tokenTime);
  }

  /** A successful update or deletion of a user makes the session refuse every user token from before; a failed one
      leaves the session alone, and neither changes what it is for. */
  lemma SuccessRefusesOlder(h: HalState.Hal, c: HalState.Call, tokenTime: u64)
    requires c.UpdateCredentialCall? || c.DeleteUserEnforce?
    requires h.session.Some?
    ensures var done := if c.UpdateCredentialCall? then HalState.Update(h, c).0 == RESULT_SUCCESS
                        else HalState.DeleteUser(h, c).0 == RESULT_SUCCESS;
            var s := HalState.Step(h, c).session;
            && s.Some? && s.value.userId == h.session.value.userId && s.value.challenge == h.session.value.challenge
            && CurrentSchedule(s) == CurrentSchedule(h.session) && s.value.time == h.session.value.time
            && (TokenTimeValid(s, tokenTime) <==>
                if done then tokenTime >= c.now else TokenTimeValid(h.session, tokenTime))
  {
    CallIsSessionStep(h, c);
  }
}
