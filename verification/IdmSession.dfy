/** idm_session.c: the one edit session. */
module IdmSession {
  import opened Base

  const SESSION_VALIDITY_PERIOD := 600_000
  const MAX_CHALLENGE_GENERATION_TIMES := 5
  const INVALID_CHALLENGE: u64 := 0

  datatype SessionInfo = SessionInfo(scheduleId: u64, isScheduleValid: bool, userId: i32, time: u64,
                                     validAuthTokenTime: u64, challenge: u64)

  /** What up to five calls of SecureRandom would return; None is a failed call. */
  type ChallengeDraws = d: seq<Option<u64>> | |d| == MAX_CHALLENGE_GENERATION_TIMES
    witness seq(MAX_CHALLENGE_GENERATION_TIMES, _ => None)

  datatype OpenEnv = OpenEnv(malloced: bool, draws: ChallengeDraws, now: u64)

  /** The first draw that is not the invalid challenge, unless a call fails before it. */
  function Challenge(draws: seq<Option<u64>>): Option<u64> {
    if |draws| == 0 || draws[0].None? then None
    else if draws[0].value != INVALID_CHALLENGE then draws[0]
    else Challenge(draws[1..])
  }

  /** Draw k is c, and the ones before it are zero. */
  predicate FirstAfterZeros(draws: seq<Option<u64>>, k: nat, c: u64) {
    k < |draws| && draws[k] == Some(c) && forall j :: 0 <= j < k ==> draws[j] == Some(0)
  }

  /** The challenge is the first draw that is not zero, when no call fails before it and one comes. */
  lemma {:induction false} ChallengeIff(draws: seq<Option<u64>>, c: u64)
    ensures Challenge(draws) == Some(c) <==> c != 0 && exists k: nat :: FirstAfterZeros(draws, k, c)
  {
    if |draws| > 0 {
      ChallengeIff(draws[1..], c);
      if draws[0] == Some(0) {
        if k: nat :| FirstAfterZeros(draws[1..], k, c) {
          assert forall j :: 1 <= j < k + 1 ==> draws[j] == draws[1..][j - 1];
          assert FirstAfterZeros(draws, k + 1, c);
        }
        if k: nat :| FirstAfterZeros(draws, k, c) {
          if c != 0 {
            assert FirstAfterZeros(draws[1..], k - 1, c);
          }
        }
      } else if draws[0] == Some(c) {
        assert FirstAfterZeros(draws, 0, c);
      }
    }
  }

  /** OpenEditSession closes the session there is, even when it then fails. */
  function Open(userId: i32, env: OpenEnv): Option<SessionInfo> {
    var challenge := Challenge(env.draws);
    if !env.malloced || challenge.None? then None
    else Some(SessionInfo(0, false, userId, env.now, env.now, challenge.value))
  }

  function Refresh(s: Option<SessionInfo>, now: u64): Option<SessionInfo> {
    if s.None? then s else Some(s.value.(validAuthTokenTime := now))
  }

  function Associate(s: Option<SessionInfo>, scheduleId: u64): Option<SessionInfo> {
    if s.None? then s else Some(s.value.(scheduleId := scheduleId, isScheduleValid := true))
  }

  function BreakOff(s: Option<SessionInfo>): Option<SessionInfo> {
    if s.None? then s else Some(s.value.(isScheduleValid := false))
  }

  predicate TokenTimeValid(s: Option<SessionInfo>, tokenTime: u64) {
    s.Some? && tokenTime >= s.value.validAuthTokenTime
  }

  function CurrentSchedule(s: Option<SessionInfo>): Option<u64> {
    if s.None? || !s.value.isScheduleValid then None else Some(s.value.scheduleId)
  }

  /** No session, a clock behind its opening, or more than ten minutes past it. */
  predicate TimedOut(s: Option<SessionInfo>, now: u64) {
    s.None? || now < s.value.time || now - s.value.time > SESSION_VALIDITY_PERIOD
  }

  class Session {
    var session: Option<SessionInfo>  // g_session

    constructor ()
      ensures session == None
    {
      session := None;
    }

    /** Zero when a call fails or all five draws are zero. */
    method GenerateChallenge(draws: ChallengeDraws) returns (challenge: u64)
      ensures challenge == if Challenge(draws).Some? then Challenge(draws).value else INVALID_CHALLENGE
      ensures Challenge(draws).Some? ==> challenge != INVALID_CHALLENGE
    {
      challenge := 0;
      var i := 0;
      assert draws[0..] == draws;
      while i < MAX_CHALLENGE_GENERATION_TIMES
        invariant 0 <= i <= |draws| && challenge == INVALID_CHALLENGE
        invariant Challenge(draws) == Challenge(draws[i..])
      {
        if draws[i].None? {
          return INVALID_CHALLENGE;
        }
        if draws[i].value != INVALID_CHALLENGE {
          return draws[i].value;
        }
        assert draws[i..][1..] == draws[i + 1..];
        i := i + 1;
      }
    }

    method OpenEditSession(userId: i32, env: OpenEnv) returns (r: ResultCode, challenge: u64)
      modifies this
      ensures session == Open(userId, env)
      ensures r == RESULT_SUCCESS <==> session.Some?
      ensures r == RESULT_SUCCESS ==> challenge == session.value.challenge != INVALID_CHALLENGE
    {
      session := None;
      if !env.malloced {
        return RESULT_NO_MEMORY, 0;
      }
      challenge := GenerateChallenge(env.draws);
      if challenge == INVALID_CHALLENGE {
        return RESULT_GENERAL_ERROR, 0;
      }
      session := Some(SessionInfo(0, false, userId, env.now, env.now, challenge));
      return RESULT_SUCCESS, challenge;
    }

    method RefreshValidTokenTime(now: u64)
      modifies this
      ensures session == Refresh(old(session), now)
    {
      if session.Some? {
        session := Some(session.value.(validAuthTokenTime := now));
      }
    }

    method CloseEditSession() returns (r: ResultCode)
      modifies this
      ensures session == None && r == if old(session).None? then RESULT_GENERAL_ERROR else RESULT_SUCCESS
    {
      if session.None? {
        return RESULT_GENERAL_ERROR;
      }
      session := None;
      return RESULT_SUCCESS;
    }

    method AssociateCoauthSchedule(scheduleId: u64) returns (r: ResultCode)
      modifies this
      ensures session == Associate(old(session), scheduleId)
      ensures r == if old(session).None? then RESULT_NEED_INIT else RESULT_SUCCESS
    {
      if session.None? {
        return RESULT_NEED_INIT;
      }
      session := Some(session.value.(scheduleId := scheduleId, isScheduleValid := true));
      return RESULT_SUCCESS;
    }

    method BreakOffCoauthSchedule()
      modifies this
      ensures session == BreakOff(old(session))
    {
      if session.Some? {
        session := Some(session.value.(isScheduleValid := false));
      }
    }
  }

  // ----- the threshold for token times over a run ------------------------------------------------

  datatype SessionStep =
    | OpenStep(userId: i32, env: OpenEnv)
    | CloseStep
    | RefreshStep(now: u64)
    | AssociateStep(scheduleId: u64)
    | BreakOffStep

  function Step(s: Option<SessionInfo>, step: SessionStep): Option<SessionInfo> {
    match step
    case OpenStep(userId, env) => Open(userId, env)
    case CloseStep => None
    case RefreshStep(now) => Refresh(s, now)
    case AssociateStep(scheduleId) => Associate(s, scheduleId)
    case BreakOffStep => BreakOff(s)
  }

  function Run(s: Option<SessionInfo>, steps: seq<SessionStep>): Option<SessionInfo>
    decreases |steps|
  {
    if |steps| == 0 then s else Run(Step(s, steps[0]), steps[1..])
  }

  /** The clock after a step that starts when it shows clock. */
  function Clock(clock: u64, step: SessionStep): u64 {
    match step
    case OpenStep(_, env) => env.now
    case RefreshStep(now) => now
    case _ => clock
  }

  /** No step reads an earlier time than the steps before it. */
  predicate ClockForward(clock: u64, steps: seq<SessionStep>)
    decreases |steps|
  {
    |steps| == 0 || (clock <= Clock(clock, steps[0]) && ClockForward(Clock(clock, steps[0]), steps[1..]))
  }

  /** The threshold never lies in the future. */
  predicate ThresholdPast(s: Option<SessionInfo>, clock: u64) {
    s.Some? ==> s.value.validAuthTokenTime <= clock
  }

  /** Over a run under a clock that does not go back the threshold never decreases, whether the session is
      refreshed, closed or opened again. */
  lemma {:induction false} ThresholdMonotone(s: Option<SessionInfo>, clock: u64, floor: u64, steps: seq<SessionStep>)
    requires ThresholdPast(s, clock) && ClockForward(clock, steps)
    requires floor <= clock && (s.Some? ==> floor <= s.value.validAuthTokenTime)
    ensures Run(s, steps).Some? ==> floor <= Run(s, steps).value.validAuthTokenTime
    decreases |steps|
  {
    if |steps| > 0 {
      ThresholdMonotone(Step(s, steps[0]), Clock(clock, steps[0]), floor, steps[1..]);
    }
  }

  /** A token older than the threshold is refused in every later state. */
  lemma RefusedForever(s: Option<SessionInfo>, clock: u64, tokenTime: u64, steps: seq<SessionStep>)
    requires ThresholdPast(s, clock) && ClockForward(clock, steps)
    requires s.Some? && !TokenTimeValid(s, tokenTime)
    ensures !TokenTimeValid(Run(s, steps), tokenTime)
  {
    ThresholdMonotone(s, clock, s.value.validAuthTokenTime, steps);
  }

  function EndClock(clock: u64, steps: seq<SessionStep>): u64
    decreases |steps|
  {
    if |steps| == 0 then clock else EndClock(Clock(clock, steps[0]), steps[1..])
  }

  /** A run that starts with the threshold in the past, as one without a session does, ends so. */
  lemma {:induction false} ThresholdStaysPast(s: Option<SessionInfo>, clock: u64, steps: seq<SessionStep>)
    requires ThresholdPast(s, clock) && ClockForward(clock, steps)
    ensures clock <= EndClock(clock, steps) && ThresholdPast(Run(s, steps), EndClock(clock, steps))
    decreases |steps|
  {
    if |steps| > 0 {
      ThresholdStaysPast(Step(s, steps[0]), Clock(clock, steps[0]), steps[1..]);
    }
  }
}
