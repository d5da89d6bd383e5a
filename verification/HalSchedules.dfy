/** Over any run of calls: how schedules come and go, and how often one can be signed. */
module HalSchedules {
  import opened Base
  import IdmSession
  import opened Pool
  import opened CoAuth
  import opened ContextSpec
  import opened UserIdmSpec
  import opened HalState
  import DatabaseSpec
  import IdmCommon

  /** The list loses at most one schedule of an id, or everything. */
  ghost predicate Shrinks(ss: Option<seq<CoAuthSchedule>>, ss1: Option<seq<CoAuthSchedule>>) {
    ss1.None? || ss1 == Some([]) || (ss.Some? && (ss1 == ss || exists id :: ss1 == Remove(ss, id)))
  }

  /** What a call does to the live schedules: it makes one with a fresh id live, ends one with a signed token, or
      does neither. */
  ghost predicate ScheduleChange(ss: Option<seq<CoAuthSchedule>>, ss1: Option<seq<CoAuthSchedule>>,
                                 g: Option<Generated>, t: Option<ScheduleToken>) {
    && (g.Some? ==> Adds(ss, ss1, g.value.schedule) && Requested(g.value) && t.None?)
    && (t.Some? ==> Ends(ss, ss1, t.value))
    && (g.None? && t.None? ==> Shrinks(ss, ss1))
  }

  /** The schedule has one or two executors, all of the requested type. */
  predicate Requested(g: Generated) {
    ScheduleOk(g.schedule) && g.schedule.executors[0].authType == g.authType
  }

  ghost predicate Adds(ss: Option<seq<CoAuthSchedule>>, ss1: Option<seq<CoAuthSchedule>>, s: CoAuthSchedule) {
    ss.Some? && ss1 == Some([s] + ss.value) && s.scheduleId !in ScheduleIds(ss.value) && ScheduleOk(s)
  }

  ghost predicate Ends(ss: Option<seq<CoAuthSchedule>>, ss1: Option<seq<CoAuthSchedule>>, t: ScheduleToken) {
    && ss.Some? && ss1 == Remove(ss, t.scheduleId)
    && exists s :: && Lookup(ss.value, t.scheduleId) == Some(s) && |s.executors| > 0
                   && t.authType == s.executors[0].authType
  }

  /** Add either does nothing or puts the schedule in front. */
  lemma AddAdds(ss: Option<seq<CoAuthSchedule>>, pool: Option<seq<ExecutorInfo>>, authType: u32, blank: CoAuthSchedule,
                env: GenerateEnv, insertEnv: InsertEnv)
    requires Generate(ss, pool, authType, blank, env).Some?
    ensures var s := Generate(ss, pool, authType, blank, env).value;
            var ss1 := Add(ss, s, insertEnv).1;
            ss1 == ss || (Adds(ss, ss1, s) && ss1 != ss && s.executors[0].authType == authType
                          && s.scheduleMode == blank.scheduleMode)
  {
    GenerateOk(ss, pool, authType, blank, env);
    var s := Generate(ss, pool, authType, blank, env).value;
    assert |[s] + ss.value| == |ss.value| + 1;
  }

  lemma EnrollAdds(h: Hal, p: PermissionParam, env: EnrollEnv)
    ensures var (r, session, ss1, id) := Enroll(h.session, h.schedules, h.pool, h.db, p, env);
            var s := EnrollSchedule(h.session, h.schedules, h.pool, p, env);
            && (ss1 == h.schedules || (s.Some? && Adds(h.schedules, ss1, s.value) && ss1 != h.schedules
                                       && s.value.executors[0].authType == p.authType
                                       && s.value.scheduleMode == SCHEDULE_MODE_ENROLL
                                       && Permission(h.session, h.db, p, env) == RESULT_SUCCESS))
            && (r == RESULT_SUCCESS ==> && ss1 != h.schedules && h.session.Some?
                                        && session == IdmSession.Associate(h.session, s.value.scheduleId))
            && (r != RESULT_SUCCESS ==> session == h.session)
  {
    var s := EnrollSchedule(h.session, h.schedules, h.pool, p, env);
    if s.Some? {
      var challenge := if h.session.Some? then h.session.value.challenge else env.stray;
      AddAdds(h.schedules, h.pool, p.authType, IdmBlank(challenge, p.authSubType), env.generate, env.add);
      AddIff(h.schedules, s.value, env.add);
    }
  }

  lemma CreateAdds(ss: Option<seq<CoAuthSchedule>>, pool: Option<seq<ExecutorInfo>>, db: DatabaseSpec.Db,
                   p: AuthSolution, env: ContextEnv)
    ensures var ss1 := CreateSchedule(ss, pool, db, p, env).1;
            ss1 == ss || (ss1.Some? && |ss1.value| > 0 && ss1 != ss && Adds(ss, ss1, ss1.value[0])
                          && ss1.value[0].executors[0].authType == p.authType)
  {
    var credential := DatabaseSpec.QueryCredentialInfo(db, p.userId, p.authType,
                                                       IdmCommon.CredentialInfo(0, 0, 0, 0, 0)).1;
    var blank := AuthBlank(p.contextId, DEFAULT_TYPE, credential.templateId);
    if Generate(ss, pool, p.authType, blank, env.generate).Some? {
      AddAdds(ss, pool, p.authType, blank, env.generate, env.add);
    }
  }

  lemma SolveAdds(h: Hal, p: AuthSolution, env: ContextEnv)
    ensures var ss1 := GenerateSolution(h.contexts, h.schedules, h.pool, h.db, p, env).2;
            ss1 == h.schedules || (ss1.Some? && |ss1.value| > 0 && ss1 != h.schedules
                                   && Adds(h.schedules, ss1, ss1.value[0])
                                   && ss1.value[0].executors[0].authType == p.authType)
  {
    CreateAdds(h.schedules, h.pool, h.db, p, env);
  }

  lemma FinishEnds(ss: Option<seq<CoAuthSchedule>>, id: u64, msg: seq<byte>, env: FinishEnv)
    requires ss.Some? ==> SchedulesOk(ss.value)
    ensures var (r, ss1, t) := ScheduleFinish(ss, msg, BlankToken(id), env);
            && Shrinks(ss, ss1) && (ss1.Some? ==> ss.Some?)
            && (r == RESULT_SUCCESS && t.scheduleResult == 0 ==> Ends(ss, ss1, t))
  {
    var (r, ss1, t) := ScheduleFinish(ss, msg, BlankToken(id), env);
    if ValidMessage(msg) && r == RESULT_SUCCESS && t.scheduleResult == 0 {
      FinishSignsIff(ss, msg, BlankToken(id), env);
      var s, info :| Reports(ss, msg, BlankToken(id), env, s, info) && Verified(s, info, env)
        && SignedToken(t, BlankToken(id), s, info, env);
      assert Lookup(ss.value, t.scheduleId) == Some(s);
    } else if ss1 != ss {
      assert ss1 == Remove(ss, id);
    }
  }

  /** The calls that add, end or remove a schedule. */
  predicate TouchesSchedules(c: Call) {
    c.InitSchedulation? || c.SolutionCall? || c.GetScheduleToken? || c.DeleteScheduleInfo?
  }

  lemma OtherSchedules(h: Hal, c: Call)
    requires !TouchesSchedules(c)
    ensures Shrinks(h.schedules, Step(h, c).schedules) && NewSchedule(h, c).None? && NewToken(h, c).None?
  {}

  lemma CallChanges(h: Hal, c: Call)
    requires h.schedules.Some? ==> SchedulesOk(h.schedules.value)
    ensures ScheduleChange(h.schedules, Step(h, c).schedules, NewSchedule(h, c), NewToken(h, c))
  {
    if !TouchesSchedules(c) {
      OtherSchedules(h, c);
    } else if c.InitSchedulation? {
      EnrollAdds(h, c.param, c.enrollEnv);
    } else if c.SolutionCall? {
      SolveAdds(h, c.solution, c.contextEnv);
    } else if c.GetScheduleToken? {
      FinishEnds(h.schedules, c.scheduleId, c.msg, c.finishEnv);
      assert c.msg == [] ==> Step(h, c).schedules == Remove(h.schedules, c.scheduleId);
    } else {
      assert Step(h, c).schedules == Remove(h.schedules, c.scheduleId);
    }
  }

  // ----- live schedules and signed tokens --------------------------------------------------------

  function SignedFor(id: u64): ScheduleToken -> bool {
    (t: ScheduleToken) => t.scheduleId == id
  }

  function GeneratedAs(id: u64): Generated -> bool {
    (g: Generated) => g.schedule.scheduleId == id
  }

  function OrNone<T>(s: Option<seq<T>>): seq<T> {
    if s.None? then [] else s.value
  }

  /** The id is live or was signed no more often than it was generated. */
  predicate Tally(ss: Option<seq<CoAuthSchedule>>, log: History, id: u64) {
    Occurrences(OrNone(ss), HasScheduleId(id)) + Occurrences(log.signed, SignedFor(id))
    <= Occurrences(log.generated, GeneratedAs(id))
  }

  /** Every live schedule was generated. */
  ghost predicate LiveKnown(ss: Option<seq<CoAuthSchedule>>, log: History) {
    forall s :: s in OrNone(ss) ==> exists g :: g in log.generated && g.schedule == s
  }

  ghost predicate SchedulesTallied(h: Hal, log: History) {
    && (h.schedules.Some? ==> SchedulesOk(h.schedules.value))
    && (forall id :: Tally(h.schedules, log, id))
    && LiveKnown(h.schedules, log) && forall g :: g in log.generated ==> Requested(g)
  }

  predicate Grows(log: History, log1: History) {
    (forall g :: g in log.generated ==> g in log1.generated) && (forall t :: t in log.signed ==> t in log1.signed)
  }

  lemma RecordGrows(h: Hal, log: History, c: Call)
    ensures Grows(log, Record(h, log, c))
  {}

  lemma LiveStaysKnown(ss: Option<seq<CoAuthSchedule>>, ss1: Option<seq<CoAuthSchedule>>, g: Option<Generated>,
                       t: Option<ScheduleToken>, log: History, log1: History)
    requires ScheduleChange(ss, ss1, g, t) && LiveKnown(ss, log) && (ss.Some? ==> SchedulesOk(ss.value))
    requires Grows(log, log1) && log1.generated == With(log.generated, g)
    ensures LiveKnown(ss1, log1)
  {
    forall s | s in OrNone(ss1) ensures exists x :: x in log1.generated && x.schedule == s {
      if g.Some? && s == g.value.schedule {
        assert g.value in log1.generated;
      } else {
        StillLive(ss, ss1, g, t, s);
        var x :| x in log.generated && x.schedule == s;
        assert x in log1.generated;
      }
    }
  }

  lemma StillLive(ss: Option<seq<CoAuthSchedule>>, ss1: Option<seq<CoAuthSchedule>>, g: Option<Generated>,
                  t: Option<ScheduleToken>, s: CoAuthSchedule)
    requires ScheduleChange(ss, ss1, g, t) && (ss.Some? ==> SchedulesOk(ss.value))
    requires s in OrNone(ss1) && (g.Some? ==> s != g.value.schedule)
    ensures s in OrNone(ss)
  {
    if t.Some? {
      RemoveOk(ss.value, t.value.scheduleId);
    } else if g.None? && ss1 != ss && ss1 != Some([]) {
      var id :| ss1 == Remove(ss, id);
      RemoveOk(ss.value, id);
    }
  }

  lemma TallyKept(h: Hal, log: History, c: Call, id: u64)
    requires ScheduleChange(h.schedules, Step(h, c).schedules, NewSchedule(h, c), NewToken(h, c))
    requires Tally(h.schedules, log, id)
    ensures Tally(Step(h, c).schedules, Record(h, log, c), id)
  {
    TallyChange(h.schedules, Step(h, c).schedules, NewSchedule(h, c), NewToken(h, c), log.signed, log.generated, id);
  }

  lemma TallyChange(ss: Option<seq<CoAuthSchedule>>, ss1: Option<seq<CoAuthSchedule>>, g: Option<Generated>,
                    t: Option<ScheduleToken>, signed: seq<ScheduleToken>, generated: seq<Generated>, id: u64)
    requires ScheduleChange(ss, ss1, g, t)
    requires Occurrences(OrNone(ss), HasScheduleId(id)) + Occurrences(signed, SignedFor(id))
             <= Occurrences(generated, GeneratedAs(id))
    ensures Occurrences(OrNone(ss1), HasScheduleId(id)) + Occurrences(With(signed, t), SignedFor(id))
            <= Occurrences(With(generated, g), GeneratedAs(id))
  {
    if g.Some? {
      OccurrencesCons(g.value.schedule, ss.value, HasScheduleId(id));
      OccurrencesCons(g.value, generated, GeneratedAs(id));
    } else if t.Some? {
      OccurrencesRemove(ss.value, HasScheduleId(t.value.scheduleId), HasScheduleId(id));
      OccurrencesCons(t.value, signed, SignedFor(id));
    } else if ss.Some? && ss1 != ss && ss1.Some? && ss1 != Some([]) {
      var other :| ss1 == Remove(ss, other);
      OccurrencesRemove(ss.value, HasScheduleId(other), HasScheduleId(id));
    }
  }

  lemma SchedulesStayOk(ss: Option<seq<CoAuthSchedule>>, ss1: Option<seq<CoAuthSchedule>>, g: Option<Generated>,
                        t: Option<ScheduleToken>)
    requires ScheduleChange(ss, ss1, g, t) && (ss.Some? ==> SchedulesOk(ss.value)) && ss1.Some?
    ensures SchedulesOk(ss1.value)
  {
    if g.Some? {
      PrependOk(g.value.schedule, ss.value);
    } else if t.Some? {
      RemoveOk(ss.value, t.value.scheduleId);
    } else if ss1 != ss && ss1 != Some([]) {
      var id :| ss1 == Remove(ss, id);
      RemoveOk(ss.value, id);
    }
  }

  lemma PrependOk(s: CoAuthSchedule, ss: seq<CoAuthSchedule>)
    requires SchedulesOk(ss) && ScheduleOk(s) && s.scheduleId !in ScheduleIds(ss)
    ensures SchedulesOk([s] + ss)
  {
    forall k | 0 <= k < |ss| ensures OtherId(s, ss[k]) {
      assert ss[k] in ss;
    }
  }

  lemma StepTallied(h: Hal, log: History, c: Call)
    requires SchedulesTallied(h, log)
    ensures SchedulesTallied(Step(h, c), Record(h, log, c))
  {
    CallChanges(h, c);
    RecordGrows(h, log, c);
    LiveStaysKnown(h.schedules, Step(h, c).schedules, NewSchedule(h, c), NewToken(h, c), log, Record(h, log, c));
    if Step(h, c).schedules.Some? {
      SchedulesStayOk(h.schedules, Step(h, c).schedules, NewSchedule(h, c), NewToken(h, c));
    }
    forall id ensures Tally(Step(h, c).schedules, Record(h, log, c), id) {
      TallyKept(h, log, c, id);
    }
  }

  /** After any run: live ids are unique, every live schedule has one or two executors, all of the type it was requested
      for, and for each id the live entry and the signed tokens together are no more than the schedules generated with
      it. */
  lemma {:induction false} RunTallied(h: Hal, log: History, calls: seq<Call>)
    requires SchedulesTallied(h, log)
    ensures var (h1, log1) := Run(h, log, calls); SchedulesTallied(h1, log1)
    decreases |calls|
  {
    if |calls| > 0 {
      StepTallied(h, log, calls[0]);
      RunTallied(Step(h, calls[0]), Record(h, log, calls[0]), calls[1..]);
    }
  }

  /** ... in particular from the start; so a schedule id generated once is signed at most once. */
  lemma SignedAtMostOnce(calls: seq<Call>, id: u64)
    requires EmptyCacheRun(START, calls)
    ensures var (h, log) := Run(START, NOTHING, calls);
            && SchedulesTallied(h, log)
            && (Occurrences(log.generated, GeneratedAs(id)) <= 1 ==> Occurrences(log.signed, SignedFor(id)) <= 1)
  {
    RunTallied(START, NOTHING, calls);
    var (h, log) := Run(START, NOTHING, calls);
    assert Tally(h.schedules, log, id);
  }

  // ----- what is recorded ------------------------------------------------------------------------

  /** A token is recorded exactly when the call finished a live schedule on a success report that is signed with the key
      of its first verifier, and it is the token signed for that. */
  lemma RecordedTokenIff(h: Hal, c: Call, t: ScheduleToken)
    requires c.GetScheduleToken?
    ensures NewToken(h, c) == Some(t) <==>
            && t == ScheduleFinish(h.schedules, c.msg, BlankToken(c.scheduleId), c.finishEnv).2
            && exists s, info :: && Reports(h.schedules, c.msg, BlankToken(c.scheduleId), c.finishEnv, s, info)
                                 && Verified(s, info, c.finishEnv)
                                 && SignedToken(t, BlankToken(c.scheduleId), s, info, c.finishEnv)
  {
    FinishSignsIff(h.schedules, c.msg, BlankToken(c.scheduleId), c.finishEnv);
  }
}
