/** Over any run of calls: contexts are one-shot, and no user token claims more trust than its context was given. */
module HalContexts {
  import opened Base
  import opened CoAuth
  import opened ContextSpec
  import opened HalState
  import opened HalSchedules
  import AuthLevel

  function IssuedFor(id: u64): Issued -> bool {
    (i: Issued) => i.contextId == id
  }

  function SolvedAs(id: u64): Solved -> bool {
    (s: Solved) => s.context.contextId == id
  }

  /** What a call does to the live contexts: it generates one under a new id, ends one with a user token, or
      does neither. */
  ghost predicate ContextChange(cs: Option<seq<Context>>, cs1: Option<seq<Context>>, s: Option<Solved>,
                                i: Option<Issued>) {
    && (s.Some? ==> Generates(cs, cs1, s.value) && i.None?)
    && (i.Some? ==> Issues(cs, cs1, i.value))
    && (s.None? && i.None? ==> Loses(cs, cs1))
  }

  ghost predicate Loses(cs: Option<seq<Context>>, cs1: Option<seq<Context>>) {
    cs1.None? || cs1 == Some([]) || (cs.Some? && (cs1 == cs || exists id :: cs1 == Destroy(cs, id)))
  }

  ghost predicate Generates(cs: Option<seq<Context>>, cs1: Option<seq<Context>>, s: Solved) {
    && cs.Some? && ContextsOk([s.context] + cs.value) && Requested(s)
    && Loses(Some([s.context] + cs.value), cs1)
  }

  /** The context is the one requested, with no more trust than its user and type had then. */
  predicate Requested(s: Solved) {
    IsRequested(s.context, s.request) && s.request.authTrustLevel <= s.atl
  }

  /** The token claims user, challenge, type and trust level of the context. */
  predicate ClaimsContext(t: UserAuthToken, c: Context) {
    t.userId == c.userId && t.challenge == c.challenge && t.authType == c.authType
        && t.authTrustLevel == c.authTrustLevel
  }

  ghost predicate Issues(cs: Option<seq<Context>>, cs1: Option<seq<Context>>, i: Issued) {
    && IsLive(cs, i.contextId) && cs1 == Destroy(cs, i.contextId)
    && ClaimsContext(i.token, ContextOf(cs, i.contextId))
  }

  lemma SolveGenerates(h: Hal, p: AuthSolution, env: ContextEnv)
    requires h.contexts.Some? ==> ContextsOk(h.contexts.value)
    ensures ContextChange(h.contexts, GenerateSolution(h.contexts, h.schedules, h.pool, h.db, p, env).1,
                          NewContext(h, SolutionCall(p, env)), None)
  {
    var cs1 := GenerateSolution(h.contexts, h.schedules, h.pool, h.db, p, env).1;
    var (c, mid, _) := GenerateContext(h.contexts, h.schedules, h.pool, h.db, p, env);
    GenerateContextOk(h.contexts, h.schedules, h.pool, h.db, p, env);
    if c.Some? {
      assert cs1 == mid || cs1 == Destroy(mid, p.contextId);
    }
  }

  lemma ResultIssues(h: Hal, id: u64, t: ScheduleToken, out: UserAuthToken, env: ResultEnv)
    requires h.contexts.Some? ==> ContextsOk(h.contexts.value)
    ensures ContextChange(h.contexts, RequestAuthResult(h.contexts, h.db, id, t, out, env).1, None,
                          NewUserToken(h, RequestResult(id, t, out, env)))
  {
    if NewUserToken(h, RequestResult(id, t, out, env)).Some? && h.contexts.Some? {
      UserTokenClaims(h.contexts.value, h.db, id, t, out, env);
    }
    var cs1 := RequestAuthResult(h.contexts, h.db, id, t, out, env).1;
    assert cs1 == h.contexts || cs1 == Destroy(h.contexts, id);
  }

  lemma OtherContexts(h: Hal, c: Call)
    requires !c.SolutionCall? && !c.RequestResult? && !c.CancelContext?
    ensures Loses(h.contexts, Step(h, c).contexts) && NewContext(h, c).None? && NewUserToken(h, c).None?
  {}

  lemma CallContexts(h: Hal, c: Call)
    requires h.contexts.Some? ==> ContextsOk(h.contexts.value)
    ensures ContextChange(h.contexts, Step(h, c).contexts, NewContext(h, c), NewUserToken(h, c))
  {
    if c.SolutionCall? {
      SolveGenerates(h, c.solution, c.contextEnv);
    } else if c.RequestResult? {
      ResultIssues(h, c.contextId, c.token, c.out, c.resultEnv);
    } else if c.CancelContext? {
      assert Step(h, c).contexts == h.contexts || Step(h, c).contexts == Destroy(h.contexts, c.contextId);
    } else {
      OtherContexts(h, c);
    }
  }

  // ----- one user token per generated context ----------------------------------------------------

  /** The id is live or was issued a token no more often than a context was generated with it. */
  predicate ContextTally(cs: Option<seq<Context>>, issued: seq<Issued>, solved: seq<Solved>, id: u64) {
    Occurrences(OrNone(cs), HasContextId(id)) + Occurrences(issued, IssuedFor(id)) <= Occurrences(solved, SolvedAs(id))
  }

  lemma LosesTally(cs: Option<seq<Context>>, cs1: Option<seq<Context>>, id: u64)
    requires Loses(cs, cs1)
    ensures Occurrences(OrNone(cs1), HasContextId(id)) <= Occurrences(OrNone(cs), HasContextId(id))
  {
    if cs1.Some? && cs1 != Some([]) && cs1 != cs {
      var other :| cs1 == Destroy(cs, other);
      OccurrencesRemove(cs.value, HasContextId(other), HasContextId(id));
    }
  }

  lemma TallyChanges(cs: Option<seq<Context>>, cs1: Option<seq<Context>>, s: Option<Solved>, i: Option<Issued>,
                     issued: seq<Issued>, solved: seq<Solved>, id: u64)
    requires ContextChange(cs, cs1, s, i) && ContextTally(cs, issued, solved, id)
    ensures ContextTally(cs1, With(issued, i), With(solved, s), id)
  {
    if s.Some? {
      LosesTally(Some([s.value.context] + cs.value), cs1, id);
      OccurrencesCons(s.value.context, cs.value, HasContextId(id));
      OccurrencesCons(s.value, solved, SolvedAs(id));
    } else if i.Some? {
      OccurrencesRemove(cs.value, HasContextId(i.value.contextId), HasContextId(id));
      OccurrencesCons(i.value, issued, IssuedFor(id));
    } else {
      LosesTally(cs, cs1, id);
    }
  }

  // ----- trust -----------------------------------------------------------------------------------

  /** The context was generated as requested, with no more trust than its user and type had at that time. */
  ghost predicate Backed(solved: seq<Solved>, c: Context) {
    exists s :: s in solved && s.context == c && Requested(s)
  }

  ghost predicate AllBacked(solved: seq<Solved>, cs: seq<Context>) {
    forall c :: c in cs ==> Backed(solved, c)
  }

  /** The token claims the user, challenge, type and trust level of a request for a context with the id, and no more
      trust than the user and type had when the context was generated. */
  predicate EarnedBy(s: Solved, i: Issued) {
    && s.request.contextId == i.contextId && i.token.userId == s.request.userId
    && i.token.challenge == s.request.challenge && i.token.authType == s.request.authType
    && i.token.authTrustLevel == s.request.authTrustLevel <= s.atl
  }

  ghost predicate Earned(solved: seq<Solved>, i: Issued) {
    exists s :: s in solved && EarnedBy(s, i)
  }

  lemma LosesBacked(cs: Option<seq<Context>>, cs1: Option<seq<Context>>, solved: seq<Solved>)
    requires Loses(cs, cs1) && AllBacked(solved, OrNone(cs)) && (cs.Some? ==> ContextsOk(cs.value))
    ensures AllBacked(solved, OrNone(cs1)) && (cs1.Some? ==> ContextsOk(cs1.value))
  {
    if cs1.Some? && cs1 != Some([]) && cs1 != cs {
      var id :| cs1 == Destroy(cs, id);
      DestroyOk(cs.value, id);
    }
  }

  lemma BackedWith(solved: seq<Solved>, cs: seq<Context>, s: Solved)
    requires AllBacked(solved, cs) && Requested(s)
    ensures AllBacked([s] + solved, [s.context] + cs)
  {
    var all := [s] + solved;
    forall c | c in [s.context] + cs ensures Backed(all, c) {
      if c == s.context {
        assert all[0] in all;
      } else {
        var t :| t in solved && t.context == c && Requested(t);
        assert t in all;
      }
    }
  }

  lemma EarnedWith(solved: seq<Solved>, s: Option<Solved>, i: Issued)
    requires Earned(solved, i)
    ensures Earned(With(solved, s), i)
  {
    var t :| t in solved && EarnedBy(t, i);
    assert t in With(solved, s);
  }

  lemma IssuesEarned(cs: Option<seq<Context>>, cs1: Option<seq<Context>>, solved: seq<Solved>, i: Issued)
    requires Issues(cs, cs1, i) && AllBacked(solved, OrNone(cs))
    ensures Earned(solved, i)
  {
    var c := ContextOf(cs, i.contextId);
    assert HasContextId(i.contextId)(c) && c in cs.value;
    var s :| s in solved && s.context == c && Requested(s);
    assert EarnedBy(s, i);
  }

  ghost predicate ContextsTracked(h: Hal, log: History) {
    && (h.contexts.Some? ==> ContextsOk(h.contexts.value))
    && (forall id :: ContextTally(h.contexts, log.issued, log.solved, id))
    && AllBacked(log.solved, OrNone(h.contexts))
    && (forall i :: i in log.issued ==> Earned(log.solved, i))
  }

  lemma StepBacked(cs: Option<seq<Context>>, cs1: Option<seq<Context>>, s: Option<Solved>, i: Option<Issued>,
                   solved: seq<Solved>)
    requires ContextChange(cs, cs1, s, i) && (cs.Some? ==> ContextsOk(cs.value)) && AllBacked(solved, OrNone(cs))
    ensures (cs1.Some? ==> ContextsOk(cs1.value)) && AllBacked(With(solved, s), OrNone(cs1))
    ensures i.Some? ==> Earned(With(solved, s), i.value)
  {
    if s.Some? {
      BackedWith(solved, cs.value, s.value);
      LosesBacked(Some([s.value.context] + cs.value), cs1, With(solved, s));
    } else if i.Some? {
      IssuesEarned(cs, cs1, solved, i.value);
      LosesBacked(cs, cs1, solved);
    } else {
      LosesBacked(cs, cs1, solved);
    }
  }

  lemma StepTracked(h: Hal, log: History, c: Call)
    requires ContextsTracked(h, log)
    ensures ContextsTracked(Step(h, c), Record(h, log, c))
  {
    CallContexts(h, c);
    TrackedChange(h.contexts, Step(h, c).contexts, NewContext(h, c), NewUserToken(h, c), log, Record(h, log, c));
  }

  lemma TrackedChange(cs: Option<seq<Context>>, cs1: Option<seq<Context>>, s: Option<Solved>, i: Option<Issued>,
                      log: History, log1: History)
    requires ContextChange(cs, cs1, s, i) && log1.issued == With(log.issued, i) && log1.solved == With(log.solved, s)
    requires (cs.Some? ==> ContextsOk(cs.value)) && AllBacked(log.solved, OrNone(cs))
    requires forall id :: ContextTally(cs, log.issued, log.solved, id)
    requires forall i :: i in log.issued ==> Earned(log.solved, i)
    ensures (cs1.Some? ==> ContextsOk(cs1.value)) && AllBacked(log1.solved, OrNone(cs1))
    ensures forall id :: ContextTally(cs1, log1.issued, log1.solved, id)
    ensures forall i :: i in log1.issued ==> Earned(log1.solved, i)
  {
    StepBacked(cs, cs1, s, i, log.solved);
    forall id ensures ContextTally(cs1, log1.issued, log1.solved, id) {
      TallyChanges(cs, cs1, s, i, log.issued, log.solved, id);
    }
    forall j | j in log1.issued ensures Earned(log1.solved, j) {
      if j in log.issued {
        EarnedWith(log.solved, s, j);
      }
    }
  }

  /** After any run: context ids are unique, each live context waits for one schedule, the user tokens issued for an
      id together with its live context are no more than the contexts generated with it, and every user token claims
      exactly the trust its context was generated with, no more than SingleAuthTrustLevel gave then. */
  lemma {:induction false} RunTracked(h: Hal, log: History, calls: seq<Call>)
    requires ContextsTracked(h, log)
    ensures var (h1, log1) := Run(h, log, calls); ContextsTracked(h1, log1)
    decreases |calls|
  {
    if |calls| > 0 {
      StepTracked(h, log, calls[0]);
      RunTracked(Step(h, calls[0]), Record(h, log, calls[0]), calls[1..]);
    }
  }

  /** ... in particular from the start. */
  lemma TrackedFromStart(calls: seq<Call>)
    requires EmptyCacheRun(START, calls)
    ensures var (h, log) := Run(START, NOTHING, calls); ContextsTracked(h, log)
  {
    RunTracked(START, NOTHING, calls);
  }

  // ----- what is recorded ------------------------------------------------------------------------

  /** A context is recorded exactly when one was generated. */
  lemma RecordedContextIff(h: Hal, c: Call)
    requires c.SolutionCall?
    ensures NewContext(h, c).Some? <==>
            && ScheduleAdded(h.contexts, h.schedules, h.pool, h.db, c.solution, c.contextEnv)
            && ContextInsertable(h.contexts.value, c.contextEnv)
  {
    GeneratedIff(h.contexts, h.schedules, h.pool, h.db, c.solution, c.contextEnv);
  }

  /** A user token is recorded exactly when a success token was presented for the context that waits for it, its user
      was still enrolled, and a MAC was at hand. */
  lemma RecordedUserTokenIff(h: Hal, c: Call)
    requires c.RequestResult? && h.contexts.Some? && ContextsOk(h.contexts.value)
    ensures NewUserToken(h, c).Some? <==>
            && c.token.scheduleResult == 0 && Awaited(h.contexts.value, c.contextId, c.token, c.resultEnv)
            && StillEnrolled(ContextOf(h.contexts, c.contextId), h.db)
            && c.resultEnv.userMac(UserTokenData(ContextOf(h.contexts, c.contextId), h.db, c.out, c.resultEnv.signTime)
                                   .(version := TOKEN_VERSION, sign := [])).Some?
    ensures NewUserToken(h, c).Some? ==> NewUserToken(h, c).value.contextId == c.contextId
  {
    if c.token.scheduleResult == 0 {
      UserTokenIff(h.contexts.value, h.db, c.contextId, c.token, c.out, c.resultEnv);
    }
  }
}
