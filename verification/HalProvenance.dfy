/** Over any run of calls: where stored credentials come from. */
module HalProvenance {
  import opened Base
  import opened IdmCommon
  import opened CoAuth
  import opened UserIdmSpec
  import opened HalState
  import opened HalSchedules
  import opened DatabaseSpec
  import opened FileManager
  import FileLoader
  import IdmSession
  import DatabaseRuns
  import HalCache

  // ----- credentials of the database -------------------------------------------------------------

  /** A property of a user id and a credential; none here looks at the credential's own id. */
  type CredentialLaw = (i32, CredentialInfo) -> bool

  ghost predicate IgnoresId(p: CredentialLaw) {
    forall u: i32, c: CredentialInfo, id: u64 :: p(u, c) ==> p(u, c.(credentialId := id))
  }

  ghost predicate UserObeys(u: User, p: CredentialLaw) {
    forall k :: 0 <= k < |u.credentials| ==> p(u.userId, u.credentials[k])
  }

  ghost predicate Obeys(users: seq<User>, p: CredentialLaw) {
    forall k :: 0 <= k < |users| ==> UserObeys(users[k], p)
  }

  /** In memory and, whole or cut short, in the file. */
  ghost predicate DbObeys(db: Db, p: CredentialLaw) {
    && DatabaseRuns.DbOk(db)
    && (db.users.Some? ==> Obeys(db.users.value, p))
    && (db.file.None? || exists users, k :: DatabaseRuns.HoldsPrefix(db.file, users, k) && Obeys(users, p))
  }

  lemma AddToUserObeys(u: User, c: CredentialInfo, env: AddEnv, p: CredentialLaw)
    requires UserObeys(u, p) && IgnoresId(p) && p(u.userId, c)
    ensures UserObeys(AddCredentialToUser(u, c, env).1, p) && AddCredentialToUser(u, c, env).1.userId == u.userId
  {
    var (r, u1, c1) := AddCredentialToUser(u, c, env);
    if r == RESULT_SUCCESS {
      assert u1.credentials == [c1] + u.credentials && c1 == c.(credentialId := c1.credentialId);
    }
  }

  lemma AddObeys(db: Db, id: i32, c: CredentialInfo, env: AddEnv, p: CredentialLaw)
    requires db.users.Some? && Obeys(db.users.value, p) && IgnoresId(p) && p(id, c)
    ensures var db1 := AddCredentialInfo(db, id, c, env).1;
            db1.users.Some? && Obeys(db1.users.value, p)
  {
    if HasUser(db, id) {
      AddToUserObeys(UserOf(db, id), c, env, p);
      SetObeys(db, id, AddCredentialToUser(UserOf(db, id), c, env).1, p);
      DatabaseRuns.AddedUsers(db, id, c, env);
    } else {
      NewUserObeys(db, id, c, env, p);
    }
  }

  lemma SetObeys(db: Db, id: i32, u: User, p: CredentialLaw)
    requires HasUser(db, id) && Obeys(db.users.value, p) && UserObeys(u, p)
    ensures Obeys(SetUser(db, id, u).users.value, p)
  {}

  lemma NewUserObeys(db: Db, id: i32, c: CredentialInfo, env: AddEnv, p: CredentialLaw)
    requires db.users.Some? && !HasUser(db, id) && Obeys(db.users.value, p) && IgnoresId(p) && p(id, c)
    ensures var db1 := AddCredentialInfo(db, id, c, env).1;
            db1.users.Some? && Obeys(db1.users.value, p)
  {
    var uid := FirstFresh(env.secUidDraws, SecUids(db.users.value));
    if uid.Some? {
      AddToUserObeys(User(id, uid.value, [], []), c, env, p);
    }
    DatabaseRuns.FreshUsers(db, id, c, env);
  }

  /** Deleting leaves a user no credential it did not have. */
  lemma DeleteObeys(u: User, credentialId: u64, p: CredentialLaw)
    requires UserObeys(u, p)
    ensures UserObeys(DatabaseRuns.UserAfterDelete(u, credentialId), p)
  {
    DatabaseRuns.RemoveFirstSub(u.credentials, CredentialHasId(credentialId));
  }

  lemma DeleteCredentialObeys(db: Db, id: i32, credentialId: u64, out: CredentialInfo, env: SaveEnv, p: CredentialLaw)
    requires db.users.Some? && UsersOk(db.users.value) && Obeys(db.users.value, p)
    ensures var db1 := DeleteCredentialInfo(db, id, credentialId, out, env).1;
            db1.users.Some? && Obeys(db1.users.value, p)
  {
    DatabaseRuns.DeleteCredentialInfoOk(db, id, credentialId, out, env);
    if HasUser(db, id) {
      DeleteObeys(UserOf(db, id), credentialId, p);
      SetObeys(db, id, DatabaseRuns.UserAfterDelete(UserOf(db, id), credentialId), p);
    }
  }

  lemma DeleteUserObeys(db: Db, id: i32, malloced: bool, env: SaveEnv, p: CredentialLaw)
    requires db.users.Some? && Obeys(db.users.value, p)
    ensures var db1 := DeleteUserInfo(db, id, malloced, env).1;
            db1.users.Some? && Obeys(db1.users.value, p)
  {
    DatabaseRuns.RemoveFirstSub(db.users.value, UserHasId(id));
  }

  lemma ReverseObeys(users: seq<User>, p: CredentialLaw)
    requires Obeys(users, p)
    ensures Obeys(FileLoader.DeepReverse(users), p)
  {
    forall k | 0 <= k < |users| ensures UserObeys(FileLoader.DeepReverse(users)[k], p) {
      FileLoader.MapReverseAt(users, FileLoader.ReverseUser, k);
      var u := users[|users| - 1 - k];
      forall j | 0 <= j < |u.credentials| ensures p(u.userId, Reverse(u.credentials)[j]) {
        ReverseAt(u.credentials, j);
      }
    }
  }

  /** What a database step leaves: well-formed users obeying the law, and a file that holds what it held or a prefix
      of exactly those users. */
  lemma DbStepObeys(db: Db, s: DatabaseRuns.DbStep, p: CredentialLaw)
    requires DbObeys(db, p) && IgnoresId(p) && (s.Add? ==> p(s.id, s.c))
    ensures DbObeys(DatabaseRuns.Step(db, s), p)
  {
    DatabaseRuns.StepOk(db, s);
    var db1 := DatabaseRuns.Step(db, s);
    if s.Reload? {
      if db.file.Some? {
        var users, k :| DatabaseRuns.HoldsPrefix(db.file, users, k) && Obeys(users, p);
        DatabaseRuns.LoadPrefix(db.file, users, k);
        ReverseObeys(users, p);
      }
    } else {
      if db.users.Some? {
        StepObeys(db, s, p);
      } else {
        DatabaseRuns.StepNoUsers(db, s);
      }
      if db1.file != db.file {
        DatabaseRuns.SavesOnly(db, s);
        DatabaseRuns.SavedPrefix(db1.users, db.file, DatabaseRuns.StepSaveEnv(s));
      }
    }
  }

  lemma StepObeys(db: Db, s: DatabaseRuns.DbStep, p: CredentialLaw)
    requires db.users.Some? && UsersOk(db.users.value) && Obeys(db.users.value, p) && IgnoresId(p)
    requires !s.Reload? && (s.Add? ==> p(s.id, s.c))
    ensures var db1 := DatabaseRuns.Step(db, s); db1.users.Some? && Obeys(db1.users.value, p)
  {
    match s
    case Add(id, c, env) => AddObeys(db, id, c, env, p);
    case Delete(id, credentialId, env) =>
      DeleteCredentialObeys(db, id, credentialId, DatabaseRuns.NO_CREDENTIAL, env, p);
    case DeleteUser(id, malloced, env) => DeleteUserObeys(db, id, malloced, env, p);
  }

  // ----- where a credential comes from -----------------------------------------------------------

  /** The credential is the content of the token t, signed for the enrolment g of a PIN or a face that was associated
      with a session of the user. */
  predicate EnrolledBy(userId: i32, c: CredentialInfo, t: ScheduleToken, g: Generated) {
    && IsContent(c, t)
    && t.scheduleId == g.schedule.scheduleId && ScheduleOk(g.schedule) && t.authType == g.schedule.executors[0].authType
    && g.schedule.scheduleMode == SCHEDULE_MODE_ENROLL && g.user == Some(userId)
    && (t.authType == PIN_AUTH || t.authType == FACE_AUTH)
  }

  ghost predicate From(log: History, userId: i32, c: CredentialInfo) {
    exists t, g :: t in log.signed && g in log.generated && EnrolledBy(userId, c, t, g)
  }

  ghost function Law(log: History): CredentialLaw {
    (userId: i32, c: CredentialInfo) => From(log, userId, c)
  }

  lemma LawIgnoresId(log: History)
    ensures IgnoresId(Law(log))
  {
    forall u: i32, c: CredentialInfo, id: u64 | From(log, u, c) ensures From(log, u, c.(credentialId := id)) {
      var t, g :| t in log.signed && g in log.generated && EnrolledBy(u, c, t, g);
      assert EnrolledBy(u, c.(credentialId := id), t, g);
    }
  }

  lemma LawGrows(db: Db, log: History, log1: History)
    requires DbObeys(db, Law(log)) && Grows(log, log1)
    ensures DbObeys(db, Law(log1))
  {
    forall u: i32, c: CredentialInfo | From(log, u, c) ensures From(log1, u, c) {
      var t, g :| t in log.signed && g in log.generated && EnrolledBy(u, c, t, g);
      assert t in log1.signed && g in log1.generated;
    }
    if db.users.Some? {
      ObeysMore(db.users.value, log, log1);
    }
    if db.file.Some? {
      var users, k :| DatabaseRuns.HoldsPrefix(db.file, users, k) && Obeys(users, Law(log));
      ObeysMore(users, log, log1);
    }
  }

  lemma ObeysMore(users: seq<User>, log: History, log1: History)
    requires Obeys(users, Law(log)) && forall u: i32, c: CredentialInfo :: From(log, u, c) ==> From(log1, u, c)
    ensures Obeys(users, Law(log1))
  {
    forall k | 0 <= k < |users| ensures UserObeys(users[k], Law(log1)) {
      assert UserObeys(users[k], Law(log));
      forall j | 0 <= j < |users[k].credentials| ensures Law(log1)(users[k].userId, users[k].credentials[j]) {
        assert Law(log)(users[k].userId, users[k].credentials[j]);
      }
    }
  }

  // ----- what the log knows about schedules, tokens and the session ------------------------------

  predicate Sound(g: Generated) {
    && Requested(g)
    && (g.user.Some? ==> && g.schedule.scheduleMode == SCHEDULE_MODE_ENROLL
                         && (g.schedule.executors[0].authType == PIN_AUTH
                             || g.schedule.executors[0].authType == FACE_AUTH))
  }

  predicate UniqueGenerated(generated: seq<Generated>) {
    forall i, j :: 0 <= i < j < |generated| ==> generated[i].schedule.scheduleId != generated[j].schedule.scheduleId
  }

  ghost predicate TokenKnown(log: History, t: ScheduleToken) {
    exists g :: g in log.generated && Sound(g) && g.schedule.scheduleId == t.scheduleId
      && t.authType == g.schedule.executors[0].authType
  }

  ghost predicate SessionKnown(session: Option<IdmSession.SessionInfo>, log: History) {
    IdmSession.CurrentSchedule(session).Some? ==>
      exists g :: g in log.generated && g.schedule.scheduleId == session.value.scheduleId
          && g.user == Some(session.value.userId)
  }

  ghost predicate LogOk(log: History) {
    && (forall g :: g in log.generated ==> Sound(g))
    && UniqueGenerated(log.generated)
    && (forall t :: t in log.signed ==> TokenKnown(log, t))
  }

  ghost predicate Traced(h: Hal, log: History) {
    && (h.schedules.Some? ==> SchedulesOk(h.schedules.value))
    && LiveKnown(h.schedules, log) && LogOk(log) && SessionKnown(h.session, log) && DbObeys(h.db, Law(log))
  }

  /** Schedule ids never repeat, only tokens that were signed verify, and Init and Close meet an empty cache. */
  ghost predicate Ideal(h: Hal, log: History, c: Call) {
    && MeetsEmptyCache(h, c)
    && (NewSchedule(h, c).Some? ==>
          forall g :: g in log.generated ==> g.schedule.scheduleId != NewSchedule(h, c).value.schedule.scheduleId)
    && (c.AddCredentialCall? || c.UpdateCredentialCall? ==>
          TokenVerify(c.token, c.check.tokenNow, c.check.mac) == RESULT_SUCCESS ==> c.token in log.signed)
  }

  lemma NewScheduleSound(h: Hal, c: Call)
    requires NewSchedule(h, c).Some?
    ensures var g := NewSchedule(h, c).value;
            && Sound(g)
            && (g.user.Some? ==> && Step(h, c).session == IdmSession.Associate(h.session, g.schedule.scheduleId)
                                 && h.session.Some? && g.user == Some(h.session.value.userId))
  {
    match c
    case InitSchedulation(p, env) => EnrollAdds(h, p, env);
    case SolutionCall(p, env) => SolveAdds(h, p, env);
  }

  /** A token ScheduleFinish signs is for a schedule the log knows. */
  lemma SignedIsKnown(ss: Option<seq<CoAuthSchedule>>, ss1: Option<seq<CoAuthSchedule>>, t: ScheduleToken, log: History)
    requires Ends(ss, ss1, t) && LiveKnown(ss, log) && LogOk(log)
    ensures TokenKnown(log, t)
  {
    var s := Lookup(ss.value, t.scheduleId).value;
    assert s in OrNone(ss) && HasScheduleId(t.scheduleId)(s);
    var g :| g in log.generated && g.schedule == s;
    assert Sound(g);
  }

  lemma TokenStaysKnown(log: History, log1: History, t: ScheduleToken)
    requires TokenKnown(log, t) && Grows(log, log1)
    ensures TokenKnown(log1, t)
  {
    var g :| g in log.generated && Sound(g) && g.schedule.scheduleId == t.scheduleId
      && t.authType == g.schedule.executors[0].authType;
    assert g in log1.generated;
  }

  lemma LogStaysOk(ss: Option<seq<CoAuthSchedule>>, ss1: Option<seq<CoAuthSchedule>>, g: Option<Generated>,
                   t: Option<ScheduleToken>, log: History, log1: History)
    requires ScheduleChange(ss, ss1, g, t) && LiveKnown(ss, log) && LogOk(log) && Grows(log, log1)
    requires log1.generated == With(log.generated, g) && log1.signed == With(log.signed, t)
    requires g.Some? ==>
               Sound(g.value) && forall x :: x in log.generated ==> x.schedule.scheduleId != g.value.schedule.scheduleId
    ensures LogOk(log1)
  {
    forall x | x in log1.signed ensures TokenKnown(log1, x) {
      if x in log.signed {
        TokenStaysKnown(log, log1, x);
      } else {
        SignedIsKnown(ss, ss1, x, log);
        TokenStaysKnown(log, log1, x);
      }
    }
  }

  lemma SessionStaysKnown(h: Hal, log: History, c: Call)
    requires SessionKnown(h.session, log)
    ensures SessionKnown(Step(h, c).session, Record(h, log, c))
  {
    var log1 := Record(h, log, c);
    RecordGrows(h, log, c);
    if NewSchedule(h, c).Some? && NewSchedule(h, c).value.user.Some? {
      NewScheduleSound(h, c);
      assert NewSchedule(h, c).value in log1.generated;
    } else {
      SessionSame(h, c);
      if IdmSession.CurrentSchedule(h.session).Some? {
        var g :| g in log.generated && g.schedule.scheduleId == h.session.value.scheduleId
          && g.user == Some(h.session.value.userId);
        assert g in log1.generated;
      }
    }
  }

  /** Only an enrolment associates a schedule with the session. */
  lemma SessionSame(h: Hal, c: Call)
    requires NewSchedule(h, c).None? || NewSchedule(h, c).value.user.None?
    ensures var s := Step(h, c).session;
            IdmSession.CurrentSchedule(s).Some? ==>
              && IdmSession.CurrentSchedule(h.session) == IdmSession.CurrentSchedule(s)
              && s.value.userId == h.session.value.userId
  {
    match c
    case InitSchedulation(p, env) => EnrollAdds(h, p, env);
    case _ =>
  }

  // ----- the database under the calls ------------------------------------------------------------

  /** A verified token for the session's schedule carries a credential the log accounts for. */
  lemma TokenAccounted(h: Hal, log: History, t: ScheduleToken, check: TokenEnv)
    requires LogOk(log) && SessionKnown(h.session, log)
    requires TokenVerify(t, check.tokenNow, check.mac) == RESULT_SUCCESS ==> t in log.signed
    requires CheckScheduleToken(h.session, t, check) == RESULT_SUCCESS
    ensures h.session.Some? && From(log, h.session.value.userId, CredentialFrom(t))
  {
    var g :| g in log.generated && g.schedule.scheduleId == h.session.value.scheduleId
      && g.user == Some(h.session.value.userId);
    assert TokenKnown(log, t);
    var x :| x in log.generated && Sound(x) && x.schedule.scheduleId == t.scheduleId
      && t.authType == x.schedule.executors[0].authType;
    SameGenerated(log.generated, g, x);
    assert EnrolledBy(h.session.value.userId, CredentialFrom(t), t, g);
  }

  lemma SameGenerated(generated: seq<Generated>, g: Generated, x: Generated)
    requires UniqueGenerated(generated) && g in generated && x in generated
    requires g.schedule.scheduleId == x.schedule.scheduleId
    ensures g == x
  {
    var i :| 0 <= i < |generated| && generated[i] == g;
    var j :| 0 <= j < |generated| && generated[j] == x;
  }

  lemma AddCallObeys(h: Hal, log: History, c: Call)
    requires c.AddCredentialCall? && Traced(h, log) && Ideal(h, log, c)
    ensures DbObeys(Step(h, c).db, Law(log))
  {
    if CheckScheduleToken(h.session, c.token, c.check) == RESULT_SUCCESS {
      TokenAccounted(h, log, c.token, c.check);
      LawIgnoresId(log);
      DbStepObeys(h.db, DatabaseRuns.Add(h.session.value.userId, CredentialFrom(c.token), c.addEnv), Law(log));
    }
  }

  lemma ReplaceObeys(db: Db, userId: i32, c: CredentialInfo, out: CredentialInfo, deleteEnv: SaveEnv, env: AddEnv,
                     p: CredentialLaw)
    requires DbObeys(db, p) && IgnoresId(p) && p(userId, c)
    ensures DbObeys(ReplacePin(db, userId, c, out, deleteEnv, env).1, p)
  {
    var (queried, old1) := QueryCredentialInfo(db, userId, PIN_AUTH, out);
    if queried == RESULT_SUCCESS {
      DatabaseRuns.OutIrrelevant(db, userId, old1.credentialId, old1, deleteEnv);
      DbStepObeys(db, DatabaseRuns.Delete(userId, old1.credentialId, deleteEnv), p);
      var (deleted, db1, _) := DeleteCredentialInfo(db, userId, old1.credentialId, old1, deleteEnv);
      DbStepObeys(db1, DatabaseRuns.Add(userId, c, env), p);
    }
  }

  lemma UpdateCallObeys(h: Hal, log: History, c: Call)
    requires c.UpdateCredentialCall? && Traced(h, log) && Ideal(h, log, c)
    ensures DbObeys(Step(h, c).db, Law(log))
  {
    if c.token.authType == PIN_AUTH && CheckScheduleToken(h.session, c.token, c.check) == RESULT_SUCCESS {
      TokenAccounted(h, log, c.token, c.check);
      LawIgnoresId(log);
      ReplaceObeys(h.db, h.session.value.userId, CredentialFrom(c.token), DatabaseRuns.NO_CREDENTIAL, c.saveEnv,
                   c.addEnv, Law(log));
    }
  }

  lemma DeleteCallObeys(h: Hal, log: History, c: Call)
    requires (c.DeleteCredentialCall? || c.DeleteUserEnforce?) && DbObeys(h.db, Law(log))
    ensures DbObeys(Step(h, c).db, Law(log))
  {
    LawIgnoresId(log);
    if c.DeleteCredentialCall? {
      DbStepObeys(h.db, DatabaseRuns.Delete(c.userId, c.credentialId, c.saveEnv), Law(log));
    } else {
      DbStepObeys(h.db, DatabaseRuns.DeleteUser(c.userId, c.malloced, c.saveEnv), Law(log));
    }
  }

  lemma CloseObeys(db: Db, p: CredentialLaw)
    requires DbObeys(db, p)
    ensures DbObeys(db.(users := None), p)
  {}

  predicate TouchesDb(c: Call) {
    || c.Restart? || c.Init? || c.Close? || c.AddCredentialCall? || c.UpdateCredentialCall? || c.DeleteCredentialCall?
    || c.DeleteUserEnforce?
  }

  lemma OtherCalls(h: Hal, c: Call)
    requires !TouchesDb(c)
    ensures Step(h, c).db == h.db
  {}

  lemma InitObeys(h: Hal, p: CredentialLaw)
    requires DbObeys(h.db, p) && IgnoresId(p)
    ensures DbObeys(Step(h, Init).db, p)
  {
    HalCache.InitReloads(h);
    DbStepObeys(h.db, DatabaseRuns.Reload, p);
  }

  lemma CallObeys(h: Hal, log: History, c: Call)
    requires Traced(h, log) && Ideal(h, log, c)
    ensures DbObeys(Step(h, c).db, Law(log))
  {
    if !TouchesDb(c) {
      OtherCalls(h, c);
    } else if c.Init? {
      LawIgnoresId(log);
      InitObeys(h, Law(log));
    } else if c.Close? || c.Restart? {
      CloseObeys(h.db, Law(log));
    } else if c.AddCredentialCall? {
      AddCallObeys(h, log, c);
    } else if c.UpdateCredentialCall? {
      UpdateCallObeys(h, log, c);
    } else {
      DeleteCallObeys(h, log, c);
    }
  }

  lemma StepTraced(h: Hal, log: History, c: Call)
    requires Traced(h, log) && Ideal(h, log, c)
    ensures Traced(Step(h, c), Record(h, log, c))
  {
    CallChanges(h, c);
    RecordGrows(h, log, c);
    CallObeys(h, log, c);
    LawGrows(Step(h, c).db, log, Record(h, log, c));
    SessionStaysKnown(h, log, c);
    LogPart(h.schedules, Step(h, c).schedules, h, log, c);
  }

  lemma LogPart(ss: Option<seq<CoAuthSchedule>>, ss1: Option<seq<CoAuthSchedule>>, h: Hal, log: History, c: Call)
    requires ss == h.schedules && ss1 == Step(h, c).schedules
    requires ScheduleChange(ss, ss1, NewSchedule(h, c), NewToken(h, c)) && Grows(log, Record(h, log, c))
    requires Traced(h, log) && Ideal(h, log, c)
    ensures ss1.Some? ==> SchedulesOk(ss1.value)
    ensures LiveKnown(ss1, Record(h, log, c)) && LogOk(Record(h, log, c))
  {
    if NewSchedule(h, c).Some? {
      NewScheduleSound(h, c);
    }
    if ss1.Some? {
      SchedulesStayOk(ss, ss1, NewSchedule(h, c), NewToken(h, c));
    }
    LiveStaysKnown(ss, ss1, NewSchedule(h, c), NewToken(h, c), log, Record(h, log, c));
    LogStaysOk(ss, ss1, NewSchedule(h, c), NewToken(h, c), log, Record(h, log, c));
  }

  ghost predicate IdealRun(h: Hal, log: History, calls: seq<Call>)
    decreases |calls|
  {
    |calls| == 0 || (Ideal(h, log, calls[0]) && IdealRun(Step(h, calls[0]), Record(h, log, calls[0]), calls[1..]))
  }

  lemma {:induction false} RunTraced(h: Hal, log: History, calls: seq<Call>)
    requires Traced(h, log) && IdealRun(h, log, calls)
    ensures var (h1, log1) := Run(h, log, calls); Traced(h1, log1)
    decreases |calls|
  {
    if |calls| > 0 {
      StepTraced(h, log, calls[0]);
      RunTraced(Step(h, calls[0]), Record(h, log, calls[0]), calls[1..]);
    }
  }

  /** In an ideal run every stored credential is the content of a token that
      ScheduleFinish signed for an enrolment of a PIN or a face which was associated with a session of that user,
      although nothing on the path that adds it looks at its type. */
  lemma EveryCredentialEnrolled(calls: seq<Call>, k: nat, j: nat)
    requires IdealRun(START, NOTHING, calls)
    requires var (h, _) := Run(START, NOTHING, calls);
             h.db.users.Some? && k < |h.db.users.value| && j < |h.db.users.value[k].credentials|
    ensures var (h, log) := Run(START, NOTHING, calls);
            var u := h.db.users.value[k];
            From(log, u.userId, u.credentials[j])
                && (u.credentials[j].authType == PIN_AUTH || u.credentials[j].authType == FACE_AUTH)
  {
    RunTraced(START, NOTHING, calls);
    var (h, log) := Run(START, NOTHING, calls);
    CredentialEnrolled(h.db.users.value, log, k, j);
  }

  lemma CredentialEnrolled(users: seq<User>, log: History, k: nat, j: nat)
    requires Obeys(users, Law(log)) && k < |users| && j < |users[k].credentials|
    ensures var u := users[k];
            From(log, u.userId, u.credentials[j])
                && (u.credentials[j].authType == PIN_AUTH || u.credentials[j].authType == FACE_AUTH)
  {
    assert UserObeys(users[k], Law(log));
    assert Law(log)(users[k].userId, users[k].credentials[j]);
    var t, g :| t in log.signed && g in log.generated && EnrolledBy(users[k].userId, users[k].credentials[j], t, g);
  }
}
