/** Runs from the start that reach what the results about runs exclude or report. */
module SampleRuns {
  import opened Base
  import opened IdmCommon
  import IdmSession
  import opened Pool
  import opened CoAuth
  import opened UserIdmSpec
  import opened DatabaseSpec
  import opened HalState
  import opened HalCache
  import opened FileManager
  import DatabaseRuns
  import UserDeletion

  /** The state a run from the start ends in. */
  function Reached(calls: seq<Call>): Hal {
    Run(START, NOTHING, calls).0
  }

  lemma {:induction false} RunSnoc(h: Hal, log: History, calls: seq<Call>, c: Call)
    ensures Run(h, log, calls + [c]).0 == Step(Run(h, log, calls).0, c)
    decreases |calls|
  {
    var all := calls + [c];
    if |calls| > 0 {
      assert all[0] == calls[0] && all[1..] == calls[1..] + [c];
      RunSnoc(Step(h, calls[0]), Record(h, log, calls[0]), calls[1..], c);
    } else {
      assert all[0] == c && |all[1..]| == 0;
    }
  }

  lemma Then(calls: seq<Call>, c: Call)
    ensures Reached(calls + [c]) == Step(Reached(calls), c)
  {
    RunSnoc(START, NOTHING, calls, c);
  }

  // ----- the steps -------------------------------------------------------------------------------

  const STARTED := Hal(Some([]), Some([]), Some([]), None, DatabaseRuns.EMPTY_DB, 1, None)

  lemma InitFirst()
    ensures Reached([Init]) == STARTED
  {
    assert [Init] == [] + [Init];
    Then([], Init);
  }

  lemma RegisterFirst(h: Hal, e: ExecutorInfo, env: RegisterEnv)
    requires h.pool == Some([]) && env.copied && env.inserted && env.draws[0] == Some(e.executorId)
    ensures Step(h, ExecutorRegister(e, env)) == h.(pool := Some([e]))
  {
    assert FirstFresh(env.draws, ExecutorIds([])) == Some(e.executorId);
    assert [e] + [] == [e];
    assert Register([], e, env).1 == [e];
  }

  function SessionOf(userId: i32, now: u64): IdmSession.SessionInfo {
    IdmSession.SessionInfo(0, false, userId, now, now, 6)
  }

  lemma OpenFirst(h: Hal, userId: i32, env: IdmSession.OpenEnv)
    requires env.malloced && env.draws[0] == Some(6)
    ensures Step(h, OpenSession(userId, env)) == h.(session := Some(SessionOf(userId, env.now)))
  {}

  /** The schedule of a first PIN with schedule id 5. */
  function PinSchedule(e: ExecutorInfo): CoAuthSchedule {
    CoAuthSchedule(5, SCHEDULE_MODE_ENROLL, 6, 0, 0, [e])
  }

  lemma EnrollFirst(h: Hal, e: ExecutorInfo, p: PermissionParam, env: EnrollEnv)
    requires h.pool == Some([e]) && h.schedules == Some([]) && h.session.Some? && h.session.value.challenge == 6
    requires e.authType == p.authType == PIN_AUTH && p.authSubType == 0 && !HasUser(h.db, p.userId) && h.cached.None?
    requires env.generate.malloced && env.generate.draws[0] == Some(5) && env.add.copied && env.add.inserted
    ensures Step(h, InitSchedulation(p, env)) ==
            h.(session := IdmSession.Associate(h.session, 5), schedules := Some([PinSchedule(e)]))
  {
    OneExecutor(e);
    assert [PinSchedule(e)] + [] == [PinSchedule(e)];
    assert FirstFresh(env.generate.draws, ScheduleIds([])) == Some(5);
    assert EnrollSchedule(h.session, h.schedules, h.pool, p, env) == Some(PinSchedule(e));
    AddIff(Some([]), PinSchedule(e), env.add);
    assert Enroll(h.session, h.schedules, h.pool, h.db, p, env) ==
           (RESULT_SUCCESS, IdmSession.Associate(h.session, 5), Some([PinSchedule(e)]), Some(5));
  }

  /** A user whose PIN came with the token. */
  function PinUser(t: ScheduleToken): User {
    User(100, 7, [CredentialInfo(9, t.authType, t.authSubType, t.templateId, t.capabilityLevel)],
         [EnrolledInfo(PIN_AUTH, 8)])
  }

  lemma AddFirst(h: Hal, t: ScheduleToken, check: TokenEnv, add: AddEnv)
    requires h.db == DatabaseRuns.EMPTY_DB && h.cached.None? && DatabaseRuns.FirstAddWorks(add)
    requires Acceptable(h.session, t, check) && h.session.value.userId == 100 && t.authType == PIN_AUTH
    ensures Step(h, AddCredentialCall(t, check, add)) ==
            h.(db := AddCredentialInfo(DatabaseRuns.EMPTY_DB, 100, CredentialFrom(t), add).1)
    ensures Step(h, AddCredentialCall(t, check, add)).db.users == Some([PinUser(t)])
  {
    ScheduleTokenIff(h.session, t, check);
    DatabaseRuns.FirstAdd(add, CredentialFrom(t));
  }

  /** Token, clock, memory and random numbers for a first PIN of user 100. */
  predicate FirstPin(e: ExecutorInfo, register: RegisterEnv, open: IdmSession.OpenEnv, p: PermissionParam,
                     enroll: EnrollEnv, t: ScheduleToken, check: TokenEnv, add: AddEnv) {
    && register.copied && register.inserted && register.draws[0] == Some(e.executorId)
    && open.malloced && open.draws[0] == Some(6)
    && e.authType == p.authType == t.authType == PIN_AUTH && p.authSubType == 0 && p.userId == 100
    && enroll.generate.malloced && enroll.generate.draws[0] == Some(5) && enroll.add.copied && enroll.add.inserted
    && t.scheduleId == 5 && Acceptable(IdmSession.Associate(Some(SessionOf(100, open.now)), 5), t, check)
    && DatabaseRuns.FirstAddWorks(add)
  }

  function FirstPinCalls(e: ExecutorInfo, register: RegisterEnv, open: IdmSession.OpenEnv, p: PermissionParam,
                         enroll: EnrollEnv, t: ScheduleToken, check: TokenEnv, add: AddEnv): seq<Call> {
    [Init] + [ExecutorRegister(e, register)] + [OpenSession(100, open)] + [InitSchedulation(p, enroll)]
    + [AddCredentialCall(t, check, add)]
  }

  lemma FirstPinSession(e: ExecutorInfo, register: RegisterEnv, open: IdmSession.OpenEnv, p: PermissionParam,
                        enroll: EnrollEnv)
    requires register.copied && register.inserted && register.draws[0] == Some(e.executorId)
    requires open.malloced && open.draws[0] == Some(6)
    requires e.authType == p.authType == PIN_AUTH && p.authSubType == 0 && p.userId == 100
    requires enroll.generate.malloced && enroll.generate.draws[0] == Some(5) && enroll.add.copied && enroll.add.inserted
    ensures Reached([Init] + [ExecutorRegister(e, register)] + [OpenSession(100, open)]
                    + [InitSchedulation(p, enroll)]) ==
            STARTED.(pool := Some([e]), session := IdmSession.Associate(Some(SessionOf(100, open.now)), 5),
                     schedules := Some([PinSchedule(e)]))
  {
    InitFirst();
    var h1 := STARTED.(pool := Some([e]));
    var h2 := h1.(session := Some(SessionOf(100, open.now)));
    Then([Init], ExecutorRegister(e, register));
    RegisterFirst(STARTED, e, register);
    Then([Init] + [ExecutorRegister(e, register)], OpenSession(100, open));
    OpenFirst(h1, 100, open);
    Then([Init] + [ExecutorRegister(e, register)] + [OpenSession(100, open)], InitSchedulation(p, enroll));
    EnrollFirst(h2, e, p, enroll);
  }

  /** A run to a user with a PIN. */
  lemma FirstPinAdded(e: ExecutorInfo, register: RegisterEnv, open: IdmSession.OpenEnv, p: PermissionParam,
                      enroll: EnrollEnv, t: ScheduleToken, check: TokenEnv, add: AddEnv)
    requires FirstPin(e, register, open, p, enroll, t, check, add)
    ensures var h := Reached(FirstPinCalls(e, register, open, p, enroll, t, check, add));
            && h.db.users == Some([PinUser(t)]) && h.lists == 1 && h.cached.None?
            && h.session == IdmSession.Associate(Some(SessionOf(100, open.now)), 5)
            && h.pool == Some([e]) && h.schedules == Some([PinSchedule(e)])
  {
    FirstPinSession(e, register, open, p, enroll);
    var calls := [Init] + [ExecutorRegister(e, register)] + [OpenSession(100, open)] + [InitSchedulation(p, enroll)];
    Then(calls, AddCredentialCall(t, check, add));
    AddFirst(Reached(calls), t, check, add);
  }

  // ----- a freed user stays cached ---------------------------------------------------------------

  lemma LookUp(h: Hal, u: User)
    requires h.db.users == Some([u]) && h.cached.None?
    ensures Step(h, GetSecureUid(u.userId)) == h.(cached := Some(CachedUser(h.lists, u.userId)))
  {
    assert UserHasId(u.userId)(u) && FindUser([u], u.userId) == 0;
  }

  lemma CloseCached(h: Hal)
    requires h.cached.Some? && h.cached.value.list == h.lists
    ensures !Transparent(Step(h, Close)) && Step(h, Close).db.users.None? && Step(h, Close).cached == h.cached
  {
    TransparentIff(Step(h, Close));
  }

  /** From the start: enrolling a first PIN, asking for the secure uid of the user, and closing leaves the user cached
      that was freed with the list. */
  lemma StaleRun(e: ExecutorInfo, register: RegisterEnv, open: IdmSession.OpenEnv, p: PermissionParam,
                 enroll: EnrollEnv, t: ScheduleToken, check: TokenEnv, add: AddEnv)
    requires FirstPin(e, register, open, p, enroll, t, check, add)
    ensures var h := Reached(FirstPinCalls(e, register, open, p, enroll, t, check, add) + [GetSecureUid(100)]
                             + [Close]);
            h.cached == Some(CachedUser(1, 100)) && h.db.users.None? && !Transparent(h)
  {
    var calls := FirstPinCalls(e, register, open, p, enroll, t, check, add);
    FirstPinAdded(e, register, open, p, enroll, t, check, add);
    Then(calls, GetSecureUid(100));
    LookUp(Reached(calls), PinUser(t));
    Then(calls + [GetSecureUid(100)], Close);
    CloseCached(Reached(calls + [GetSecureUid(100)]));
  }

  // ----- failures that lose something ------------------------------------------------------------

  lemma RegisterFails(h: Hal, e: ExecutorInfo, e2: ExecutorInfo, env: RegisterEnv)
    requires h.pool == Some([e]) && SameKind(e2)(e) && !env.inserted
    ensures Register([e], e2, env).0 != RESULT_SUCCESS
    ensures Step(h, ExecutorRegister(e2, env)) == h.(pool := Some([]))
  {
    assert |[e][1..]| == 0 && RemoveFirst([e], SameKind(e2)) == [];
  }

  /** From the start: an executor, then one of the same kind for which there is no memory, leave no executor. */
  lemma LostExecutor(e: ExecutorInfo, register: RegisterEnv, e2: ExecutorInfo, register2: RegisterEnv)
    requires register.copied && register.inserted && register.draws[0] == Some(e.executorId)
    requires SameKind(e2)(e) && !register2.inserted
    ensures Reached([Init] + [ExecutorRegister(e, register)]).pool == Some([e])
    ensures Reached([Init] + [ExecutorRegister(e, register)] + [ExecutorRegister(e2, register2)]).pool == Some([])
  {
    InitFirst();
    Then([Init], ExecutorRegister(e, register));
    RegisterFirst(STARTED, e, register);
    Then([Init] + [ExecutorRegister(e, register)], ExecutorRegister(e2, register2));
    RegisterFails(STARTED.(pool := Some([e])), e, e2, register2);
  }

  lemma PinUserOk(t: ScheduleToken)
    requires t.authType == PIN_AUTH
    ensures UsersOk([PinUser(t)])
  {
    assert EnrolledHasType(PIN_AUTH)(PinUser(t).enrolled[0]);
  }

  lemma ReplaceLoses(db: Db, t: ScheduleToken, save: SaveEnv, add: AddEnv)
    requires db.users == Some([PinUser(t)]) && t.authType == PIN_AUTH && !add.credentialMalloced
    ensures var db1 := ReplacePin(db, 100, CredentialFrom(t), DatabaseRuns.NO_CREDENTIAL, save, add).1;
            HasUser(db1, 100) && !HasCredential(db1, 100, PIN_AUTH)
  {
    var u := PinUser(t);
    PinUserOk(t);
    assert UserHasId(100)(u) && UserOf(db, 100) == u && CredentialHasType(PIN_AUTH)(u.credentials[0]);
    PinLostIff(db, 100, CredentialFrom(t), DatabaseRuns.NO_CREDENTIAL, save, add);
  }

  lemma UpdateLoses(h: Hal, t: ScheduleToken, check: TokenEnv, save: SaveEnv, add: AddEnv, now: u64)
    requires h.db.users == Some([PinUser(t)]) && t.authType == PIN_AUTH
    requires Acceptable(h.session, t, check) && h.session.value.userId == 100 && !add.credentialMalloced
    ensures var h1 := Step(h, UpdateCredentialCall(t, check, save, add, now));
            HasUser(h1.db, 100) && !HasCredential(h1.db, 100, PIN_AUTH)
  {
    ScheduleTokenIff(h.session, t, check);
    ReplaceLoses(h.db, t, save, add);
  }

  /** From the start: a first PIN, then an update for whose new PIN there is no memory, leave the user without a PIN. */
  lemma LostPin(e: ExecutorInfo, register: RegisterEnv, open: IdmSession.OpenEnv, p: PermissionParam, enroll: EnrollEnv,
                t: ScheduleToken, check: TokenEnv, add: AddEnv, save: SaveEnv, add2: AddEnv, now: u64)
    requires FirstPin(e, register, open, p, enroll, t, check, add) && !add2.credentialMalloced
    ensures var calls := FirstPinCalls(e, register, open, p, enroll, t, check, add);
            && Reached(calls).db.users == Some([PinUser(t)])
            && var db := Reached(calls + [UpdateCredentialCall(t, check, save, add2, now)]).db;
               HasUser(db, 100) && !HasCredential(db, 100, PIN_AUTH)
  {
    var calls := FirstPinCalls(e, register, open, p, enroll, t, check, add);
    FirstPinAdded(e, register, open, p, enroll, t, check, add);
    Then(calls, UpdateCredentialCall(t, check, save, add2, now));
    UpdateLoses(Reached(calls), t, check, save, add2, now);
  }

  // ----- one face token adds two credentials -----------------------------------------------------

  lemma RegisterSecond(h: Hal, e: ExecutorInfo, f: ExecutorInfo, env: RegisterEnv)
    requires h.pool == Some([e]) && e.authType != f.authType && e.executorId != f.executorId
    requires env.copied && env.inserted && env.draws[0] == Some(f.executorId)
    ensures Step(h, ExecutorRegister(f, env)) == h.(pool := Some([f, e]))
  {
    assert !SameKind(f)(e) && |[e][1..]| == 0;
    assert RemoveFirst([e], SameKind(f)) == [e];
    assert FirstFresh(env.draws, ExecutorIds([e])) == Some(f.executorId);
    assert [f] + [e] == [f, e];
    assert Register([e], f, env).1 == [f, e];
  }

  function FaceSchedule(f: ExecutorInfo): CoAuthSchedule {
    CoAuthSchedule(15, SCHEDULE_MODE_ENROLL, 6, 0, 0, [f])
  }

  lemma FirstOfTwo(e: ExecutorInfo, f: ExecutorInfo)
    requires e.authType != f.authType
    ensures Mount(Some([f, e]), f.authType) == Some([f])
  {
    assert [f, e][1..] == [e] && |[e][1..]| == 0 && |[f][1..]| == 0;
    assert OfAuthType([e], f.authType) == [];
    assert OfAuthType([f, e], f.authType) == [f] + OfAuthType([e], f.authType) == [f];
    assert Reverse([f]) == Reverse([f][1..]) + [f] == [f];
  }

  lemma FaceScheduleMade(e: ExecutorInfo, f: ExecutorInfo, session: IdmSession.SessionInfo, p: PermissionParam,
                         env: EnrollEnv)
    requires session.challenge == 6 && e.authType == PIN_AUTH && f.authType == p.authType == FACE_AUTH
             && p.authSubType == 0
    requires env.generate.malloced && env.generate.draws[0] == Some(15)
    ensures EnrollSchedule(Some(session), Some([PinSchedule(e)]), Some([f, e]), p, env) == Some(FaceSchedule(f))
  {
    FirstOfTwo(e, f);
    assert ScheduleIds([PinSchedule(e)]) == {5};
    assert FirstFresh(env.generate.draws, {5}) == Some(15);
  }

  /** The user token of a PIN authentication for the session, fresh and with the right MAC. */
  predicate PinProven(session: IdmSession.SessionInfo, p: PermissionParam, env: EnrollEnv) {
    && p.token.authType == PIN_AUTH && p.token.challenge == session.challenge
    && session.validAuthTokenTime <= p.token.time <= env.now <= p.token.time + TOKEN_VALIDITY_PERIOD
    && env.userMac(p.token.(sign := [])) == Some(p.token.sign)
  }

  lemma EnrollFace(h: Hal, e: ExecutorInfo, f: ExecutorInfo, p: PermissionParam, env: EnrollEnv)
    requires h.pool == Some([f, e]) && h.schedules == Some([PinSchedule(e)]) && h.session.Some?
             && h.session.value.challenge == 6
    requires e.authType == PIN_AUTH && f.authType == p.authType == FACE_AUTH && p.authSubType == 0
    requires !HasCredential(h.db, p.userId, FACE_AUTH) && PinProven(h.session.value, p, env)
    requires env.generate.malloced && env.generate.draws[0] == Some(15) && env.add.copied && env.add.inserted
    ensures Step(h, InitSchedulation(p, env)).session == IdmSession.Associate(h.session, 15)
    ensures Step(h, InitSchedulation(p, env)).db == h.db
  {
    PermissionIff(h.session, h.db, p, env);
    FaceScheduleMade(e, f, h.session.value, p, env);
    AddIff(h.schedules, FaceSchedule(f), env.add);
    assert Enroll(h.session, h.schedules, h.pool, h.db, p, env).1 == IdmSession.Associate(h.session, 15);
  }

  function FaceWithId(face: ScheduleToken, id: u64): CredentialInfo {
    CredentialInfo(id, face.authType, face.authSubType, face.templateId, face.capabilityLevel)
  }

  /** The credentials of the user after a face was added so many times. */
  function FaceUser(t: ScheduleToken, face: ScheduleToken, entry: u64, faces: seq<u64>): User {
    PinUser(t).(credentials := seq(|faces|,
                                   i requires 0 <= i < |faces| => FaceWithId(face, faces[i]))
                               + PinUser(t).credentials,
                enrolled := [EnrolledInfo(FACE_AUTH, entry)] + PinUser(t).enrolled)
  }

  predicate FaceAddWorks(add: AddEnv, entry: u64, id: u64) {
    && add.enrolledMalloced && add.enrolledInserted && add.credentialMalloced && add.credentialInserted
    && add.enrolledDraws[0] == Some(entry) && add.credentialDraws[0] == Some(id)
  }

  lemma FirstFace(t: ScheduleToken, face: ScheduleToken, add: AddEnv)
    requires t.authType == PIN_AUTH && face.authType == FACE_AUTH && FaceAddWorks(add, 18, 10)
    ensures AddCredentialToUser(PinUser(t), CredentialFrom(face), add) ==
            (RESULT_SUCCESS, FaceUser(t, face, 18, [10]), CredentialFrom(face).(credentialId := 10))
  {
    var u := PinUser(t);
    assert !EnrolledHasType(FACE_AUTH)(u.enrolled[0]) && |u.enrolled[1..]| == 0;
    assert FirstIndex(u.enrolled, EnrolledHasType(FACE_AUTH)) == 1;
    assert EnrolledIds(u.enrolled) == {8} && CredentialIds(u.credentials) == {9};
    assert FirstFresh(add.enrolledDraws, {8}) == Some(18) && FirstFresh(add.credentialDraws, {9}) == Some(10);
    assert FaceUser(t, face, 18, [10]).credentials == [CredentialFrom(face).(credentialId := 10)] + u.credentials;
  }

  lemma SecondFace(t: ScheduleToken, face: ScheduleToken, add: AddEnv)
    requires t.authType == PIN_AUTH && face.authType == FACE_AUTH && FaceAddWorks(add, 19, 11)
    ensures AddCredentialToUser(FaceUser(t, face, 18, [10]), CredentialFrom(face), add) ==
            (RESULT_SUCCESS, FaceUser(t, face, 19, [11, 10]), CredentialFrom(face).(credentialId := 11))
  {
    var u, u1 := FaceUser(t, face, 18, [10]), FaceUser(t, face, 19, [11, 10]);
    assert EnrolledHasType(FACE_AUTH)(u.enrolled[0]);
    assert FirstIndex(u.enrolled, EnrolledHasType(FACE_AUTH)) == 0;
    assert EnrolledIds(u.enrolled) == {18, 8} by {
      assert u.enrolled == [EnrolledInfo(FACE_AUTH, 18), EnrolledInfo(PIN_AUTH, 8)];
    }
    assert CredentialIds(u.credentials) == {10, 9} by {
      assert u.credentials == [CredentialFrom(face).(credentialId := 10), CredentialFrom(t).(credentialId := 9)];
    }
    assert FirstFresh(add.enrolledDraws, {18, 8}) == Some(19) && FirstFresh(add.credentialDraws, {10, 9}) == Some(11);
    assert u.enrolled[0 := EnrolledInfo(FACE_AUTH, 19)] == u1.enrolled;
    assert u1.credentials == [CredentialFrom(face).(credentialId := 11)] + u.credentials;
  }

  lemma AddFace(h: Hal, u: User, face: ScheduleToken, check: TokenEnv, add: AddEnv)
    requires h.db.users == Some([u]) && face.authType == FACE_AUTH
    requires Acceptable(h.session, face, check) && h.session.value.userId == u.userId
    ensures Step(h, AddCredentialCall(face, check, add)).session == h.session
    ensures Step(h, AddCredentialCall(face, check, add)).db.users ==
            Some([AddCredentialToUser(u, CredentialFrom(face), add).1])
  {
    ScheduleTokenIff(h.session, face, check);
    assert UserHasId(u.userId)(u) && FindUser([u], u.userId) == 0 && UserOf(h.db, u.userId) == u;
    AddForUser(h.db, u.userId, CredentialFrom(face), add);
    assert [u][0 := AddCredentialToUser(u, CredentialFrom(face), add).1] ==
           [AddCredentialToUser(u, CredentialFrom(face), add).1];
  }

  /** A second executor, for faces, and an enrolment of a face. */
  predicate FaceEnrolled(e: ExecutorInfo, f: ExecutorInfo, open: IdmSession.OpenEnv, register: RegisterEnv,
                         p: PermissionParam, enroll: EnrollEnv) {
    && f.authType == p.authType == FACE_AUTH && p.authSubType == 0 && p.userId == 100 && e.executorId != f.executorId
    && register.copied && register.inserted && register.draws[0] == Some(f.executorId)
    && PinProven(SessionOf(100, open.now), p, enroll)
    && enroll.generate.malloced && enroll.generate.draws[0] == Some(15) && enroll.add.copied && enroll.add.inserted
  }

  lemma NoFaceYet(h: Hal, t: ScheduleToken)
    requires h.db.users == Some([PinUser(t)]) && t.authType == PIN_AUTH
    ensures !HasCredential(h.db, 100, FACE_AUTH)
  {
    var u := PinUser(t);
    assert UserHasId(100)(u) && UserOf(h.db, 100) == u;
    assert !CredentialHasType(FACE_AUTH)(u.credentials[0]) && |u.credentials[1..]| == 0;
  }

  lemma FaceEnrolment(calls: seq<Call>, e: ExecutorInfo, f: ExecutorInfo, open: IdmSession.OpenEnv, t: ScheduleToken,
                      register: RegisterEnv, p: PermissionParam, enroll: EnrollEnv)
    requires FaceEnrolled(e, f, open, register, p, enroll) && e.authType == t.authType == PIN_AUTH
    requires var h := Reached(calls);
             && h.db.users == Some([PinUser(t)]) && h.pool == Some([e]) && h.schedules == Some([PinSchedule(e)])
             && h.session == IdmSession.Associate(Some(SessionOf(100, open.now)), 5)
    ensures var h := Reached(calls + [ExecutorRegister(f, register)] + [InitSchedulation(p, enroll)]);
            && h.db.users == Some([PinUser(t)])
            && h.session == IdmSession.Associate(Some(SessionOf(100, open.now)), 15)
  {
    var h := Reached(calls);
    Then(calls, ExecutorRegister(f, register));
    RegisterSecond(h, e, f, register);
    Then(calls + [ExecutorRegister(f, register)], InitSchedulation(p, enroll));
    NoFaceYet(h.(pool := Some([f, e])), t);
    EnrollFace(h.(pool := Some([f, e])), e, f, p, enroll);
  }

  /** Adding twice with one face token, in a session of the user with the PIN. */
  lemma FaceTwice(calls: seq<Call>, t: ScheduleToken, face: ScheduleToken, check: TokenEnv, add: AddEnv, add2: AddEnv)
    requires var h := Reached(calls);
             h.db.users == Some([PinUser(t)]) && Acceptable(h.session, face, check) && h.session.value.userId == 100
    requires t.authType == PIN_AUTH && face.authType == FACE_AUTH && FaceAddWorks(add, 18, 10)
             && FaceAddWorks(add2, 19, 11)
    ensures Reached(calls + [AddCredentialCall(face, check, add)] + [AddCredentialCall(face, check, add2)]).db.users ==
            Some([FaceUser(t, face, 19, [11, 10])])
  {
    var h := Reached(calls);
    Then(calls, AddCredentialCall(face, check, add));
    AddFace(h, PinUser(t), face, check, add);
    FirstFace(t, face, add);
    Then(calls + [AddCredentialCall(face, check, add)], AddCredentialCall(face, check, add2));
    AddFace(Step(h, AddCredentialCall(face, check, add)), FaceUser(t, face, 18, [10]), face, check, add2);
    SecondFace(t, face, add2);
  }

  /** From the start: a first PIN, then an enrolment of a face, and one face token presented twice leaves the user with
      two credentials of its content. */
  lemma ReusedFaceToken(e: ExecutorInfo, register: RegisterEnv, open: IdmSession.OpenEnv, p: PermissionParam,
                        enroll: EnrollEnv, t: ScheduleToken, check: TokenEnv, add: AddEnv, f: ExecutorInfo,
                        register2: RegisterEnv, p2: PermissionParam, enroll2: EnrollEnv, face: ScheduleToken,
                        check2: TokenEnv, add2: AddEnv, add3: AddEnv)
    requires FirstPin(e, register, open, p, enroll, t, check, add) && FaceEnrolled(e, f, open, register2, p2, enroll2)
    requires face.authType == FACE_AUTH
             && Acceptable(IdmSession.Associate(Some(SessionOf(100, open.now)), 15), face, check2)
    requires FaceAddWorks(add2, 18, 10) && FaceAddWorks(add3, 19, 11)
    ensures Reached(FirstPinCalls(e, register, open, p, enroll, t, check, add)
                    + [ExecutorRegister(f, register2)] + [InitSchedulation(p2, enroll2)]
                    + [AddCredentialCall(face, check2, add2)] + [AddCredentialCall(face, check2, add3)]).db.users ==
            Some([FaceUser(t, face, 19, [11, 10])])
  {
    var calls := FirstPinCalls(e, register, open, p, enroll, t, check, add);
    FirstPinAdded(e, register, open, p, enroll, t, check, add);
    FaceEnrolment(calls, e, f, open, t, register2, p2, enroll2);
    FaceTwice(calls + [ExecutorRegister(f, register2)] + [InitSchedulation(p2, enroll2)], t, face, check2, add2, add3);
  }

  // ----- a deleted credential that is back after a new start -------------------------------------

  lemma FacesFit(t: ScheduleToken, face: ScheduleToken)
    ensures UsersSize([FaceUser(t, face, 19, [11, 10])]) == 172
  {
    var u := FaceUser(t, face, 19, [11, 10]);
    assert |[u][1..]| == 0 && UserSize(u) == 172;
    assert UsersSize([u]) == UserSize(u) + UsersSize([u][1..]);
  }

  lemma AddSaved(db: Db, u: User, u1: User, c: CredentialInfo, c1: CredentialInfo, add: AddEnv)
    requires db.users == Some([u]) && c.authType != PIN_AUTH
    requires AddCredentialToUser(u, c, add) == (RESULT_SUCCESS, u1, c1)
    requires add.save.bufferMalloced && add.save.write == FileManager.Written && 8 + UsersSize([u1]) <= PRE_APPLY_LEN
    ensures DatabaseRuns.Written(AddCredentialInfo(db, u.userId, c, add).1)
  {
    assert UserHasId(u.userId)(u) && FindUser([u], u.userId) == 0 && UserOf(db, u.userId) == u;
    AddForUser(db, u.userId, c, add);
    assert SetUser(db, u.userId, u1) == db.(users := Some([u][0 := u1])) && [u][0 := u1] == [u1];
    SavesIff([u1], db.file, add.save);
    DatabaseRuns.SaveWrites(db.(users := Some([u1])), add.save);
  }

  lemma FacesSaved(db: Db, t: ScheduleToken, face: ScheduleToken, add2: AddEnv)
    requires db.users == Some([FaceUser(t, face, 18, [10])]) && t.authType == PIN_AUTH && face.authType == FACE_AUTH
    requires FaceAddWorks(add2, 19, 11) && add2.save.bufferMalloced && add2.save.write == FileManager.Written
    ensures DatabaseRuns.Written(AddCredentialInfo(db, 100, CredentialFrom(face), add2).1)
  {
    SecondFace(t, face, add2);
    FacesFit(t, face);
    AddSaved(db, FaceUser(t, face, 18, [10]), FaceUser(t, face, 19, [11, 10]), CredentialFrom(face),
             CredentialFrom(face).(credentialId := 11), add2);
  }

  lemma AddCallDb(h: Hal, token: ScheduleToken, check: TokenEnv, add: AddEnv)
    requires Acceptable(h.session, token, check)
    ensures Step(h, AddCredentialCall(token, check, add)).db ==
            AddCredentialInfo(h.db, h.session.value.userId, CredentialFrom(token), add).1
  {
    ScheduleTokenIff(h.session, token, check);
  }

  /** When the last face is also saved, the file holds both. */
  lemma FacesWritten(h: Hal, t: ScheduleToken, face: ScheduleToken, check: TokenEnv, add2: AddEnv)
    requires h.db.users == Some([FaceUser(t, face, 18, [10])]) && t.authType == PIN_AUTH && face.authType == FACE_AUTH
    requires Acceptable(h.session, face, check) && h.session.value.userId == 100 && FaceAddWorks(add2, 19, 11)
    requires add2.save.bufferMalloced && add2.save.write == FileManager.Written
    ensures DatabaseRuns.Written(Step(h, AddCredentialCall(face, check, add2)).db)
  {
    AddCallDb(h, face, check, add2);
    FacesSaved(h.db, t, face, add2);
  }

  lemma ReachedOk(calls: seq<Call>)
    ensures DatabaseRuns.DbOk(Reached(calls).db)
  {
    RunEnds(START, NOTHING, calls);
    DbStaysOk(START, calls, |calls|);
  }

  lemma OneFaceDeleted(db: Db, u: User, t: ScheduleToken, face: ScheduleToken, save: SaveEnv)
    requires t.authType == PIN_AUTH && face.authType == FACE_AUTH && u == FaceUser(t, face, 19, [11, 10])
    requires db.users == Some([u]) && UsersOk([u])
    ensures var (r, _, c) := DeleteCredentialInfo(db, 100, 11, DatabaseRuns.NO_CREDENTIAL, save);
            HasUser(db, 100) && UserOf(db, 100) == u && r == RESULT_SUCCESS && c.authType == FACE_AUTH
  {
    var cs := u.credentials;
    assert cs == [FaceWithId(face, 11), FaceWithId(face, 10)] + PinUser(t).credentials;
    assert UserHasId(100)(u) && UserOf(db, 100) == u;
    assert CredentialHasId(11)(cs[0]) && FirstIndex(cs, CredentialHasId(11)) == 0;
    assert RemoveFirst(cs, CredentialHasId(11)) == cs[1..] && CredentialHasType(FACE_AUTH)(cs[1..][0]);
    DatabaseRuns.DeleteOutcome(db, 100, 11, DatabaseRuns.NO_CREDENTIAL, save);
  }

  lemma DeletedFaceReturns(db: Db, t: ScheduleToken, face: ScheduleToken, save: SaveEnv)
    requires t.authType == PIN_AUTH && face.authType == FACE_AUTH
    requires db.users == Some([FaceUser(t, face, 19, [11, 10])]) && DatabaseRuns.DbOk(db) && DatabaseRuns.Written(db)
    ensures var db2 := DatabaseRuns.Run(db, [DatabaseRuns.Delete(100, 11, save), DatabaseRuns.Reload]);
            db2.users.Some? && UserDeletion.Stored(db2.users.value, 100, 11)
  {
    var u := FaceUser(t, face, 19, [11, 10]);
    OneFaceDeleted(db, u, t, face, save);
    UserDeletion.DeletedReturnsIff(db, 100, 11, save);
    assert u.credentials[1].authType == FACE_AUTH && u.credentials[1].credentialId == 10;
    assert u.credentials[1] in UserOf(db, 100).credentials;
  }

  lemma DeleteAndStart(calls: seq<Call>, c: Call)
    requires c.DeleteCredentialCall? && Deletable(Reached(calls).session, c.userToken, c.deleteCheck)
    ensures Reached(calls + [c] + [Restart] + [Init]).db.users ==
            DatabaseRuns.Run(Reached(calls).db, [DatabaseRuns.Delete(c.userId, c.credentialId, c.saveEnv),
                                                 DatabaseRuns.Reload]).users
  {
    var h := Reached(calls);
    UserTokenAcceptedIff(h.session, c.userToken, c.deleteCheck);
    Then(calls, c);
    Then(calls + [c], Restart);
    Then(calls + [c] + [Restart], Init);
    DatabaseRuns.TwoSteps(h.db, DatabaseRuns.Delete(c.userId, c.credentialId, c.saveEnv), DatabaseRuns.Reload);
  }

  /** From the start: of the two faces added with one token, one is deleted with success, and is back after a new
      start. */
  lemma ReturnedFace(calls: seq<Call>, t: ScheduleToken, face: ScheduleToken, check: TokenEnv, add: AddEnv,
                     add2: AddEnv, c: Call)
    requires var h := Reached(calls);
             h.db.users == Some([PinUser(t)]) && Acceptable(h.session, face, check) && h.session.value.userId == 100
             && c.DeleteCredentialCall? && c.userId == 100 && c.credentialId == 11
             && Deletable(h.session, c.userToken, c.deleteCheck)
    requires t.authType == PIN_AUTH && face.authType == FACE_AUTH && FaceAddWorks(add, 18, 10)
             && FaceAddWorks(add2, 19, 11)
    requires add2.save.bufferMalloced && add2.save.write == FileManager.Written
    ensures var faces := calls + [AddCredentialCall(face, check, add)] + [AddCredentialCall(face, check, add2)];
            var users := Reached(faces + [c] + [Restart] + [Init]).db.users;
            users.Some? && UserDeletion.Stored(users.value, 100, 11)
  {
    var one := calls + [AddCredentialCall(face, check, add)];
    var faces := one + [AddCredentialCall(face, check, add2)];
    var h := Reached(calls);
    Then(calls, AddCredentialCall(face, check, add));
    AddFace(h, PinUser(t), face, check, add);
    FirstFace(t, face, add);
    Then(one, AddCredentialCall(face, check, add2));
    AddFace(Reached(one), FaceUser(t, face, 18, [10]), face, check, add2);
    SecondFace(t, face, add2);
    FacesWritten(Reached(one), t, face, check, add2);
    ReachedOk(faces);
    DeletedFaceReturns(Reached(faces).db, t, face, c.saveEnv);
    DeleteAndStart(faces, c);
  }
}
