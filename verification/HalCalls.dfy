/** What single calls end, and what stays ended over the runs that follow. */
module HalCalls {
  import opened Base
  import opened IdmCommon
  import opened CoAuth
  import opened ContextSpec
  import opened UserIdmSpec
  import opened DatabaseSpec
  import opened FileManager
  import opened HalState
  import AuthLevel
  import DatabaseRuns
  import ExecutorMessage
  import FileLoader
  import IdmSession
  import Pool
  import Tlv
  import UserDeletion

  // ----- starting and stopping -------------------------------------------------------------------

  /** Nothing is initialised: no executor, schedule, context or user is there. */
  predicate Down(h: Hal) {
    h.pool.None? && h.schedules.None? && h.contexts.None? && h.db.users.None?
  }

  /** Close and a new start take everything down; only the file, and on Close the session, stay. */
  lemma TakenDown(h: Hal)
    ensures Down(Step(h, Close)) && Step(h, Close).db.file == h.db.file && Step(h, Close).session == h.session
    ensures Down(Step(h, Restart)) && Step(h, Restart).db.file == h.db.file && Step(h, Restart).session == None
  {}

  /** Init loads the file; what was initialised before stays, and a file that does not load takes everything down. */
  lemma InitMeans(h: Hal)
    ensures var h1 := Step(h, Init);
            && h1.db.file == h.db.file && h1.session == h.session && h1.db.users == FileLoader.Load(h.db.file)
            && (h1.db.users.None? ==> Down(h1))
            && (h1.db.users.Some? ==>
                  && h1.pool == Some(if h.pool.Some? then h.pool.value else [])
                  && h1.schedules == Some(if h.schedules.Some? then h.schedules.value else [])
                  && h1.contexts == Some(if h.contexts.Some? then h.contexts.value else []))
  {}

  /** The call brings nothing about: no schedule, token, context or user token, and no change of the file. */
  predicate Idle(h: Hal, c: Call) {
    && NewSchedule(h, c).None? && NewToken(h, c).None? && NewContext(h, c).None? && NewUserToken(h, c).None?
    && Step(h, c).db.file == h.db.file
  }

  lemma DownDb(db: Db, userId: i32, c: CredentialInfo, env: AddEnv)
    requires db.users.None?
    ensures AddCredentialInfo(db, userId, c, env).1 == db
  {}

  lemma DownUpdate(db: Db, userId: i32, c: CredentialInfo, out: CredentialInfo, save: SaveEnv, env: AddEnv)
    requires db.users.None?
    ensures ReplacePin(db, userId, c, out, save, env).1 == db
  {}

  lemma DownFinish(id: u64, msg: seq<byte>, env: FinishEnv)
    ensures var (r, ss, _) := ScheduleFinish(None, msg, BlankToken(id), env); r != RESULT_SUCCESS && ss == None
  {}

  lemma DownAdd(h: Hal, c: Call)
    requires Down(h) && (c.AddCredentialCall? || c.UpdateCredentialCall?)
    ensures Step(h, c).db == h.db
  {
    if CheckScheduleToken(h.session, c.token, c.check) == RESULT_SUCCESS {
      DownDb(h.db, h.session.value.userId, CredentialFrom(c.token), c.addEnv);
      if c.UpdateCredentialCall? {
        DownUpdate(h.db, h.session.value.userId, CredentialFrom(c.token), DatabaseRuns.NO_CREDENTIAL, c.saveEnv,
                   c.addEnv);
      }
    }
  }

  lemma DownToken(h: Hal, c: Call)
    requires Down(h) && c.GetScheduleToken?
    ensures Step(h, c).schedules == None && NewToken(h, c).None?
  {
    DownFinish(c.scheduleId, c.msg, c.finishEnv);
  }

  lemma DownOther(h: Hal, c: Call)
    requires Down(h) && !c.Init? && !c.AddCredentialCall? && !c.UpdateCredentialCall? && !c.GetScheduleToken?
    ensures Down(Step(h, c)) && Idle(h, c)
  {}

  lemma DownStays(h: Hal, c: Call)
    requires Down(h) && !c.Init?
    ensures Down(Step(h, c)) && Idle(h, c)
  {
    if c.AddCredentialCall? || c.UpdateCredentialCall? {
      DownAdd(h, c);
    } else if c.GetScheduleToken? {
      DownToken(h, c);
    } else {
      DownOther(h, c);
    }
  }

  /** After Close or a new start, until Init is called, no run generates a schedule or a context, signs a token, changes
      the file or brings anything back. */
  lemma {:induction false} DownUntilInit(h: Hal, log: History, calls: seq<Call>)
    requires Down(h) && forall k :: 0 <= k < |calls| ==> !calls[k].Init?
    ensures var (h1, log1) := Run(h, log, calls); Down(h1) && log1 == log && h1.db.file == h.db.file
    decreases |calls|
  {
    if |calls| > 0 {
      DownStays(h, calls[0]);
      DownUntilInit(Step(h, calls[0]), log, calls[1..]);
    }
  }

  // ----- the session's schedule ------------------------------------------------------------------

  /** The session has no schedule after it was opened, closed or broken off, or after a new start. */
  predicate EndsAssociation(c: Call) {
    c.OpenSession? || c.CloseSession? || c.CancelSchedule? || c.Restart?
  }

  /** The call stores nothing from a token. */
  predicate StoresNothing(h: Hal, c: Call) {
    (c.AddCredentialCall? || c.UpdateCredentialCall?) ==> Step(h, c).db == h.db
  }

  predicate AllStoreNothing(h: Hal, calls: seq<Call>)
    decreases |calls|
  {
    |calls| == 0 || (StoresNothing(h, calls[0]) && AllStoreNothing(Step(h, calls[0]), calls[1..]))
  }

  lemma AssociationEnds(h: Hal, c: Call)
    requires EndsAssociation(c)
    ensures IdmSession.CurrentSchedule(Step(h, c).session) == None
  {}

  lemma StaysUnassociated(h: Hal, c: Call)
    requires IdmSession.CurrentSchedule(h.session) == None && !c.InitSchedulation?
    ensures IdmSession.CurrentSchedule(Step(h, c).session) == None && StoresNothing(h, c)
  {}

  /** Once the session has no schedule, whatever tokens are presented, nothing is stored until an enrolment starts. */
  lemma {:induction false} NothingStoredUntilEnrolment(h: Hal, calls: seq<Call>)
    requires IdmSession.CurrentSchedule(h.session) == None
    requires forall k :: 0 <= k < |calls| ==> !calls[k].InitSchedulation?
    ensures AllStoreNothing(h, calls)
    decreases |calls|
  {
    if |calls| > 0 {
      StaysUnassociated(h, calls[0]);
      NothingStoredUntilEnrolment(Step(h, calls[0]), calls[1..]);
    }
  }

  // ----- what a call takes away ------------------------------------------------------------------

  /** The call is made to end the schedule: with a message of valid length, or without any. */
  predicate EndsSchedule(c: Call, id: u64) {
    || (c.DeleteScheduleInfo? && c.scheduleId == id)
    || (c.GetScheduleToken? && c.scheduleId == id && |c.msg| <= Tlv.MAX_BUFFER_SIZE)
  }

  /** Afterwards the schedule is not live, and the others are as they were. */
  lemma ScheduleEnds(h: Hal, c: Call, id: u64)
    requires h.schedules.Some? && SchedulesOk(h.schedules.value) && EndsSchedule(c, id)
    ensures var ss1 := Step(h, c).schedules;
            ss1.Some? && forall s :: s in ss1.value <==> s in h.schedules.value && s.scheduleId != id
  {
    RemoveOk(h.schedules.value, id);
  }

  lemma ExecutorGone(h: Hal, id: u64)
    requires h.pool.Some? && AuthLevel.PoolOk(h.pool.value)
    ensures var pool1 := Step(h, ExecutorUnRegister(id)).pool;
            pool1.Some? && forall e :: e in pool1.value <==> e in h.pool.value && e.executorId != id
  {
    AuthLevel.UnregisterOk(h.pool.value, id);
  }

  lemma ContextCancelled(h: Hal, id: u64, malloced: bool)
    requires h.contexts.Some? && ContextsOk(h.contexts.value)
    ensures var cs1 := Step(h, CancelContext(id, malloced)).contexts;
            cs1.Some? && forall c :: c in cs1.value <==> c in h.contexts.value && c.contextId != id
  {
    CancelMeans(h.contexts.value, id, malloced);
  }

  /** A verified token ends the context it is presented for, and no other; any other token ends none. */
  lemma ContextAnswered(h: Hal, id: u64, t: ScheduleToken, out: UserAuthToken, env: ResultEnv)
    requires h.contexts.Some? && ContextsOk(h.contexts.value)
    ensures var cs1 := Step(h, RequestResult(id, t, out, env)).contexts;
            && cs1.Some?
            && forall c :: c in cs1.value <==>
                 c in h.contexts.value && (c.contextId != id || TokenVerify(t, env.now, env.mac) != RESULT_SUCCESS)
  {
    VerifiedTokenEnds(h.contexts.value, h.db, id, t, out, env);
    LiveIff(h.contexts.value, id);
    var cs1 := Step(h, RequestResult(id, t, out, env)).contexts;
    LiveIff(cs1.value, id);
  }

  /** With an acceptable user token the credential is gone from memory, whether or not the file could be written;
      without one nothing changes. */
  lemma CredentialDeleted(h: Hal, c: Call)
    requires c.DeleteCredentialCall? && HasUser(h.db, c.userId) && UsersOk(h.db.users.value)
    ensures var db1 := Step(h, c).db;
            if Deletable(h.session, c.userToken, c.deleteCheck) then
              && HasUser(db1, c.userId)
              && forall x :: x in UserOf(db1, c.userId).credentials <==>
                   x in UserOf(h.db, c.userId).credentials && x.credentialId != c.credentialId
            else db1 == h.db
  {
    UserTokenAcceptedIff(h.session, c.userToken, c.deleteCheck);
    if Deletable(h.session, c.userToken, c.deleteCheck) {
      var u, u1 := UserOf(h.db, c.userId), DatabaseRuns.UserAfterDelete(UserOf(h.db, c.userId), c.credentialId);
      DatabaseRuns.DeleteMeans(h.db, c.userId, c.credentialId, DatabaseRuns.NO_CREDENTIAL, c.saveEnv);
      DatabaseRuns.UserAfterDeleteOk(u, c.credentialId);
      SetUserTwice(h.db, Step(h, c).db, c.userId, u1, u1);
    }
  }

  /** A user with a credential is deleted from memory when there is memory for the copy, and no other user is; and from
      the file when the list without the user can be saved. */
  lemma UserDeleted(h: Hal, c: Call)
    requires c.DeleteUserEnforce? && h.db.users.Some? && UsersOk(h.db.users.value)
    ensures var db1 := Step(h, c).db;
            && db1.users.Some?
            && (HasUser(h.db, c.userId) && UserOf(h.db, c.userId).credentials != [] && c.malloced ==>
                  && (forall u :: u in db1.users.value <==> u in h.db.users.value && u.userId != c.userId)
                  && (Saves(db1.users.value, c.saveEnv) ==> DatabaseRuns.Written(db1)))
            && (!(HasUser(h.db, c.userId) && UserOf(h.db, c.userId).credentials != [] && c.malloced) ==> db1 == h.db)
  {
    UserDeletedFrom(h.db, c.userId, c.malloced, c.saveEnv);
  }

  lemma UserDeletedFrom(db: Db, id: i32, malloced: bool, env: SaveEnv)
    requires db.users.Some? && UsersOk(db.users.value)
    ensures var db1 := DeleteUserInfo(db, id, malloced, env).1;
            && db1.users.Some?
            && (HasUser(db, id) && UserOf(db, id).credentials != [] && malloced ==>
                  && (forall u :: u in db1.users.value <==> u in db.users.value && u.userId != id)
                  && (Saves(db1.users.value, env) ==> DatabaseRuns.Written(db1)))
            && (!(HasUser(db, id) && UserOf(db, id).credentials != [] && malloced) ==> db1 == db)
  {
    if HasUser(db, id) {
      UserDeletion.DeleteUserSucceeds(db, id, malloced, env);
      UserDeletion.UserGone(db.users.value, id);
    }
  }
}
