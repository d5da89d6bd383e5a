/** user_idm_funcs.c: the calls that sequence session, schedules and database. */
module UserIdm {
  import opened Base
  import opened IdmCommon
  import opened IdmSession
  import opened Pool
  import opened CoAuth
  import opened CoAuthFuncs
  import opened UserIdmSpec
  import opened FileManager
  import ContextSpec
  import Spec = DatabaseSpec
  import Database

  const NO_CREDENTIAL := CredentialInfo(0, 0, 0, 0, 0)

  method UserAuthTokenVerify(t: ContextSpec.UserAuthToken, now: u64, mac: Mac<ContextSpec.UserAuthToken>)
    returns (r: ResultCode)
    ensures r == ContextSpec.UserVerify(t, now, mac)
  {
    if now < t.time || now - t.time > TOKEN_VALIDITY_PERIOD {
      return RESULT_TOKEN_TIMEOUT;
    }
    var rightSign := mac(t.(sign := []));
    if rightSign.None? {
      return RESULT_GENERAL_ERROR;
    }
    return if rightSign.value != t.sign then RESULT_BAD_SIGN else RESULT_SUCCESS;
  }

  /** The challenge, time and signature checks both permission checks end with. */
  method VerifyForSession(session: Session, token: ContextSpec.UserAuthToken, env: EnrollEnv) returns (r: ResultCode)
    ensures r == CheckToken(session.session, token, env)
  {
    if session.session.None? || session.session.value.challenge != token.challenge {
      return RESULT_BAD_MATCH;
    }
    if !TokenTimeValid(session.session, token.time) {
      return RESULT_VERIFY_TOKEN_FAIL;
    }
    r := UserAuthTokenVerify(token, env.now, env.userMac);
  }

  method PinPermissionCheck(session: Session, db: Database.IdmDatabase, userId: i32, token: ContextSpec.UserAuthToken,
                            env: EnrollEnv)
    returns (r: ResultCode)
    requires db.Valid()
    modifies db`currentUser
    ensures db.Valid() && r == Permission(session.session, old(db.State()), PermissionParam(token, userId, PIN_AUTH, 0),
                                          env)
    ensures db.currentUser == old(db.LookedUp(PermissionLookup(PermissionParam(token, userId, PIN_AUTH, 0))))
  {
    var credential;
    r, credential := db.QueryCredentialInfo(userId, PIN_AUTH, NO_CREDENTIAL);
    if r == RESULT_NOT_FOUND {
      return RESULT_SUCCESS;
    }
    if token.authType != PIN_AUTH {
      return RESULT_VERIFY_TOKEN_FAIL;
    }
    r := VerifyForSession(session, token, env);
  }

  method FacePermissionCheck(session: Session, db: Database.IdmDatabase, userId: i32, token: ContextSpec.UserAuthToken,
                             env: EnrollEnv)
    returns (r: ResultCode)
    requires db.Valid()
    modifies db`currentUser
    ensures db.Valid() && r == Permission(session.session, old(db.State()),
                                          PermissionParam(token, userId, FACE_AUTH, 0), env)
    ensures db.currentUser == old(db.LookedUp(PermissionLookup(PermissionParam(token, userId, FACE_AUTH, 0))))
  {
    if token.authType != PIN_AUTH {
      return RESULT_VERIFY_TOKEN_FAIL;
    }
    var credential;
    r, credential := db.QueryCredentialInfo(userId, FACE_AUTH, NO_CREDENTIAL);
    if r != RESULT_NOT_FOUND {
      return RESULT_EXCEED_LIMIT;
    }
    r := VerifyForSession(session, token, env);
  }

  method PermissionCheck(session: Session, db: Database.IdmDatabase, param: PermissionParam, env: EnrollEnv)
    returns (r: ResultCode)
    requires db.Valid()
    modifies db`currentUser
    ensures db.Valid() && r == Permission(session.session, old(db.State()), param, env)
    ensures db.currentUser == old(db.LookedUp(PermissionLookup(param)))
  {
    if param.authType == PIN_AUTH {
      r := PinPermissionCheck(session, db, param.userId, param.token, env);
    } else if param.authType == FACE_AUTH {
      r := FacePermissionCheck(session, db, param.userId, param.token, env);
    } else {
      r := RESULT_BAD_MATCH;
    }
  }

  method CheckEnrollPermission(session: Session, center: CoAuthCenter, pool: ResourcePool, db: Database.IdmDatabase,
                               param: PermissionParam, env: EnrollEnv) returns (r: ResultCode, scheduleId: Option<u64>)
    requires center.Valid() && pool.Valid() && db.Valid()
    modifies session, center.scheduleList, db`currentUser
    ensures center.Valid() && db.Valid()
    ensures (r, session.session, center.Schedules(), scheduleId) ==
            old(Enroll(session.session, center.Schedules(), pool.Executors(), db.State(), param, env))
    ensures db.currentUser == old(db.LookedUp(PermissionLookup(param)))
    ensures r == RESULT_SUCCESS ==>
              EnrolledAs(old(session.session), session.session, old(center.Schedules()), center.Schedules(), param,
                         scheduleId)
  {
    PermittedEnrols(session.session, center.Schedules(), pool.Executors(), db.State(), param, env);
    r := PermissionCheck(session, db, param, env);
    if r != RESULT_SUCCESS {
      return r, None;
    }
    r, scheduleId := StartEnrollment(session, center, pool, param, env);
  }

  /** The part of CheckEnrollPermission after the check. */
  method StartEnrollment(session: Session, center: CoAuthCenter, pool: ResourcePool, param: PermissionParam,
                         env: EnrollEnv)
    returns (r: ResultCode, scheduleId: Option<u64>)
    requires center.Valid() && pool.Valid()
    modifies session, center.scheduleList
    ensures center.Valid()
    ensures (r, session.session, center.Schedules(), scheduleId) ==
            old(Started(session.session, center.Schedules(),
                        EnrollSchedule(session.session, center.Schedules(), pool.Executors(), param, env), env))
  {
    var challenge := if session.session.Some? then session.session.value.challenge else env.stray;
    var schedule := center.GenerateIdmSchedule(pool, challenge, param.authType, param.authSubType, env.generate);
    if schedule.None? {
      return RESULT_NO_MEMORY, None;
    }
    r := center.AddCoAuthSchedule(schedule.value, env.add);
    if r != RESULT_SUCCESS {
      return r, None;
    }
    r := session.AssociateCoauthSchedule(schedule.value.scheduleId);
    if r != RESULT_SUCCESS {
      return r, None;
    }
    return r, Some(schedule.value.scheduleId);
  }

  /** The checks AddCredentialFunc and UpdateCredentialFunc begin with. */
  method ScheduleTokenCheck(session: Session, token: ScheduleToken, env: TokenEnv) returns (r: ResultCode)
    ensures r == CheckScheduleToken(session.session, token, env)
  {
    var currentSchedule := CurrentSchedule(session.session);
    if currentSchedule.None? || token.scheduleId != currentSchedule.value || TimedOut(session.session, env.sessionNow) {
      return RESULT_REACH_LIMIT;
    }
    r := CoAuthTokenVerify(token, env.tokenNow, env.mac);
    if r != RESULT_SUCCESS {
      return RESULT_BAD_SIGN;
    }
  }

  method AddCredentialFunc(session: Session, db: Database.IdmDatabase, token: ScheduleToken, check: TokenEnv,
                           env: Spec.AddEnv)
    returns (r: ResultCode, credentialId: Option<u64>)
    requires db.Valid()
    modifies db, db.userInfoList, db.fileOperator
    ensures db.Valid()
    ensures (r, db.State(), credentialId) == AddCredential(session.session, old(db.State()), token, check, env)
    ensures db.currentUser == old(db.LookedUp(TokenLookup(session.session, token, check)))
    ensures !Acceptable(session.session, token, check) ==> db.State() == old(db.State()) && r != RESULT_SUCCESS
    ensures r == RESULT_SUCCESS ==>
              AddedFor(old(db.State()), db.State(), session.session.value.userId, token, credentialId)
  {
    AcceptedAdds(session.session, db.State(), token, check, env);
    r := ScheduleTokenCheck(session, token, check);
    if r != RESULT_SUCCESS {
      return r, None;
    }
    var credential;
    r, credential := db.AddCredentialInfo(session.session.value.userId, CredentialFrom(token), env);
    credentialId := if r == RESULT_SUCCESS then Some(credential.credentialId) else None;
  }

  method DeleteCredentialFunc(session: Session, db: Database.IdmDatabase, userId: i32, credentialId: u64,
                              token: ContextSpec.UserAuthToken, info: CredentialInfo, check: UserTokenEnv, env: SaveEnv)
    returns (r: ResultCode, out: CredentialInfo)
    requires db.Valid()
    modifies db, db.userInfoList, db.fileOperator
    ensures db.Valid()
    ensures (r, db.State(), out) ==
            DeleteCredential(session.session, old(db.State()), userId, credentialId, token, info, check, env)
    ensures db.currentUser == old(db.LookedUp(DeleteLookup(session.session, userId, token, check)))
    ensures !Deletable(session.session, token, check) ==>
              db.State() == old(db.State()) && r == RESULT_BAD_SIGN && out == info
    ensures r == RESULT_SUCCESS ==> DeletedFor(old(db.State()), db.State(), userId, credentialId, out)
  {
    AcceptedDeletes(session.session, db.State(), userId, credentialId, token, info, check, env);
    if session.session.None? || session.session.value.challenge != token.challenge
      || TimedOut(session.session, check.sessionNow) {
      return RESULT_BAD_SIGN, info;
    }
    r := UserAuthTokenVerify(token, check.tokenNow, check.userMac);
    if r != RESULT_SUCCESS {
      return RESULT_BAD_SIGN, info;
    }
    r, out := db.DeleteCredentialInfo(userId, credentialId, info, env);
    r := if r == RESULT_SUCCESS then r else RESULT_BAD_SIGN;
  }

  method UpdateCredentialFunc(session: Session, db: Database.IdmDatabase, token: ScheduleToken, info: CredentialInfo,
                              check: TokenEnv, deleteEnv: SaveEnv, env: Spec.AddEnv)
    returns (r: ResultCode, deleted: CredentialInfo, credentialId: Option<u64>)
    requires db.Valid()
    modifies db, db.userInfoList, db.fileOperator
    ensures db.Valid()
    ensures (r, db.State(), deleted, credentialId) ==
            UpdateCredential(session.session, old(db.State()), token, info, check, deleteEnv, env)
    ensures db.currentUser == old(db.LookedUp(UpdateLookup(session.session, token, check)))
    ensures !Acceptable(session.session, token, check) || token.authType != PIN_AUTH ==>
              db.State() == old(db.State()) && r != RESULT_SUCCESS
    ensures r == RESULT_SUCCESS ==>
              ReplacedFor(old(db.State()), db.State(), session.session.value.userId, token, deleted, credentialId)
  {
    AcceptedReplaces(session.session, db.State(), token, info, check, deleteEnv, env);
    if token.authType != PIN_AUTH {
      return RESULT_BAD_PARAM, info, None;
    }
    r := ScheduleTokenCheck(session, token, check);
    if r != RESULT_SUCCESS {
      return r, info, None;
    }
    r, deleted, credentialId := ReplaceStoredPin(db, session.session.value.userId, CredentialFrom(token), info,
                                                 deleteEnv, env);
  }

  method ReplaceStoredPin(db: Database.IdmDatabase, userId: i32, credential: CredentialInfo, info: CredentialInfo,
                          deleteEnv: SaveEnv, env: Spec.AddEnv)
    returns (r: ResultCode, deleted: CredentialInfo, credentialId: Option<u64>)
    requires db.Valid()
    modifies db, db.userInfoList, db.fileOperator
    ensures db.Valid()
    ensures (r, db.State(), deleted, credentialId) ==
            ReplacePin(old(db.State()), userId, credential, info, deleteEnv, env)
    ensures db.currentUser == old(db.Looked(userId))
  {
    r, deleted := db.QueryCredentialInfo(userId, PIN_AUTH, info);
    if r != RESULT_SUCCESS {
      return r, deleted, None;
    }
    r, deleted := db.DeleteCredentialInfo(userId, deleted.credentialId, deleted, deleteEnv);
    if r != RESULT_SUCCESS {
      return r, deleted, None;
    }
    var added;
    r, added := db.AddCredentialInfo(userId, credential, env);
    credentialId := if r == RESULT_SUCCESS then Some(added.credentialId) else None;
  }

  /** All credentials of the user, those of all users (from QueryCredentialFromExecutor), or the first of the type. */
  method QueryCredentialFunc(db: Database.IdmDatabase, userId: i32, authType: u32, malloced: bool,
                             fromExecutor: (ResultCode, seq<CredentialInfo>))
    returns (r: ResultCode, infos: seq<CredentialInfo>)
    requires db.Valid()
    modifies db`currentUser
    ensures db.Valid() && (r, infos) == Queried(old(db.State()), userId, authType, malloced, fromExecutor)
    ensures db.currentUser == old(db.LookedUp(QueryLookup(userId, authType)))
  {
    if authType == DEFAULT_AUTH_TYPE {
      r, infos := db.QueryCredentialInfoAll(userId, malloced);
      return r, if r == RESULT_SUCCESS then infos else [];
    }
    if userId == ALL_INFO_GET_USER_ID {
      return fromExecutor.0, fromExecutor.1;
    }
    var info;
    r, info := db.QueryCredentialInfo(userId, authType, NO_CREDENTIAL);
    if r != RESULT_SUCCESS {
      return r, [];
    }
    if !malloced {
      return RESULT_NO_MEMORY, [];
    }
    return RESULT_SUCCESS, [info];
  }

  /** The secure uid and the enrolled entries of the user. */
  method GetUserSecureUidFunc(db: Database.IdmDatabase, userId: i32, malloced: bool)
    returns (r: ResultCode, secureUid: u64, infos: seq<EnrolledInfo>)
    requires db.Valid()
    modifies db`currentUser
    ensures db.Valid() && db.currentUser == old(db.Looked(userId))
    ensures !Spec.HasUser(old(db.State()), userId) ==> r == RESULT_NOT_FOUND
    ensures Spec.HasUser(old(db.State()), userId) ==>
              var u := Spec.UserOf(old(db.State()), userId);
              secureUid == u.secUid
              && if |u.enrolled| > 0 && malloced then r == RESULT_SUCCESS && infos == u.enrolled
                 else r == RESULT_NO_MEMORY
  {
    infos := [];
    r, secureUid := db.GetSecureUid(userId);
    if r != RESULT_SUCCESS {
      return;
    }
    r, infos := db.GetEnrolledInfo(userId, malloced);
  }

  /** The id of the schedule that is broken off; nothing is removed from the schedule list. */
  method CancelScheduleIdFunc(session: Session) returns (r: ResultCode, scheduleId: Option<u64>)
    modifies session
    ensures scheduleId == CurrentSchedule(old(session.session))
    ensures r == if scheduleId.Some? then RESULT_SUCCESS else RESULT_NEED_INIT
    ensures session.session == if scheduleId.Some? then BreakOff(old(session.session)) else old(session.session)
    ensures CurrentSchedule(session.session) == None
  {
    scheduleId := CurrentSchedule(session.session);
    if scheduleId.None? {
      return RESULT_NEED_INIT, None;
    }
    session.BreakOffCoauthSchedule();
    return RESULT_SUCCESS, scheduleId;
  }
}
