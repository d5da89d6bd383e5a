/** The enrolled entries of a user as an index of its credentials: when exactly it stays exact. */
module DatabaseIndex {
  import opened Base
  import opened IdmCommon
  import opened FileManager
  import opened FileLoader
  import opened DatabaseSpec
  import opened DatabaseRuns

  /** The enrolled types of a user are the types of its credentials. */
  ghost predicate IndexExact(u: User) {
    forall t :: IsEnrolled(u.enrolled, t) <==> HasType(u.credentials, t)
  }

  ghost predicate AllExact(users: seq<User>) {
    forall k :: 0 <= k < |users| ==> IndexExact(users[k])
  }

  /** Nothing fails between updating the index and inserting the credential. */
  predicate Completes(cs: seq<CredentialInfo>, env: AddEnv) {
    env.credentialMalloced && env.credentialInserted && FirstFresh(env.credentialDraws, CredentialIds(cs)).Some?
  }

  /** The call does not get to the index, or the type is in it already, or the insertion completes. */
  predicate KeepsIndex(u: User, c: CredentialInfo, env: AddEnv) {
    || |u.enrolled| > MAX_AUTH_TYPE || |u.credentials| >= MAX_CREDENTIAL
    || HasType(u.credentials, c.authType)
    || !env.enrolledMalloced || !env.enrolledInserted || FirstFresh(env.enrolledDraws, EnrolledIds(u.enrolled)).None?
    || Completes(u.credentials, env)
  }

  lemma AddedExact(u: User, c: CredentialInfo, env: AddEnv)
    requires UserOk(u) && IndexExact(u) && AddCredentialToUser(u, c, env).0 == RESULT_SUCCESS
    ensures IndexExact(AddCredentialToUser(u, c, env).1)
  {
    var (_, u1, c1) := AddCredentialToUser(u, c, env);
    AddedToUser(u, c, env);
    forall t ensures HasType(u1.credentials, t) <==> t == c.authType || HasType(u.credentials, t) {
      assert u1.credentials[0] == c1 && u1.credentials[1..] == u.credentials;
    }
  }

  /** An addition that stops after the index was updated leaves an entry exactly for the new type. */
  lemma IndexAhead(u: User, c: CredentialInfo, env: AddEnv)
    requires UserOk(u) && IndexExact(u) && |u.enrolled| <= MAX_AUTH_TYPE && |u.credentials| < MAX_CREDENTIAL
    requires !Completes(u.credentials, env)
    ensures var u1 := AddCredentialToUser(u, c, env).1;
            && u1.credentials == u.credentials
            && forall t :: IsEnrolled(u1.enrolled, t) <==>
                 || IsEnrolled(u.enrolled, t)
                 || (t == c.authType && UpdateEnrolledId(u.enrolled, c.authType, env).0 == RESULT_SUCCESS)
  {
    EnrolledUpdated(u.enrolled, c.authType, env);
  }

  /** Adding keeps an exact index exact exactly under this condition on the user, the type and the environment. */
  lemma AddExactIff(u: User, c: CredentialInfo, env: AddEnv)
    requires UserOk(u) && IndexExact(u)
    ensures IndexExact(AddCredentialToUser(u, c, env).1) <==> KeepsIndex(u, c, env)
  {
    var (r, u1, c1) := AddCredentialToUser(u, c, env);
    if r == RESULT_SUCCESS {
      AddedExact(u, c, env);
    } else if |u.enrolled| <= MAX_AUTH_TYPE && |u.credentials| < MAX_CREDENTIAL && !Completes(u.credentials, env) {
      IndexAhead(u, c, env);
      assert IsEnrolled(u1.enrolled, c.authType) <==>
             IsEnrolled(u.enrolled, c.authType) || UpdateEnrolledId(u.enrolled, c.authType, env).0 == RESULT_SUCCESS;
    }
  }

  /** Removing one credential leaves the types of the others. */
  lemma CredentialRemovedTypes(cs: seq<CredentialInfo>, p: CredentialInfo -> bool, s: u32)
    requires FirstIndex(cs, p) < |cs| && s != cs[FirstIndex(cs, p)].authType
    ensures HasType(RemoveFirst(cs, p), s) <==> HasType(cs, s)
  {
    var i, r := FirstIndex(cs, p), RemoveFirst(cs, p);
    RemoveFirstAt(cs, p);
    RemoveFirstSub(cs, p);
    HasTypeIn(cs, s);
    HasTypeIn(r, s);
    if HasType(cs, s) {
      var a := FirstIndex(cs, CredentialHasType(s));
      assert cs[a].authType == s && a != i;
      assert a < i ==> r[a] == cs[a];
      assert a > i ==> r[a - 1] == cs[a];
    }
  }

  lemma DeleteKeepsExact(u: User, credentialId: u64)
    requires UserOk(u) && IndexExact(u)
    ensures IndexExact(UserAfterDelete(u, credentialId))
  {
    var p := CredentialHasId(credentialId);
    var i := FirstIndex(u.credentials, p);
    if i < |u.credentials| {
      var t, cs, u1 := u.credentials[i].authType, RemoveFirst(u.credentials, p), UserAfterDelete(u, credentialId);
      HasTypeIn(u.credentials, t);
      assert u.credentials[i] in u.credentials;
      forall s ensures IsEnrolled(u1.enrolled, s) <==> HasType(cs, s) {
        EnrolledRemoved(u.enrolled, t, s);
        if s != t {
          CredentialRemovedTypes(u.credentials, p, s);
        }
      }
    }
  }

  lemma ReverseKeepsExact(u: User)
    requires IndexExact(u)
    ensures IndexExact(ReverseUser(u))
  {
    forall t ensures IsEnrolled(Reverse(u.enrolled), t) <==> HasType(Reverse(u.credentials), t) {
      ReverseEnrolled(u.enrolled, t);
      HasTypeIn(u.credentials, t);
      HasTypeIn(Reverse(u.credentials), t);
      forall c ensures c in Reverse(u.credentials) <==> c in u.credentials {
        ReverseIn(u.credentials, c);
      }
    }
  }

  ghost predicate DbExact(db: Db) {
    && DbOk(db)
    && (db.users.Some? ==> AllExact(db.users.value))
    && (db.file.None? || exists users, k :: HoldsPrefix(db.file, users, k) && AllExact(users))
  }

  /** The step does not put an entry into the index that stays without a credential. */
  predicate Clean(db: Db, s: DbStep) {
    s.Add? && HasUser(db, s.id) ==> KeepsIndex(UserOf(db, s.id), s.c, s.env)
  }

  predicate CleanRun(db: Db, steps: seq<DbStep>)
    decreases |steps|
  {
    |steps| == 0 || (Clean(db, steps[0]) && CleanRun(Step(db, steps[0]), steps[1..]))
  }

  /** A new user is inserted with its credential or not at all. */
  lemma AddUserKeepsExact(users: seq<User>, id: i32, c: CredentialInfo, env: AddEnv)
    requires AllExact(users)
    ensures AllExact(AddUser(Some(users), id, c, env).1.value)
  {
    var uid := FirstFresh(env.secUidDraws, SecUids(users));
    if AddUser(Some(users), id, c, env).0 == RESULT_SUCCESS {
      AddedExact(User(id, uid.value, [], []), c, env);
    }
  }

  lemma ReplacedExact(users: seq<User>, k: nat, u: User)
    requires k < |users| && AllExact(users)
    ensures AllExact(users[k := u]) <==> IndexExact(u)
  {
    assert users[k := u][k] == u;
  }

  lemma AddStepExactIff(db: Db, id: i32, c: CredentialInfo, env: AddEnv)
    requires db.users.Some? && UsersOk(db.users.value) && AllExact(db.users.value)
    ensures AddCredentialInfo(db, id, c, env).1.users.Some?
    ensures AllExact(AddCredentialInfo(db, id, c, env).1.users.value) <==> Clean(db, Add(id, c, env))
  {
    if HasUser(db, id) {
      var u := UserOf(db, id);
      if c.authType == PIN_AUTH && HasType(u.credentials, PIN_AUTH) {
        SecondPin(db, id, c, env);
      } else {
        AddExactIff(u, c, env);
        AddOne(db, id, c, env);
        ReplacedExact(db.users.value, FindUser(db.users.value, id), AddCredentialToUser(u, c, env).1);
      }
    } else {
      AddUserKeepsExact(db.users.value, id, c, env);
      AddNew(db, id, c, env);
    }
  }

  /** One call keeps the indexes of all users exact exactly when it is clean. */
  lemma StepExactIff(db: Db, s: DbStep)
    requires DbExact(db) && !s.Reload? && Step(db, s).users.Some?
    ensures AllExact(Step(db, s).users.value) <==> Clean(db, s)
  {
    match s
    case Add(id, c, env) =>
      AddStepExactIff(db, id, c, env);
    case Delete(id, credentialId, env) =>
      DeleteCredentialInfoOk(db, id, credentialId, NO_CREDENTIAL, env);
      if HasUser(db, id) {
        DeleteKeepsExact(UserOf(db, id), credentialId);
      }
    case DeleteUser(id, malloced, env) =>
      RemoveFirstSub(db.users.value, UserHasId(id));
  }

  lemma StepKeepsExact(db: Db, s: DbStep)
    requires DbExact(db) && Clean(db, s)
    ensures DbExact(Step(db, s))
  {
    StepOk(db, s);
    var db1 := Step(db, s);
    if s.Reload? {
      if db.file.Some? {
        var users, k :| HoldsPrefix(db.file, users, k) && AllExact(users);
        LoadPrefix(db.file, users, k);
        DeepReverseExact(users);
      }
    } else {
      if db1.users.Some? {
        StepExactIff(db, s);
      }
      if db1.file != db.file {
        SavesOnly(db, s);
        SavedPrefix(db1.users, db.file, StepSaveEnv(s));
      }
    }
  }

  lemma DeepReverseExact(users: seq<User>)
    requires AllExact(users)
    ensures AllExact(DeepReverse(users))
  {
    forall k | 0 <= k < |users| ensures IndexExact(DeepReverse(users)[k]) {
      MapReverseAt(users, ReverseUser, k);
      ReverseKeepsExact(users[|users| - 1 - k]);
    }
  }

  /** Every state of the run, in memory and in the file, has exact indexes. */
  ghost predicate ExactThroughout(db: Db, steps: seq<DbStep>)
    decreases |steps|
  {
    DbExact(db) && (|steps| > 0 ==> ExactThroughout(Step(db, steps[0]), steps[1..]))
  }

  /** Over any run the enrolled types of every user stay exactly the types of its credentials, in memory and in the
      file, if and only if every step is clean. */
  lemma {:induction false} ExactRunIff(db: Db, steps: seq<DbStep>)
    requires DbExact(db)
    ensures ExactThroughout(db, steps) <==> CleanRun(db, steps)
    decreases |steps|
  {
    if |steps| > 0 {
      if Clean(db, steps[0]) {
        StepKeepsExact(db, steps[0]);
        ExactRunIff(Step(db, steps[0]), steps[1..]);
      } else {
        AddCredentialInfoOk(db, steps[0].id, steps[0].c, steps[0].env);
        StepExactIff(db, steps[0]);
      }
    }
  }

  /** GetEnrolledInfoAuthType finds an entry for every type QueryCredentialInfo finds a credential of. */
  lemma QueriedTypeIsEnrolled(u: User, t: u32)
    requires UserOk(u) && HasType(u.credentials, t)
    ensures IsEnrolled(u.enrolled, t)
  {
    var i := FirstIndex(u.credentials, CredentialHasType(t));
    assert u.credentials[i] in u.credentials;
  }

  /** An addition that stops after its entry was made, for a user with one PIN. */
  lemma BreakingAdd(db: Db, u: User, face: CredentialInfo, add: AddEnv)
    requires db.users == Some([u]) && UsersOk([u]) && face.authType == FACE_AUTH
    requires |u.credentials| == |u.enrolled| == 1 && u.credentials[0].authType == u.enrolled[0].authType == PIN_AUTH
    requires add.enrolledMalloced && add.enrolledInserted && !add.credentialMalloced
    requires add.enrolledDraws[0].Some? && add.enrolledDraws[0].value != u.enrolled[0].enrolledId
    ensures var db1 := AddCredentialInfo(db, u.userId, face, add).1; db1.users.Some? && !AllExact(db1.users.value)
  {
    assert UserHasId(u.userId)(u) && UserOf(db, u.userId) == u;
    OnePinExact(u);
    assert !CredentialHasType(FACE_AUTH)(u.credentials[0]) && |u.credentials[1..]| == 0;
    assert add.enrolledDraws[0].value !in EnrolledIds(u.enrolled);
    AddStepExactIff(db, u.userId, face, add);
  }

  /** A run that breaks an index: a PIN, then a face for which no memory is left after its entry was made. */
  lemma BrokenIndex(add: AddEnv, add2: AddEnv)
    requires FirstAddWorks(add) && add2.enrolledMalloced && add2.enrolledInserted && !add2.credentialMalloced
    requires add2.enrolledDraws[0] == Some(5)
    ensures var pin, face := CredentialInfo(0, PIN_AUTH, 0, 1, 3), CredentialInfo(0, FACE_AUTH, 0, 2, 2);
            var db := Run(EMPTY_DB, [Add(100, pin, add), Add(100, face, add2)]);
            && db.users.Some? && !AllExact(db.users.value)
  {
    var pin, face := CredentialInfo(0, PIN_AUTH, 0, 1, 3), CredentialInfo(0, FACE_AUTH, 0, 2, 2);
    FirstAdd(add, pin);
    AddCredentialInfoOk(EMPTY_DB, 100, pin, add);
    BreakingAdd(Step(EMPTY_DB, Add(100, pin, add)),
                User(100, 7, [pin.(credentialId := 9)], [EnrolledInfo(PIN_AUTH, 8)]), face, add2);
    TwoSteps(EMPTY_DB, Add(100, pin, add), Add(100, face, add2));
  }

  lemma OnePinExact(u: User)
    requires |u.credentials| == |u.enrolled| == 1 && u.credentials[0].authType == u.enrolled[0].authType == PIN_AUTH
    ensures IndexExact(u)
  {
    assert |u.credentials[1..]| == 0 && |u.enrolled[1..]| == 0;
    forall t ensures IsEnrolled(u.enrolled, t) <==> HasType(u.credentials, t) {
      assert EnrolledHasType(t)(u.enrolled[0]) <==> CredentialHasType(t)(u.credentials[0]);
    }
  }
}
