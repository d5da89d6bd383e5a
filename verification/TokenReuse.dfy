/** Accepting an enrolment token does not use it up: how often one token can add a credential. */
module TokenReuse {
  import opened Base
  import opened IdmCommon
  import opened CoAuth
  import opened UserIdmSpec
  import opened DatabaseSpec
  import opened FileManager
  import opened HalState
  import DatabaseRuns
  import DatabaseIndex
  import HalCache

  /** The user has room for the credential, which is no second PIN, and memory and random numbers suffice. */
  predicate HasRoom(u: User, authType: u32, env: AddEnv) {
    && !(authType == PIN_AUTH && HasType(u.credentials, PIN_AUTH))
    && |u.credentials| < MAX_CREDENTIAL && |u.enrolled| <= MAX_AUTH_TYPE
    && (IsEnrolled(u.enrolled, authType) || (env.enrolledMalloced && env.enrolledInserted))
    && FirstFresh(env.enrolledDraws, EnrolledIds(u.enrolled)).Some?
    && DatabaseIndex.Completes(u.credentials, env)
  }

  lemma AddsToUserIff(u: User, c: CredentialInfo, env: AddEnv)
    requires !(c.authType == PIN_AUTH && HasType(u.credentials, PIN_AUTH))
    ensures AddCredentialToUser(u, c, env).0 == RESULT_SUCCESS <==> HasRoom(u, c.authType, env)
    ensures AddCredentialToUser(u, c, env).1.credentials ==
            if HasRoom(u, c.authType, env) then [AddCredentialToUser(u, c, env).2] + u.credentials else u.credentials
  {}

  /** What the call leaves of the credentials of a known user: the new one in front exactly when there is room. */
  lemma AddedIff(db: Db, id: i32, c: CredentialInfo, env: AddEnv)
    requires HasUser(db, id) && UsersOk(db.users.value)
    ensures var db1 := AddCredentialInfo(db, id, c, env).1;
            && HasUser(db1, id)
            && UserOf(db1, id).credentials ==
               if HasRoom(UserOf(db, id), c.authType, env)
               then [AddCredentialInfo(db, id, c, env).2] + UserOf(db, id).credentials
               else UserOf(db, id).credentials
  {
    var u := UserOf(db, id);
    if c.authType == PIN_AUTH && HasType(u.credentials, PIN_AUTH) {
      DatabaseRuns.SecondPin(db, id, c, env);
    } else {
      AddForUser(db, id, c, env);
      AddToUserOk(u, c, env);
      AddsToUserIff(u, c, env);
      FoundInPlace(db, id, AddCredentialToUser(u, c, env).1);
    }
  }

  /** For a known user the call succeeds exactly if there is room and the list with the credential can be saved. */
  lemma AddSucceedsIff(db: Db, id: i32, c: CredentialInfo, env: AddEnv)
    requires HasUser(db, id) && UsersOk(db.users.value)
    ensures var (r, db1, _) := AddCredentialInfo(db, id, c, env);
            && db1.users.Some?
            && (r == RESULT_SUCCESS <==> HasRoom(UserOf(db, id), c.authType, env) && Saves(db1.users.value, env.save))
  {
    var u := UserOf(db, id);
    if c.authType == PIN_AUTH && HasType(u.credentials, PIN_AUTH) {
      DatabaseRuns.SecondPin(db, id, c, env);
    } else {
      AddForUser(db, id, c, env);
      AddsToUserIff(u, c, env);
      SavesIff(SetUser(db, id, AddCredentialToUser(u, c, env).1).users.value, db.file, env.save);
    }
  }

  /** A user that is not known comes into the list exactly with a PIN, below the limit of 1000, with memory, a secure
      uid and room for the PIN; the call succeeds exactly if the list can then be saved, with the user or without. */
  lemma NewUserIff(db: Db, id: i32, c: CredentialInfo, env: AddEnv)
    requires db.users.Some? && UsersOk(db.users.value) && !HasUser(db, id)
    ensures var (r, db1, _) := AddCredentialInfo(db, id, c, env);
            && db1.users.Some?
            && (db1.users != db.users <==>
                && c.authType == PIN_AUTH && |db.users.value| < 1000 && env.userMalloced && env.userInserted
                && FirstFresh(env.secUidDraws, SecUids(db.users.value)).Some?
                && HasRoom(User(id, 0, [], []), PIN_AUTH, env))
            && (r == RESULT_SUCCESS <==> c.authType == PIN_AUTH && Saves(db1.users.value, env.save))
  {
    DatabaseRuns.AddNew(db, id, c, env);
    var users := AddUser(db.users, id, c, env).1;
    NewUserInserted(db.users.value, id, c, env);
    SavesIff(users.value, db.file, env.save);
  }

  lemma NewUserInserted(users: seq<User>, id: i32, c: CredentialInfo, env: AddEnv)
    requires FindUser(users, id) == |users|
    ensures var users1 := AddUser(Some(users), id, c, env).1;
            && users1.Some?
            && (users1.value != users <==>
                && |users| < 1000 && env.userMalloced && env.userInserted
                && FirstFresh(env.secUidDraws, SecUids(users)).Some? && HasRoom(User(id, 0, [], []), c.authType, env))
  {
    var uid := FirstFresh(env.secUidDraws, SecUids(users));
    if uid.Some? {
      var u := User(id, uid.value, [], []);
      AddsToUserIff(u, c, env);
      assert |[AddCredentialToUser(u, c, env).1] + users| == |users| + 1;
    }
  }

  lemma FoundInPlace(db: Db, id: i32, u: User)
    requires HasUser(db, id) && UsersOk(db.users.value) && u.userId == id
    ensures HasUser(SetUser(db, id, u), id) && UserOf(SetUser(db, id, u), id) == u
  {
    var k := FindUser(db.users.value, id);
    FirstIndexUnique(db.users.value[k := u], UserHasId(id), k);
  }

  // ----- one token, two calls --------------------------------------------------------------------

  function SessionUser(h: Hal): i32
    requires h.session.Some?
  {
    h.session.value.userId
  }

  /** The call adds a credential to the user of the session, who is known. */
  predicate Adds(h: Hal, c: Call) {
    && c.AddCredentialCall? && Acceptable(h.session, c.token, c.check) && HasUser(h.db, SessionUser(h))
    && HasRoom(UserOf(h.db, SessionUser(h)), c.token.authType, c.addEnv)
  }

  /** What an AddCredentialCall changes for a known user of the session: exactly then a credential comes in front. */
  lemma AddCallIff(h: Hal, c: Call)
    requires c.AddCredentialCall? && h.session.Some? && HasUser(h.db, SessionUser(h)) && UsersOk(h.db.users.value)
    ensures var h1 := Step(h, c);
            && h1.session == h.session && HasUser(h1.db, SessionUser(h))
            && var cs, cs1 := UserOf(h.db, SessionUser(h)).credentials, UserOf(h1.db, SessionUser(h)).credentials;
               (cs1 != cs <==> Adds(h, c))
               && (Adds(h, c) ==> |cs1| > 0 && cs1[1..] == cs
                                  && IsContent(cs1[0], c.token))
  {
    ScheduleTokenIff(h.session, c.token, c.check);
    if Acceptable(h.session, c.token, c.check) {
      AddedInFront(h.db, SessionUser(h), CredentialFrom(c.token), c.addEnv);
    }
  }

  lemma AddedInFront(db: Db, id: i32, c: CredentialInfo, env: AddEnv)
    requires HasUser(db, id) && UsersOk(db.users.value)
    ensures var db1 := AddCredentialInfo(db, id, c, env).1;
            && HasUser(db1, id)
            && var cs, cs1 := UserOf(db, id).credentials, UserOf(db1, id).credentials;
               (cs1 != cs <==> HasRoom(UserOf(db, id), c.authType, env))
               && (cs1 != cs ==> |cs1| > 0 && cs1[1..] == cs && cs1[0] == c.(credentialId := cs1[0].credentialId))
  {
    AddedIff(db, id, c, env);
    if HasRoom(UserOf(db, id), c.authType, env) {
      CredentialHandedBack(db, id, c, env);
      InFront(AddCredentialInfo(db, id, c, env).2, UserOf(db, id).credentials);
    }
  }

  lemma InFront(c: CredentialInfo, cs: seq<CredentialInfo>)
    ensures [c] + cs != cs && ([c] + cs)[1..] == cs
  {
    assert |[c] + cs| == |cs| + 1;
  }

  lemma CredentialHandedBack(db: Db, id: i32, c: CredentialInfo, env: AddEnv)
    requires HasUser(db, id) && HasRoom(UserOf(db, id), c.authType, env)
    ensures var c1 := AddCredentialInfo(db, id, c, env).2; c1 == c.(credentialId := c1.credentialId)
  {}

  /** A token that added a credential adds another one if and only if it is not for a PIN, is still in time, and there
      is room: nothing about the session or the token changed. */
  lemma TokenReusedIff(h: Hal, first: Call, second: Call)
    requires (h.db.users.Some? ==> UsersOk(h.db.users.value)) && Adds(h, first)
    requires second.AddCredentialCall? && second.token == first.token
    ensures var h1 := Step(h, first);
            && h1.session == h.session && HasUser(h1.db, SessionUser(h))
            && (Adds(h1, second) <==>
                && first.token.authType != PIN_AUTH && Acceptable(h.session, second.token, second.check)
                && HasRoom(UserOf(h1.db, SessionUser(h)), second.token.authType, second.addEnv))
  {
    AddCallIff(h, first);
  }

  // ----- PIN tokens over runs --------------------------------------------------------------------

  predicate HasPin(h: Hal, id: i32) {
    HasCredential(h.db, id, PIN_AUTH)
  }

  function CredentialsOf(h: Hal, id: i32): seq<CredentialInfo> {
    if HasUser(h.db, id) then UserOf(h.db, id).credentials else []
  }

  /** The call changes the credentials of the user by adding the content of a PIN token. */
  predicate AddsPin(h: Hal, c: Call, id: i32) {
    && c.AddCredentialCall? && h.session.Some? && SessionUser(h) == id && c.token.authType == PIN_AUTH
    && CredentialsOf(Step(h, c), id) != CredentialsOf(h, id)
  }

  predicate LosesPin(h: Hal, c: Call, id: i32) {
    HasPin(h, id) && !HasPin(Step(h, c), id)
  }

  function PinsAdded(h: Hal, calls: seq<Call>, id: i32): nat
    decreases |calls|
  {
    if |calls| == 0 then 0
    else (if AddsPin(h, calls[0], id) then 1 else 0) + PinsAdded(Step(h, calls[0]), calls[1..], id)
  }

  function PinsLost(h: Hal, calls: seq<Call>, id: i32): nat
    decreases |calls|
  {
    if |calls| == 0 then 0
    else (if LosesPin(h, calls[0], id) then 1 else 0) + PinsLost(Step(h, calls[0]), calls[1..], id)
  }

  lemma AddedPinIsThere(h: Hal, c: Call, id: i32)
    requires DatabaseRuns.DbOk(h.db) && AddsPin(h, c, id)
    ensures !HasPin(h, id) && HasPin(Step(h, c), id)
  {
    if HasUser(h.db, id) {
      AddCallIff(h, c);
      assert CredentialHasType(PIN_AUTH)(UserOf(Step(h, c).db, id).credentials[0]);
    } else {
      NewUserHasPin(h.db, id, CredentialFrom(c.token), c.addEnv);
    }
  }

  lemma NewUserHasPin(db: Db, id: i32, c: CredentialInfo, env: AddEnv)
    requires !HasUser(db, id) && c.authType == PIN_AUTH
    ensures var db1 := AddCredentialInfo(db, id, c, env).1; HasUser(db1, id) ==> HasCredential(db1, id, PIN_AUTH)
  {
    var users := AddUser(db.users, id, c, env).1;
    DatabaseRuns.AddNew(db, id, c, env);
    if users != db.users {
      FreshUserHasPin(db.users.value, id, c, env);
    }
  }

  lemma FreshUserHasPin(users: seq<User>, id: i32, c: CredentialInfo, env: AddEnv)
    requires c.authType == PIN_AUTH && AddFreshUser(users, id, c, env).1 != users
    ensures var users1 := AddFreshUser(users, id, c, env).1;
            FindUser(users1, id) == 0 < |users1| && HasType(users1[0].credentials, PIN_AUTH)
  {
    var u := AddFreshUser(users, id, c, env).1[0];
    assert UserHasId(id)(u) && CredentialHasType(PIN_AUTH)(u.credentials[0]);
  }

  /** Over any run, whatever tokens are presented how often, each further PIN of a user needs one that was lost. */
  lemma {:induction false} PinsAddedAfterLost(h: Hal, calls: seq<Call>, id: i32)
    requires DatabaseRuns.DbOk(h.db)
    ensures PinsAdded(h, calls, id) + (if HasPin(h, id) then 1 else 0) <= PinsLost(h, calls, id) + 1
    decreases |calls|
  {
    if |calls| > 0 {
      HalCache.CallKeeps(h, calls[0]);
      PinsAddedAfterLost(Step(h, calls[0]), calls[1..], id);
      if AddsPin(h, calls[0], id) {
        AddedPinIsThere(h, calls[0], id);
      }
    }
  }

  /** Calls that can take a PIN away: those that end the list or the process, and those that delete. */
  predicate MayDelete(c: Call) {
    c.Restart? || c.Init? || c.Close? || c.UpdateCredentialCall? || c.DeleteCredentialCall? || c.DeleteUserEnforce?
  }

  lemma AddKeepsPin(db: Db, other: i32, c: CredentialInfo, env: AddEnv, id: i32)
    requires DatabaseRuns.DbOk(db) && HasCredential(db, id, PIN_AUTH)
    ensures HasCredential(AddCredentialInfo(db, other, c, env).1, id, PIN_AUTH)
  {
    if other == id {
      AddedIff(db, id, c, env);
      TypeStays(AddCredentialInfo(db, id, c, env).2, UserOf(db, id).credentials, PIN_AUTH);
    } else {
      OtherUserSame(db, other, c, env, id);
    }
  }

  lemma TypeStays(c: CredentialInfo, cs: seq<CredentialInfo>, t: u32)
    requires HasType(cs, t)
    ensures HasType([c] + cs, t)
  {
    HasTypeIn(cs, t);
    HasTypeIn([c] + cs, t);
    var x :| x in cs && x.authType == t;
    assert x in [c] + cs;
  }

  lemma OtherUserSame(db: Db, other: i32, c: CredentialInfo, env: AddEnv, id: i32)
    requires HasUser(db, id) && other != id
    ensures var db1 := AddCredentialInfo(db, other, c, env).1; HasUser(db1, id) && UserOf(db1, id) == UserOf(db, id)
  {
    var db1 := AddCredentialInfo(db, other, c, env).1;
    if HasUser(db, other) {
      OtherOfListed(db, other, c, env, id, db1);
    } else {
      OtherOfNew(db, other, c, env, id, db1);
    }
  }

  lemma OtherOfListed(db: Db, other: i32, c: CredentialInfo, env: AddEnv, id: i32, db1: Db)
    requires HasUser(db, id) && HasUser(db, other) && other != id && db1 == AddCredentialInfo(db, other, c, env).1
    ensures HasUser(db1, id) && UserOf(db1, id) == UserOf(db, id)
  {
    DatabaseRuns.AddedUsers(db, other, c, env);
    OtherInPlace(db.users.value, FindUser(db.users.value, other), AddCredentialToUser(UserOf(db, other), c, env).1, id);
  }

  lemma OtherOfNew(db: Db, other: i32, c: CredentialInfo, env: AddEnv, id: i32, db1: Db)
    requires HasUser(db, id) && !HasUser(db, other) && db1 == AddCredentialInfo(db, other, c, env).1
    ensures HasUser(db1, id) && UserOf(db1, id) == UserOf(db, id)
  {
    DatabaseRuns.FreshUsers(db, other, c, env);
    var uid := FirstFresh(env.secUidDraws, SecUids(db.users.value));
    if uid.Some? {
      OtherBehind(db.users.value, AddCredentialToUser(User(other, uid.value, [], []), c, env).1, id);
    }
  }

  /** Replacing one user, or putting one in front, leaves where another is found. */
  lemma OtherInPlace(users: seq<User>, k: nat, u: User, id: i32)
    requires k < |users| && users[k].userId == u.userId != id && FindUser(users, id) < |users|
    ensures var j := FindUser(users, id); FindUser(users[k := u], id) == j && users[k := u][j] == users[j]
  {
    FirstIndexUnique(users[k := u], UserHasId(id), FindUser(users, id));
  }

  lemma OtherBehind(users: seq<User>, u: User, id: i32)
    requires u.userId != id && FindUser(users, id) < |users|
    ensures var j := FindUser(users, id); FindUser([u] + users, id) == j + 1 && ([u] + users)[j + 1] == users[j]
  {
    assert ([u] + users)[1..] == users;
    assert !UserHasId(id)(u);
  }

  lemma OnlyDeletionLosesPin(h: Hal, c: Call, id: i32)
    requires DatabaseRuns.DbOk(h.db) && LosesPin(h, c, id)
    ensures MayDelete(c)
  {
    if c.AddCredentialCall? && CheckScheduleToken(h.session, c.token, c.check) == RESULT_SUCCESS {
      AddKeepsPin(h.db, h.session.value.userId, CredentialFrom(c.token), c.addEnv, id);
    }
  }

  /** PIN tokens add at most one PIN to a user over any run of calls that take none away. */
  lemma {:induction false} PinAddedOnce(h: Hal, calls: seq<Call>, id: i32)
    requires DatabaseRuns.DbOk(h.db) && forall k :: 0 <= k < |calls| ==> !MayDelete(calls[k])
    ensures PinsLost(h, calls, id) == 0
    ensures PinsAdded(h, calls, id) <= if HasPin(h, id) then 0 else 1
    decreases |calls|
  {
    PinsAddedAfterLost(h, calls, id);
    if |calls| > 0 {
      HalCache.CallKeeps(h, calls[0]);
      PinAddedOnce(Step(h, calls[0]), calls[1..], id);
      if LosesPin(h, calls[0], id) {
        OnlyDeletionLosesPin(h, calls[0], id);
      }
    }
  }
}
