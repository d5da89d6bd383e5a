/** Runs of the credential database: adds, deletions, user deletions and reloads in any order, with
    any outcome of allocation, random numbers and file writes. */
module DatabaseRuns {
  import opened Base
  import opened IdmCommon
  import opened FileManager
  import opened FileLoader
  import opened DatabaseSpec

  // ----- one operation keeps the user list well formed -------------------------------------------

  lemma RemoveFirstSub<T>(s: seq<T>, p: T -> bool)
    ensures var k, r := FirstIndex(s, p), RemoveFirst(s, p);
            && |r| == (if k < |s| then |s| - 1 else |s|)
            && (forall i :: 0 <= i < |r| ==> r[i] == s[if i < k then i else i + 1])
            && (forall x :: x in r ==> x in s)
  {
    RemoveFirstAt(s, p);
    var k, r := FirstIndex(s, p), RemoveFirst(s, p);
    forall x | x in r ensures x in s {
      var i :| 0 <= i < |r| && r[i] == x;
      assert s[if i < k then i else i + 1] == x;
    }
  }

  lemma CredentialRemovedOk(u: User, credentialId: u64)
    requires UserOk(u)
    ensures UserOk(u.(credentials := RemoveFirst(u.credentials, CredentialHasId(credentialId))))
  {
    RemoveFirstSub(u.credentials, CredentialHasId(credentialId));
  }

  /** Removing the first element that satisfies p keeps every other element and adds none. */
  lemma RemoveFirstKeeps<T>(s: seq<T>, p: T -> bool, x: T)
    requires x in s && !p(x)
    ensures x in RemoveFirst(s, p)
  {
    RemoveFirstAt(s, p);
    var k := FirstIndex(s, p);
    var i :| 0 <= i < |s| && s[i] == x;
    if k < |s| {
      assert x in s[..k] + s[k + 1..] by {
        assert i < k ==> s[..k][i] == x;
        assert i > k ==> s[k + 1..][i - k - 1] == x;
      }
    }
  }

  lemma EnrolledRemoved(es: seq<EnrolledInfo>, t: u32, s: u32)
    requires forall i, j :: 0 <= i < j < |es| ==> es[i].authType != es[j].authType
    ensures IsEnrolled(RemoveFirst(es, EnrolledHasType(t)), s) <==> IsEnrolled(es, s) && s != t
  {
    var p := EnrolledHasType(t);
    forall e ensures e in RemoveFirst(es, p) <==> e in es && e.authType != t {
      RemoveOnly(es, p, e);
    }
    IsEnrolledIn(es, s);
    IsEnrolledIn(RemoveFirst(es, p), s);
  }

  predicate DistinctEntries(es: seq<EnrolledInfo>) {
    forall i, j :: 0 <= i < j < |es| ==> es[i].authType != es[j].authType && es[i].enrolledId != es[j].enrolledId
  }

  lemma EntriesStayDistinct(es: seq<EnrolledInfo>, p: EnrolledInfo -> bool)
    requires DistinctEntries(es)
    ensures DistinctEntries(RemoveFirst(es, p)) && |RemoveFirst(es, p)| <= |es|
  {
    RemoveFirstSub(es, p);
  }

  lemma EnrolledRemovedOk(u: User, t: u32)
    requires UserOk(u) && !HasType(u.credentials, t)
    ensures UserOk(u.(enrolled := RemoveFirst(u.enrolled, EnrolledHasType(t))))
  {
    EntriesStayDistinct(u.enrolled, EnrolledHasType(t));
    TypesStayEnrolled(u.credentials, u.enrolled, t);
  }

  lemma TypesStayEnrolled(cs: seq<CredentialInfo>, es: seq<EnrolledInfo>, t: u32)
    requires DistinctEntries(es) && !HasType(cs, t) && forall c :: c in cs ==> IsEnrolled(es, c.authType)
    ensures forall c :: c in cs ==> IsEnrolled(RemoveFirst(es, EnrolledHasType(t)), c.authType)
  {
    HasTypeIn(cs, t);
    forall c | c in cs ensures IsEnrolled(RemoveFirst(es, EnrolledHasType(t)), c.authType) {
      EnrolledRemoved(es, t, c.authType);
    }
  }

  lemma UserReplacedOk(users: seq<User>, k: nat, u: User)
    requires UsersOk(users) && k < |users| && UserOk(u)
    requires u.userId == users[k].userId && u.secUid == users[k].secUid
    ensures UsersOk(users[k := u])
  {}

  lemma UserAddedOk(users: seq<User>, u: User)
    requires UsersOk(users) && |users| < MAX_USER && UserOk(u)
    requires FindUser(users, u.userId) == |users| && u.secUid !in SecUids(users)
    ensures UsersOk([u] + users)
  {
    FindUserIn(users, u.userId);
    forall k | 0 <= k < |users| ensures users[k].secUid != u.secUid {
      assert users[k] in users;
    }
  }

  lemma UserRemovedOk(users: seq<User>, id: i32)
    requires UsersOk(users)
    ensures UsersOk(RemoveFirst(users, UserHasId(id)))
  {
    var r := RemoveFirst(users, UserHasId(id));
    RemoveFirstSub(users, UserHasId(id));
    forall i | 0 <= i < |r| ensures UserOk(r[i]) {
      assert r[i] in users;
    }
  }

  lemma AddedUsers(db: Db, id: i32, c: CredentialInfo, env: AddEnv)
    requires HasUser(db, id)
    ensures var db1 := AddCredentialInfo(db, id, c, env).1;
            db1.users == db.users || db1.users == SetUser(db, id, AddCredentialToUser(UserOf(db, id), c, env).1).users
  {}

  lemma FreshUsers(db: Db, id: i32, c: CredentialInfo, env: AddEnv)
    requires db.users.Some? && !HasUser(db, id)
    ensures var db1, uid := AddCredentialInfo(db, id, c, env).1, FirstFresh(env.secUidDraws, SecUids(db.users.value));
            db1.users == db.users ||
            (uid.Some? && |db.users.value| < MAX_USER
             && db1.users == Some([AddCredentialToUser(User(id, uid.value, [], []), c, env).1] + db.users.value))
  {}

  lemma AddCredentialInfoOk(db: Db, id: i32, c: CredentialInfo, env: AddEnv)
    requires db.users.Some? ==> UsersOk(db.users.value)
    ensures var db1 := AddCredentialInfo(db, id, c, env).1;
            (db1.users.Some? <==> db.users.Some?) && (db1.users.Some? ==> UsersOk(db1.users.value))
  {
    if HasUser(db, id) {
      AddToListedOk(db, id, c, env);
    } else if db.users.Some? {
      AddFreshOk(db, id, c, env);
    }
  }

  lemma AddToListedOk(db: Db, id: i32, c: CredentialInfo, env: AddEnv)
    requires HasUser(db, id) && UsersOk(db.users.value)
    ensures var db1 := AddCredentialInfo(db, id, c, env).1; db1.users.Some? && UsersOk(db1.users.value)
  {
    var u := UserOf(db, id);
    if c.authType == PIN_AUTH && HasType(u.credentials, PIN_AUTH) {
      SecondPin(db, id, c, env);
    } else {
      AddToUserOk(u, c, env);
      UserReplacedOk(db.users.value, FindUser(db.users.value, id), AddCredentialToUser(u, c, env).1);
      AddedUsers(db, id, c, env);
    }
  }

  lemma SecondPin(db: Db, id: i32, c: CredentialInfo, env: AddEnv)
    requires HasUser(db, id) && c.authType == PIN_AUTH && HasType(UserOf(db, id).credentials, PIN_AUTH)
    ensures AddCredentialInfo(db, id, c, env).0 == RESULT_BAD_PARAM && AddCredentialInfo(db, id, c, env).1 == db
    ensures AddCredentialInfo(db, id, c, env).2 in UserOf(db, id).credentials
    ensures AddCredentialInfo(db, id, c, env).2.authType == PIN_AUTH
  {}

  lemma AddFreshOk(db: Db, id: i32, c: CredentialInfo, env: AddEnv)
    requires db.users.Some? && !HasUser(db, id) && UsersOk(db.users.value)
    ensures var db1 := AddCredentialInfo(db, id, c, env).1; db1.users.Some? && UsersOk(db1.users.value)
  {
    var uid := FirstFresh(env.secUidDraws, SecUids(db.users.value));
    FreshUsers(db, id, c, env);
    if uid.Some? {
      AddToUserOk(User(id, uid.value, [], []), c, env);
      if |db.users.value| < MAX_USER {
        UserAddedOkIf(db.users.value, AddCredentialToUser(User(id, uid.value, [], []), c, env).1);
      }
    }
  }

  lemma UserAddedOkIf(users: seq<User>, u: User)
    requires UsersOk(users) && |users| < MAX_USER && FindUser(users, u.userId) == |users|
    ensures UserOk(u) && u.secUid !in SecUids(users) ==> UsersOk([u] + users)
  {
    if UserOk(u) && u.secUid !in SecUids(users) {
      UserAddedOk(users, u);
    }
  }

  /** The user record left by DeleteCredentialInfo, before the file is written. */
  function UserAfterDelete(u: User, credentialId: u64): User {
    var i := FirstIndex(u.credentials, CredentialHasId(credentialId));
    if i == |u.credentials| then u
    else
      var u1 := u.(credentials := RemoveFirst(u.credentials, CredentialHasId(credentialId)));
      if HasType(u1.credentials, u.credentials[i].authType) then u1
      else u1.(enrolled := RemoveFirst(u.enrolled, EnrolledHasType(u.credentials[i].authType)))
  }

  lemma UserAfterDeleteOk(u: User, credentialId: u64)
    requires UserOk(u)
    ensures UserOk(UserAfterDelete(u, credentialId))
  {
    var i := FirstIndex(u.credentials, CredentialHasId(credentialId));
    if i < |u.credentials| {
      var u1 := u.(credentials := RemoveFirst(u.credentials, CredentialHasId(credentialId)));
      CredentialRemovedOk(u, credentialId);
      if !HasType(u1.credentials, u.credentials[i].authType) {
        EnrolledRemovedOk(u1, u.credentials[i].authType);
      }
    }
  }

  lemma DeleteOutcome(db: Db, id: i32, credentialId: u64, out: CredentialInfo, env: SaveEnv)
    requires HasUser(db, id) && UserOk(UserOf(db, id))
    ensures var u, u1 := UserOf(db, id), UserAfterDelete(UserOf(db, id), credentialId);
            var i, db1 := FirstIndex(u.credentials, CredentialHasId(credentialId)), SetUser(db, id, u1);
            DeleteCredentialInfo(db, id, credentialId, out, env) ==
            if i == |u.credentials| then (RESULT_UNKNOWN, db, out)
            else if HasType(u1.credentials, u.credentials[i].authType) then (RESULT_SUCCESS, db1, u.credentials[i])
            else (SaveDb(db1, env).0, SaveDb(db1, env).1, u.credentials[i])
  {
    var u := UserOf(db, id);
    var i := FirstIndex(u.credentials, CredentialHasId(credentialId));
    if i < |u.credentials| {
      assert u.credentials[i] in u.credentials;
    }
  }

  /** DeleteCredentialInfo leaves UserAfterDelete in place of the user, since the enrolled entry of a credential is
      always found; it fails only for an unknown user, an unknown credential, or in the save. */
  lemma DeletedUsers(db: Db, id: i32, credentialId: u64, out: CredentialInfo, env: SaveEnv)
    requires HasUser(db, id) && UserOk(UserOf(db, id))
    ensures var (r, db1, _) := DeleteCredentialInfo(db, id, credentialId, out, env);
            r != RESULT_NOT_FOUND && db1.users == SetUser(db, id, UserAfterDelete(UserOf(db, id), credentialId)).users
  {
    DeleteOutcome(db, id, credentialId, out, env);
    UnchangedUser(db, id);
    SaveKeepsUsers(SetUser(db, id, UserAfterDelete(UserOf(db, id), credentialId)), env);
  }

  lemma UnchangedUser(db: Db, id: i32)
    requires HasUser(db, id)
    ensures SetUser(db, id, UserOf(db, id)) == db
  {
    var users, k := db.users.value, FindUser(db.users.value, id);
    assert users[k := users[k]] == users;
  }

  lemma SaveKeepsUsers(db: Db, env: SaveEnv)
    ensures SaveDb(db, env).1.users == db.users
    ensures SaveDb(db, env).0 != RESULT_NOT_FOUND && SaveDb(db, env).0 != RESULT_EXCEED_LIMIT
  {}

  lemma DeleteCredentialInfoOk(db: Db, id: i32, credentialId: u64, out: CredentialInfo, env: SaveEnv)
    requires db.users.Some? ==> UsersOk(db.users.value)
    ensures var (r, db1, _) := DeleteCredentialInfo(db, id, credentialId, out, env);
            && (db1.users.Some? <==> db.users.Some?) && (db1.users.Some? ==> UsersOk(db1.users.value))
            && r != RESULT_NOT_FOUND
            && (HasUser(db, id) ==> db1.users == SetUser(db, id, UserAfterDelete(UserOf(db, id), credentialId)).users)
            && (!HasUser(db, id) ==> db1 == db)
  {
    if HasUser(db, id) {
      var u := UserOf(db, id);
      UserAfterDeleteOk(u, credentialId);
      UserReplacedOk(db.users.value, FindUser(db.users.value, id), UserAfterDelete(u, credentialId));
      DeletedUsers(db, id, credentialId, out, env);
    }
  }

  lemma DeleteUserInfoOk(db: Db, id: i32, malloced: bool, env: SaveEnv)
    requires db.users.Some? ==> UsersOk(db.users.value)
    ensures var db1 := DeleteUserInfo(db, id, malloced, env).1;
            (db1.users.Some? <==> db.users.Some?) && (db1.users.Some? ==> UsersOk(db1.users.value))
  {
    if HasUser(db, id) {
      UserRemovedOk(db.users.value, id);
    }
  }

  lemma DeepReverseOk(users: seq<User>)
    requires UsersOk(users)
    ensures UsersOk(DeepReverse(users)) && WithinCaps(users)
  {
    AllAt(users, UserWithinCaps);
    var r := DeepReverse(users);
    forall k | 0 <= k < |r| ensures r[k] == ReverseUser(users[|users| - 1 - k]) {
      MapReverseAt(users, ReverseUser, k);
    }
    forall k | 0 <= k < |users| ensures UserOk(ReverseUser(users[k])) {
      ReverseUserOk(users[k]);
    }
  }

  lemma ReverseUserOk(u: User)
    requires UserOk(u)
    ensures UserOk(ReverseUser(u))
  {
    var r := ReverseUser(u);
    forall k | 0 <= k < |u.credentials| ensures r.credentials[k] == u.credentials[|u.credentials| - 1 - k] {
      ReverseAt(u.credentials, k);
    }
    forall k | 0 <= k < |u.enrolled| ensures r.enrolled[k] == u.enrolled[|u.enrolled| - 1 - k] {
      ReverseAt(u.enrolled, k);
    }
    forall c | c in r.credentials ensures IsEnrolled(r.enrolled, c.authType) {
      ReverseIn(u.credentials, c);
      ReverseEnrolled(u.enrolled, c.authType);
    }
  }

  lemma ReverseEnrolled(es: seq<EnrolledInfo>, t: u32)
    ensures IsEnrolled(Reverse(es), t) <==> IsEnrolled(es, t)
  {
    IsEnrolledIn(es, t);
    IsEnrolledIn(Reverse(es), t);
    forall e ensures e in Reverse(es) <==> e in es {
      ReverseIn(es, e);
    }
  }

  // ----- what a successful call has done ---------------------------------------------------------

  /** The credential is in front with a new id, and its type is enrolled; nothing else of the user changed. */
  ghost predicate CredentialAdded(u: User, u1: User, c: CredentialInfo, c1: CredentialInfo) {
    && u1.userId == u.userId && u1.secUid == u.secUid && u1.credentials == [c1] + u.credentials
    && c1 == c.(credentialId := c1.credentialId) && c1.credentialId !in CredentialIds(u.credentials)
    && forall t :: IsEnrolled(u1.enrolled, t) <==> IsEnrolled(u.enrolled, t) || t == c.authType
  }

  lemma AddedToUser(u: User, c: CredentialInfo, env: AddEnv)
    requires UserOk(u)
    ensures var (r, u1, c1) := AddCredentialToUser(u, c, env);
            r == RESULT_SUCCESS ==> CredentialAdded(u, u1, c, c1)
  {
    if AddCredentialToUser(u, c, env).0 == RESULT_SUCCESS {
      EnrolledUpdated(u.enrolled, c.authType, env);
    }
  }

  /** The file holds the encoding of the users in memory. */
  predicate Written(db: Db) {
    db.users.Some? && db.file == Some(FileBytes(db.users.value))
  }

  lemma SaveWrites(db: Db, env: SaveEnv)
    ensures SaveDb(db, env).0 == RESULT_SUCCESS ==> Written(SaveDb(db, env).1) && SaveDb(db, env).1.users == db.users
  {
    if SaveDb(db, env).0 == RESULT_SUCCESS {
      SavedBytes(db.users.value, db.file, env);
    }
  }

  /** AddCredentialInfo succeeds for a known user only with the credential added and the file written. */
  lemma AddMeans(db: Db, id: i32, c: CredentialInfo, env: AddEnv)
    requires HasUser(db, id) && UsersOk(db.users.value)
    ensures var (r, db1, c1) := AddCredentialInfo(db, id, c, env);
            && (r == RESULT_SUCCESS ==>
                  && Written(db1)
                  && exists u1 :: db1.users == SetUser(db, id, u1).users && CredentialAdded(UserOf(db, id), u1, c, c1))
            && (c.authType == PIN_AUTH && HasType(UserOf(db, id).credentials, PIN_AUTH) ==>
                  r == RESULT_BAD_PARAM && db1 == db)
  {
    var u := UserOf(db, id);
    if c.authType == PIN_AUTH && HasType(u.credentials, PIN_AUTH) {
      SecondPin(db, id, c, env);
    } else {
      AddedToUser(u, c, env);
      var (r, u1, c1) := AddCredentialToUser(u, c, env);
      SaveWrites(SetUser(db, id, u1), env.save);
      AddOne(db, id, c, env);
    }
  }

  lemma AddOne(db: Db, id: i32, c: CredentialInfo, env: AddEnv)
    requires HasUser(db, id) && !(c.authType == PIN_AUTH && HasType(UserOf(db, id).credentials, PIN_AUTH))
    ensures var (r, u1, c1) := AddCredentialToUser(UserOf(db, id), c, env);
            var saved := SaveDb(SetUser(db, id, u1), env.save);
            AddCredentialInfo(db, id, c, env) ==
            if r == RESULT_SUCCESS then (saved.0, saved.1, c1) else (r, SetUser(db, id, u1), c1)
  {}

  /** For an unknown user only a PIN is taken; success then means the file was written, with a new user of that one
      credential, or, when adding failed, without. */
  lemma AddMeansForNew(db: Db, id: i32, c: CredentialInfo, env: AddEnv)
    requires db.users.Some? && !HasUser(db, id) && UsersOk(db.users.value)
    ensures var (r, db1, c1) := AddCredentialInfo(db, id, c, env);
            var (added, users, _) := AddUser(db.users, id, c, env);
            && (c.authType != PIN_AUTH ==> r == RESULT_BAD_PARAM && db1 == db)
            && (c.authType == PIN_AUTH && added != RESULT_SUCCESS ==> db1.users == db.users)
            && (c.authType == PIN_AUTH && added == RESULT_SUCCESS ==>
                  exists u1 :: db1.users == Some([u1] + db.users.value) && u1.secUid !in SecUids(db.users.value)
                    && CredentialAdded(User(id, u1.secUid, [], []), u1, c, c1))
            && (r == RESULT_SUCCESS ==> Written(db1))
  {
    AddNew(db, id, c, env);
    if c.authType == PIN_AUTH {
      UserAdded(db.users.value, id, c, env);
      SaveWrites(db.(users := AddUser(db.users, id, c, env).1), env.save);
    }
  }

  lemma AddNew(db: Db, id: i32, c: CredentialInfo, env: AddEnv)
    requires !HasUser(db, id)
    ensures var (_, users, c1) := AddUser(db.users, id, c, env);
            var saved := SaveDb(db.(users := users), env.save);
            AddCredentialInfo(db, id, c, env) == if c.authType == PIN_AUTH then (saved.0, saved.1, c1)
                else (RESULT_BAD_PARAM, db, c)
  {}

  lemma UserAdded(users: seq<User>, id: i32, c: CredentialInfo, env: AddEnv)
    ensures var (r, users1, c1) := AddUser(Some(users), id, c, env);
            if r != RESULT_SUCCESS then users1 == Some(users)
            else exists u1 :: users1 == Some([u1] + users) && u1.secUid !in SecUids(users)
                   && CredentialAdded(User(id, u1.secUid, [], []), u1, c, c1)
  {
    var uid := FirstFresh(env.secUidDraws, SecUids(users));
    if uid.Some? {
      AddedToUser(User(id, uid.value, [], []), c, env);
    }
  }

  /** DeleteCredentialInfo succeeds only with exactly the credential of the id gone and handed back; the enrolled entry
      goes with the last of its type, and only then the file is written. */
  lemma DeleteMeans(db: Db, id: i32, credentialId: u64, out: CredentialInfo, env: SaveEnv)
    requires HasUser(db, id) && UsersOk(db.users.value)
    ensures var (r, db1, c) := DeleteCredentialInfo(db, id, credentialId, out, env);
            var u, u1 := UserOf(db, id), UserAfterDelete(UserOf(db, id), credentialId);
            && db1.users == SetUser(db, id, u1).users
            && (forall x :: x in u1.credentials <==> x in u.credentials && x.credentialId != credentialId)
            && (r == RESULT_SUCCESS ==>
                  && c in u.credentials && c.credentialId == credentialId
                  && (if HasType(u1.credentials, c.authType) then db1.file == db.file && u1.enrolled == u.enrolled
                      else Written(db1) && forall t :: IsEnrolled(u1.enrolled, t) <==>
                        IsEnrolled(u.enrolled, t) && t != c.authType))
            && (credentialId !in CredentialIds(u.credentials) ==> r == RESULT_UNKNOWN && db1 == db && c == out)
  {
    var u := UserOf(db, id);
    var i := FirstIndex(u.credentials, CredentialHasId(credentialId));
    DeletedUsers(db, id, credentialId, out, env);
    DeletedOnly(u, credentialId);
    if i < |u.credentials| {
      EnrolledGone(u, credentialId);
      SaveWrites(SetUser(db, id, UserAfterDelete(u, credentialId)), env);
    }
    DeleteOutcome(db, id, credentialId, out, env);
  }

  lemma EnrolledGone(u: User, credentialId: u64)
    requires UserOk(u) && FirstIndex(u.credentials, CredentialHasId(credentialId)) < |u.credentials|
    ensures var t0, u1 := u.credentials[FirstIndex(u.credentials, CredentialHasId(credentialId))].authType,
                UserAfterDelete(u, credentialId);
            if HasType(u1.credentials, t0) then u1.enrolled == u.enrolled
            else forall t :: IsEnrolled(u1.enrolled, t) <==> IsEnrolled(u.enrolled, t) && t != t0
  {
    var t0 := u.credentials[FirstIndex(u.credentials, CredentialHasId(credentialId))].authType;
    forall t ensures IsEnrolled(RemoveFirst(u.enrolled, EnrolledHasType(t0)), t) <==>
        IsEnrolled(u.enrolled, t) && t != t0 {
      EnrolledRemoved(u.enrolled, t0, t);
    }
  }

  lemma DeletedOnly(u: User, credentialId: u64)
    requires UserOk(u)
    ensures forall x :: x in UserAfterDelete(u, credentialId).credentials <==>
            x in u.credentials && x.credentialId != credentialId
    ensures FirstIndex(u.credentials, CredentialHasId(credentialId)) < |u.credentials| <==>
            credentialId in CredentialIds(u.credentials)
  {
    var p := CredentialHasId(credentialId);
    forall x ensures x in RemoveFirst(u.credentials, p) <==> x in u.credentials && !p(x) {
      RemoveOnly(u.credentials, p, x);
    }
    FirstIndexIn(u.credentials, p);
    RemoveFirstAt(u.credentials, p);
  }

  // ----- runs ------------------------------------------------------------------------------------

  /** Reload is a new start of the process: the cache is empty and the list is what the file loads as. */
  datatype DbStep =
    | Add(id: i32, c: CredentialInfo, env: AddEnv)
    | Delete(id: i32, credentialId: u64, saveEnv: SaveEnv)
    | DeleteUser(id: i32, malloced: bool, saveEnv: SaveEnv)
    | Reload

  const NO_CREDENTIAL := CredentialInfo(0, 0, 0, 0, 0)

  function Step(db: Db, s: DbStep): Db {
    match s
    case Add(id, c, env) => AddCredentialInfo(db, id, c, env).1
    case Delete(id, credentialId, env) => DeleteCredentialInfo(db, id, credentialId, NO_CREDENTIAL, env).1
    case DeleteUser(id, malloced, env) => DeleteUserInfo(db, id, malloced, env).1
    case Reload => Db(Load(db.file), db.file)
  }

  function Run(db: Db, steps: seq<DbStep>): Db
    decreases |steps|
  {
    if |steps| == 0 then db else Run(Step(db, steps[0]), steps[1..])
  }

  const EMPTY_DB := Db(Some([]), None)

  /** The file holds the first k of the bytes data. */
  predicate Prefix(file: Option<seq<byte>>, data: seq<byte>, k: nat) {
    k <= |data| <= PRE_APPLY_LEN && file == Some(data[..k])
  }

  ghost predicate HoldsPrefix(file: Option<seq<byte>>, users: seq<User>, k: nat) {
    UsersOk(users) && Prefix(file, FileBytes(users), k)
  }

  ghost predicate FileOk(file: Option<seq<byte>>) {
    file.None? || exists users, k :: HoldsPrefix(file, users, k)
  }

  ghost predicate DbOk(db: Db) {
    (db.users.Some? ==> UsersOk(db.users.value)) && FileOk(db.file)
  }

  lemma WritesPrefix(file: Option<seq<byte>>, data: seq<byte>, write: WriteOutcome)
    requires |data| <= PRE_APPLY_LEN
    ensures WriteResult(file, data, write).1 == file || exists k :: Prefix(WriteResult(file, data, write).1, data, k)
  {
    assert data[..|data|] == data;
    if write != OpenFailed {
      assert Prefix(WriteResult(file, data, write).1, data,
                    if write.Torn? && write.written < |data| then write.written else |data|);
    }
  }

  /** A save that changes the file leaves a prefix of the saved users there. */
  lemma SavedPrefix(users: Option<seq<User>>, file: Option<seq<byte>>, env: SaveEnv)
    requires users.Some? ==> UsersOk(users.value)
    ensures Save(users, file, env).1 == file ||
            (users.Some? && exists k :: HoldsPrefix(Save(users, file, env).1, users.value, k))
  {
    var file1 := Save(users, file, env).1;
    if users.Some? && 8 + UsersSize(users.value) <= PRE_APPLY_LEN {
      FileBytesLength(users.value);
      WritesPrefix(file, FileBytes(users.value), env.write);
      if k :| Prefix(file1, FileBytes(users.value), k) {
        assert HoldsPrefix(file1, users.value, k);
      }
    }
  }

  lemma SaveOk(users: Option<seq<User>>, file: Option<seq<byte>>, env: SaveEnv)
    requires FileOk(file) && (users.Some? ==> UsersOk(users.value))
    ensures FileOk(Save(users, file, env).1)
  {
    SavedPrefix(users, file, env);
  }

  /** Every file in the reach of a run either loads as a well-formed database or, being cut short, not at all. */
  lemma LoadOk(file: Option<seq<byte>>)
    requires FileOk(file)
    ensures Load(file).Some? ==> UsersOk(Load(file).value)
    ensures Load(file).Some? <==> file.None? || exists users :: IsWhole(file, users)
  {
    if file.Some? {
      var users, k :| HoldsPrefix(file, users, k);
      LoadPrefix(file, users, k);
      if other :| IsWhole(file, other) {
        LoadWhole(file, other);
      }
    }
  }

  /** The file holds the whole encoding of a well-formed user list. */
  ghost predicate IsWhole(file: Option<seq<byte>>, users: seq<User>) {
    UsersOk(users) && file == Some(FileBytes(users)) && |file.value| <= PRE_APPLY_LEN
  }

  lemma LoadPrefix(file: Option<seq<byte>>, users: seq<User>, k: nat)
    requires HoldsPrefix(file, users, k)
    ensures if k == |FileBytes(users)| then IsWhole(file, users) && Load(file) == Some(DeepReverse(users))
            && UsersOk(DeepReverse(users))
            else Load(file).None?
  {
    if k < |FileBytes(users)| {
      TornFileNeverLoads(users, k);
    } else {
      assert FileBytes(users)[..k] == FileBytes(users);
      LoadWhole(file, users);
      DeepReverseOk(users);
    }
  }

  lemma LoadWhole(file: Option<seq<byte>>, users: seq<User>)
    requires IsWhole(file, users)
    ensures Load(file) == Some(DeepReverse(users))
  {
    DeepReverseOk(users);
    FileBytesLength(users);
    ReadFileBack(users);
    LoadOfParsed(FileBytes(users));
  }

  lemma StepOk(db: Db, s: DbStep)
    requires DbOk(db)
    ensures DbOk(Step(db, s))
  {
    match s
    case Add(id, c, env) =>
      AddCredentialInfoOk(db, id, c, env);
      SavesOnly(db, s);
    case Delete(id, credentialId, env) =>
      DeleteCredentialInfoOk(db, id, credentialId, NO_CREDENTIAL, env);
      SavesOnly(db, s);
    case DeleteUser(id, malloced, env) =>
      DeleteUserInfoOk(db, id, malloced, env);
      SavesOnly(db, s);
    case Reload =>
      LoadOk(db.file);
  }

  lemma StepNoUsers(db: Db, s: DbStep)
    requires !s.Reload? && db.users.None?
    ensures Step(db, s).users.None?
  {}

  function StepSaveEnv(s: DbStep): SaveEnv
    requires !s.Reload?
  {
    if s.Add? then s.env.save else s.saveEnv
  }

  /** What the caller's buffer held does not change what a deletion does. */
  lemma OutIrrelevant(db: Db, userId: i32, id: u64, out: CredentialInfo, env: SaveEnv)
    ensures DeleteCredentialInfo(db, userId, id, out, env).1 == Step(db, Delete(userId, id, env))
  {}

  /** The file holds what it held, or a save of the user list the step ends with. */
  predicate SavedBy(db: Db, db1: Db, env: SaveEnv) {
    db1.file == db.file || db1.file == Save(db1.users, db.file, env).1
  }

  lemma AddSaves(db: Db, id: i32, c: CredentialInfo, env: AddEnv)
    ensures SavedBy(db, AddCredentialInfo(db, id, c, env).1, env.save)
  {}

  lemma DeleteSaves(db: Db, id: i32, credentialId: u64, env: SaveEnv)
    ensures SavedBy(db, DeleteCredentialInfo(db, id, credentialId, NO_CREDENTIAL, env).1, env)
  {}

  lemma DeleteUserSaves(db: Db, id: i32, malloced: bool, env: SaveEnv)
    ensures SavedBy(db, DeleteUserInfo(db, id, malloced, env).1, env)
  {}

  /** The file changes only by saving the user list the step ends with. */
  lemma SavesOnly(db: Db, s: DbStep)
    requires !s.Reload? && DbOk(db)
    requires Step(db, s).users.Some? ==> UsersOk(Step(db, s).users.value)
    ensures SavedBy(db, Step(db, s), StepSaveEnv(s))
    ensures FileOk(Step(db, s).file)
  {
    match s {
      case Add(id, c, env) => AddSaves(db, id, c, env);
      case Delete(id, credentialId, env) => DeleteSaves(db, id, credentialId, env);
      case DeleteUser(id, malloced, env) => DeleteUserSaves(db, id, malloced, env);
    }
    SaveOk(Step(db, s).users, db.file, StepSaveEnv(s));
  }

  /** Over any run from an empty database the user list stays well formed and the file stays loadable or cut short. */
  lemma {:induction false} RunOk(db: Db, steps: seq<DbStep>)
    requires DbOk(db)
    ensures DbOk(Run(db, steps))
    decreases |steps|
  {
    if |steps| > 0 {
      StepOk(db, steps[0]);
      RunOk(Step(db, steps[0]), steps[1..]);
    }
  }

  /** After any run the loader refuses the file only when the last write to it was cut short; it never
      refuses for the counts. */
  lemma ReloadAfterRun(steps: seq<DbStep>)
    ensures var db := Run(EMPTY_DB, steps);
            && (db.users.Some? ==> UsersOk(db.users.value))
            && (Load(db.file).Some? ==> UsersOk(Load(db.file).value))
            && (Load(db.file).Some? <==> db.file.None? || exists users :: IsWhole(db.file, users))
  {
    RunOk(EMPTY_DB, steps);
    LoadOk(Run(EMPTY_DB, steps).file);
  }

  // ----- a first user ----------------------------------------------------------------------------

  /** Memory and random numbers for a first user with secure uid 7, enrolled id 8 and credential id 9. */
  predicate FirstAddWorks(add: AddEnv) {
    && add.userMalloced && add.userInserted && add.enrolledMalloced && add.enrolledInserted
    && add.credentialMalloced && add.credentialInserted
    && add.secUidDraws[0] == Some(7) && add.enrolledDraws[0] == Some(8) && add.credentialDraws[0] == Some(9)
  }

  lemma FirstAdd(add: AddEnv, pin: CredentialInfo)
    requires FirstAddWorks(add) && pin.authType == PIN_AUTH
    ensures AddCredentialInfo(EMPTY_DB, 100, pin, add).1.users ==
            Some([User(100, 7, [pin.(credentialId := 9)], [EnrolledInfo(PIN_AUTH, 8)])])
  {
    var v := User(100, 7, [], []);
    assert [EnrolledInfo(PIN_AUTH, 8)] + [] == [EnrolledInfo(PIN_AUTH, 8)];
    assert [pin.(credentialId := 9)] + [] == [pin.(credentialId := 9)];
    assert 8 !in EnrolledIds([]) && 9 !in CredentialIds([]) && 7 !in SecUids([]);
    assert UpdateEnrolledId([], PIN_AUTH, add) == (RESULT_SUCCESS, [EnrolledInfo(PIN_AUTH, 8)]);
    var u := User(100, 7, [pin.(credentialId := 9)], [EnrolledInfo(PIN_AUTH, 8)]);
    assert AddCredentialToUser(v, pin, add) == (RESULT_SUCCESS, u, pin.(credentialId := 9));
    assert FirstFresh(add.secUidDraws, SecUids([])) == Some(7) && [u] + [] == [u];
    assert AddUser(Some([]), 100, pin, add).1 == Some([u]);
  }

  lemma TwoSteps(db: Db, s: DbStep, t: DbStep)
    ensures Run(db, [s, t]) == Step(Step(db, s), t)
  {
    assert [s, t][1..] == [t] && |[t][1..]| == 0;
    assert Run(db, [s, t]) == Run(Step(db, s), [t]) == Run(Step(Step(db, s), t), [t][1..]);
  }
}
