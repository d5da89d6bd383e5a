/** Deletions: which users can be deleted at all, and which deletions outlast a new start. */
module UserDeletion {
  import opened Base
  import opened IdmCommon
  import opened FileManager
  import opened FileLoader
  import opened DatabaseSpec
  import opened DatabaseRuns

  /** DeleteUserInfo takes a user away exactly when the user exists, still has a credential and the
      copy of the credentials can be allocated. */
  lemma DeleteUserInfoIff(db: Db, id: i32, malloced: bool, env: SaveEnv)
    requires db.users.Some? && UsersOk(db.users.value)
    ensures var db1 := DeleteUserInfo(db, id, malloced, env).1;
            && (db1.users != db.users <==> HasUser(db, id) && |UserOf(db, id).credentials| > 0 && malloced)
            && (db1.users != db.users ==> !HasUser(db1, id))
            && (DeleteUserInfo(db, id, malloced, env).0 == RESULT_SUCCESS ==> db1.users != db.users)
  {
    if HasUser(db, id) {
      var us := db.users.value;
      RemoveFirstSub(us, UserHasId(id));
      var r := RemoveFirst(us, UserHasId(id));
      FindUserIn(r, id);
      var k := FindUser(us, id);
      assert forall i :: 0 <= i < |us| && i != k ==> us[i].userId != us[k].userId;
    }
  }

  /** The user at k has the id and a credential, and the list without the user can be saved. */
  predicate RemovableAt(users: seq<User>, k: nat, id: i32, env: SaveEnv) {
    && k < |users| && users[k].userId == id && |users[k].credentials| > 0
    && Saves(users[..k] + users[k + 1..], env)
  }

  lemma RemovableIff(users: seq<User>, id: i32, env: SaveEnv)
    requires UsersOk(users)
    ensures (exists k: nat :: RemovableAt(users, k, id, env)) <==>
            FindUser(users, id) < |users| && |users[FindUser(users, id)].credentials| > 0
            && Saves(RemoveFirst(users, UserHasId(id)), env)
  {
    var k := FindUser(users, id);
    RemoveFirstAt(users, UserHasId(id));
    forall j: nat | RemovableAt(users, j, id, env) ensures j == k {
      FirstIndexUnique(users, UserHasId(id), j);
    }
    assert k < |users| && |users[k].credentials| > 0 && Saves(RemoveFirst(users, UserHasId(id)), env) ==>
             RemovableAt(users, k, id, env);
  }

  lemma DeleteUserSucceeds(db: Db, id: i32, malloced: bool, env: SaveEnv)
    requires HasUser(db, id)
    ensures var (r, db1, cs) := DeleteUserInfo(db, id, malloced, env);
            var u, others := UserOf(db, id), RemoveFirst(db.users.value, UserHasId(id));
            && (r == RESULT_SUCCESS <==> |u.credentials| > 0 && malloced && Saves(others, env))
            && (r == RESULT_SUCCESS ==> DatabaseRuns.Written(db1) && db1.users == Some(others) && cs == u.credentials)
            && (db1.users == Some(others) || (db1 == db && cs == []))
  {
    var others := RemoveFirst(db.users.value, UserHasId(id));
    SavesIff(others, db.file, env);
    SaveWrites(db.(users := Some(others)), env);
  }

  /** DeleteUserInfo succeeds exactly for a user with a credential, with memory for the copy, when the list without the
      user can be saved. It then hands back the credentials, only that user is gone, and the file holds the others;
      without memory, or for another user, nothing changes. */
  lemma DeleteUserMeans(db: Db, id: i32, malloced: bool, env: SaveEnv)
    requires db.users.Some? && UsersOk(db.users.value)
    ensures var (r, db1, cs) := DeleteUserInfo(db, id, malloced, env);
            && (r == RESULT_SUCCESS <==> malloced && exists k: nat :: RemovableAt(db.users.value, k, id, env))
            && (r == RESULT_SUCCESS ==>
                  && DatabaseRuns.Written(db1)
                  && (forall u :: u in db1.users.value <==> u in db.users.value && u.userId != id)
                  && exists u :: u in db.users.value && u.userId == id && cs == u.credentials)
            && (db1.users == db.users ==> db1 == db && cs == [])
            && (r == RESULT_NOT_FOUND <==> forall u :: u in db.users.value ==> u.userId != id)
            && (HasUser(db, id) && (UserOf(db, id).credentials == [] || !malloced) ==> r == RESULT_NO_MEMORY)
  {
    KnownIff(db.users.value, id);
    RemovableIff(db.users.value, id, env);
    if HasUser(db, id) {
      DeleteUserSucceeds(db, id, malloced, env);
      UserGone(db.users.value, id);
      OneLess(db.users.value, id);
      assert UserOf(db, id) in db.users.value && UserOf(db, id).userId == id;
    }
  }

  lemma KnownIff(users: seq<User>, id: i32)
    ensures FindUser(users, id) == |users| <==> forall u :: u in users ==> u.userId != id
  {
    FirstIndexIn(users, UserHasId(id));
    if u :| u in users && u.userId == id {
      assert UserHasId(id)(u);
    }
  }

  lemma OneLess(users: seq<User>, id: i32)
    requires FindUser(users, id) < |users|
    ensures RemoveFirst(users, UserHasId(id)) != users
  {
    RemoveFirstSub(users, UserHasId(id));
  }

  lemma UserGone(users: seq<User>, id: i32)
    requires UsersOk(users) && FindUser(users, id) < |users|
    ensures forall u :: u in RemoveFirst(users, UserHasId(id)) <==> u in users && u.userId != id
  {
    forall u ensures u in RemoveFirst(users, UserHasId(id)) <==> u in users && u.userId != id {
      RemoveOnly(users, UserHasId(id), u);
    }
  }

  /** After a successful deletion of a user, a new start does not find the user again. */
  lemma DeletedForGood(db: Db, id: i32, malloced: bool, env: SaveEnv)
    requires DbOk(db) && db.users.Some? && DeleteUserInfo(db, id, malloced, env).0 == RESULT_SUCCESS
    ensures var db2 := Run(db, [DeleteUser(id, malloced, env), Reload]);
            db2.users.Some? && forall u :: u in db2.users.value ==> u.userId != id
  {
    var db1 := DeleteUserInfo(db, id, malloced, env).1;
    DeleteUserMeans(db, id, malloced, env);
    StepOk(db, DeleteUser(id, malloced, env));
    TwoSteps(db, DeleteUser(id, malloced, env), Reload);
    ReloadWritten(db1, Step(db1, Reload), id);
  }

  lemma ReloadWritten(db: Db, db1: Db, id: i32)
    requires DbOk(db) && DatabaseRuns.Written(db) && db1 == Step(db, Reload)
    requires forall u :: u in db.users.value ==> u.userId != id
    ensures db1.users.Some? && forall u :: u in db1.users.value ==> u.userId != id
  {
    ReloadIs(db, db1);
    WrittenPrefix(db);
    LoadPrefix(db.file, db.users.value, |FileBytes(db.users.value)|);
    NotReversedIn(db.users.value, id);
  }

  lemma NotReversedIn(users: seq<User>, id: i32)
    requires forall u :: u in users ==> u.userId != id
    ensures forall u :: u in DeepReverse(users) ==> u.userId != id
  {
    forall u | u in DeepReverse(users) ensures u.userId != id {
      var k :| 0 <= k < |DeepReverse(users)| && DeepReverse(users)[k] == u;
      MapReverseAt(users, ReverseUser, k);
      assert users[|users| - 1 - k] in users;
    }
  }

  // ----- a user whose last credential was deleted ------------------------------------------------

  /** The user is in the list and has no credential. */
  predicate Bare(users: seq<User>, id: i32) {
    exists k :: 0 <= k < |users| && users[k].userId == id && users[k].credentials == []
  }

  /** ... in memory, unless a file that was cut short was loaded, and in the users the file holds or was to hold. */
  ghost predicate Emptied(db: Db, id: i32) {
    && DbOk(db)
    && (db.users.Some? ==> Bare(db.users.value, id))
    && exists users, k :: HoldsPrefix(db.file, users, k) && Bare(users, id)
  }

  lemma BareFound(users: seq<User>, id: i32)
    requires UsersOk(users) && Bare(users, id)
    ensures FindUser(users, id) < |users| && users[FindUser(users, id)].credentials == []
  {
    var k :| 0 <= k < |users| && users[k].userId == id && users[k].credentials == [];
    FirstIndexUnique(users, UserHasId(id), k);
  }

  lemma BareReplaced(users: seq<User>, id: i32, j: nat, u: User)
    requires Bare(users, id) && j < |users| && (users[j].userId != id || (u.userId == id && u.credentials == []))
    ensures Bare(users[j := u], id)
  {
    var k :| 0 <= k < |users| && users[k].userId == id && users[k].credentials == [];
    assert users[j := u][k] == if k == j then u else users[k];
  }

  lemma BarePrepended(users: seq<User>, id: i32, u: User)
    requires Bare(users, id)
    ensures Bare([u] + users, id)
  {
    var k :| 0 <= k < |users| && users[k].userId == id && users[k].credentials == [];
    assert ([u] + users)[k + 1] == users[k];
  }

  lemma BareRemoved(users: seq<User>, id: i32, other: i32)
    requires Bare(users, id) && other != id
    ensures Bare(RemoveFirst(users, UserHasId(other)), id)
  {
    var k :| 0 <= k < |users| && users[k].userId == id && users[k].credentials == [];
    RemoveFirstKeeps(users, UserHasId(other), users[k]);
    var r := RemoveFirst(users, UserHasId(other));
    var j :| 0 <= j < |r| && r[j] == users[k];
  }

  lemma BareReversed(users: seq<User>, id: i32)
    requires Bare(users, id)
    ensures Bare(DeepReverse(users), id)
  {
    var k :| 0 <= k < |users| && users[k].userId == id && users[k].credentials == [];
    MapReverseAt(users, ReverseUser, |users| - 1 - k);
    assert DeepReverse(users)[|users| - 1 - k] == ReverseUser(users[k]);
  }

  lemma AddKeepsBare(db: Db, id: i32, other: i32, c: CredentialInfo, env: AddEnv)
    requires db.users.Some? && Bare(db.users.value, id) && other != id
    ensures var db1 := AddCredentialInfo(db, other, c, env).1; db1.users.Some? && Bare(db1.users.value, id)
  {
    if HasUser(db, other) {
      AddedUsers(db, other, c, env);
      BareReplaced(db.users.value, id, FindUser(db.users.value, other),
                   AddCredentialToUser(UserOf(db, other), c, env).1);
    } else {
      FreshUsers(db, other, c, env);
      var uid := FirstFresh(env.secUidDraws, SecUids(db.users.value));
      if uid.Some? {
        BarePrepended(db.users.value, id, AddCredentialToUser(User(other, uid.value, [], []), c, env).1);
      }
    }
  }

  lemma DeleteKeepsBare(db: Db, id: i32, other: i32, credentialId: u64, env: SaveEnv)
    requires db.users.Some? && UsersOk(db.users.value) && Bare(db.users.value, id)
    ensures var db1 := DeleteCredentialInfo(db, other, credentialId, NO_CREDENTIAL, env).1;
            db1.users.Some? && Bare(db1.users.value, id)
  {
    DeleteCredentialInfoOk(db, other, credentialId, NO_CREDENTIAL, env);
    BareFound(db.users.value, id);
    if HasUser(db, other) {
      BareReplaced(db.users.value, id, FindUser(db.users.value, other),
                   UserAfterDelete(UserOf(db, other), credentialId));
    }
  }

  lemma DeleteUserKeepsBare(db: Db, id: i32, other: i32, malloced: bool, env: SaveEnv)
    requires db.users.Some? && UsersOk(db.users.value) && Bare(db.users.value, id)
    ensures var db1 := DeleteUserInfo(db, other, malloced, env).1; db1.users.Some? && Bare(db1.users.value, id)
  {
    BareFound(db.users.value, id);
    if other != id {
      BareRemoved(db.users.value, id, other);
    }
  }

  lemma StepKeepsBare(db: Db, s: DbStep, id: i32)
    requires db.users.Some? && UsersOk(db.users.value) && Bare(db.users.value, id)
    requires !s.Reload? && (s.Add? ==> s.id != id)
    ensures Step(db, s).users.Some? && Bare(Step(db, s).users.value, id)
  {
    match s
    case Add(other, c, env) => AddKeepsBare(db, id, other, c, env);
    case Delete(other, credentialId, env) => DeleteKeepsBare(db, id, other, credentialId, env);
    case DeleteUser(other, malloced, env) => DeleteUserKeepsBare(db, id, other, malloced, env);
  }

  lemma LoadedBare(file: Option<seq<byte>>, users: seq<User>, k: nat, id: i32)
    requires HoldsPrefix(file, users, k) && Bare(users, id)
    ensures Load(file).Some? ==> Bare(Load(file).value, id)
  {
    LoadPrefix(file, users, k);
    BareReversed(users, id);
  }

  lemma LoadedEmptied(db: Db, users: Option<seq<User>>, id: i32)
    requires Emptied(db, id) && users == Load(db.file) && DbOk(Db(users, db.file))
    ensures Emptied(Db(users, db.file), id)
  {
    var held, k :| HoldsPrefix(db.file, held, k) && Bare(held, id);
    LoadedBare(db.file, held, k, id);
  }

  lemma ReloadIs(db: Db, db1: Db)
    requires DbOk(db) && db1 == Step(db, Reload)
    ensures db1.users == Load(db.file) && db1.file == db.file && DbOk(db1)
  {
    StepOk(db, Reload);
  }

  lemma ReloadEmptied(db: Db, db1: Db, id: i32)
    requires Emptied(db, id) && db1 == Step(db, Reload)
    ensures Emptied(db1, id)
  {
    ReloadIs(db, db1);
    LoadedEmptied(db, db1.users, id);
  }

  /** What the file holds after a step: what it held, or a prefix of the users the step ends with. */
  lemma FileEmptied(db: Db, s: DbStep, id: i32)
    requires Emptied(db, id) && !s.Reload? && DbOk(Step(db, s))
    requires Step(db, s).users.Some? ==> Bare(Step(db, s).users.value, id)
    ensures exists users, k :: HoldsPrefix(Step(db, s).file, users, k) && Bare(users, id)
  {
    var db1 := Step(db, s);
    if db1.file != db.file {
      SavesOnly(db, s);
      SavedPrefix(db1.users, db.file, StepSaveEnv(s));
      var k :| HoldsPrefix(db1.file, db1.users.value, k);
    }
  }

  lemma StepEmptied(db: Db, s: DbStep, id: i32)
    requires Emptied(db, id) && !s.Reload? && (s.Add? ==> s.id != id)
    ensures Emptied(Step(db, s), id)
  {
    StepOk(db, s);
    if db.users.Some? {
      StepKeepsBare(db, s, id);
    } else {
      StepNoUsers(db, s);
    }
    FileEmptied(db, s, id);
  }

  /** Over every run that adds no credential for a user without one, no call deletes the user, in memory or in the
      file, not even across reloads. */
  lemma {:induction false} EmptiedUserStays(db: Db, steps: seq<DbStep>, id: i32)
    requires Emptied(db, id) && forall k :: 0 <= k < |steps| && steps[k].Add? ==> steps[k].id != id
    ensures Emptied(Run(db, steps), id)
    ensures Run(db, steps).users.Some? ==> HasUser(Run(db, steps), id) && UserOf(Run(db, steps), id).credentials == []
    decreases |steps|
  {
    if |steps| > 0 {
      if steps[0].Reload? {
        ReloadEmptied(db, Step(db, steps[0]), id);
      } else {
        StepEmptied(db, steps[0], id);
      }
      forall k | 0 <= k < |steps[1..]| && steps[1..][k].Add? ensures steps[1..][k].id != id {
        assert steps[1..][k] == steps[k + 1];
      }
      EmptiedUserStays(Step(db, steps[0]), steps[1..], id);
    } else if db.users.Some? {
      BareFound(db.users.value, id);
    }
  }

  /** Successfully deleting the last credential of a user puts it into that state. */
  lemma LastDeletionEmpties(db: Db, id: i32, credentialId: u64, env: SaveEnv)
    requires DbOk(db) && HasUser(db, id) && |UserOf(db, id).credentials| == 1
    requires DeleteCredentialInfo(db, id, credentialId, NO_CREDENTIAL, env).0 == RESULT_SUCCESS
    ensures Emptied(Step(db, Delete(id, credentialId, env)), id)
  {
    var db1, u, u1 := Step(db, Delete(id, credentialId, env)), UserOf(db, id),
        UserAfterDelete(UserOf(db, id), credentialId);
    StepOk(db, Delete(id, credentialId, env));
    DeleteMeans(db, id, credentialId, NO_CREDENTIAL, env);
    var k := FindUser(db.users.value, id);
    RemoveFirstSub(u.credentials, CredentialHasId(credentialId));
    FirstIndexIn(u.credentials, CredentialHasId(credentialId));
    assert db1.users.value[k] == u1;
    WrittenPrefix(db1);
  }

  lemma WrittenPrefix(db: Db)
    requires DatabaseRuns.Written(db) && FileOk(db.file) && UsersOk(db.users.value)
    ensures HoldsPrefix(db.file, db.users.value, |FileBytes(db.users.value)|)
  {
    var users, k :| HoldsPrefix(db.file, users, k);
    WholePrefix(db.file, FileBytes(db.users.value), FileBytes(users), k);
  }

  lemma WholePrefix(file: Option<seq<byte>>, data: seq<byte>, other: seq<byte>, k: nat)
    requires file == Some(data) && Prefix(file, other, k)
    ensures Prefix(file, data, |data|)
  {
    assert data[..|data|] == data;
  }

  lemma FirstDelete(db: Db, u: User, id: u64, env: SaveEnv)
    requires db.users == Some([u]) && |u.credentials| == |u.enrolled| == 1
    requires u.credentials[0].credentialId == id && u.enrolled[0].authType == u.credentials[0].authType
    ensures Step(db, Delete(u.userId, id, env)).users == Some([u.(credentials := [], enrolled := [])])
  {
    assert UserHasId(u.userId)(u) && UserOf(db, u.userId) == u;
    assert CredentialHasId(id)(u.credentials[0]) && EnrolledHasType(u.credentials[0].authType)(u.enrolled[0]);
    var v := u.(credentials := [], enrolled := []);
    assert RemoveFirst(u.credentials, CredentialHasId(id)) == [] && UserAfterDelete(u, id) == v;
    assert [u][0 := v] == [v];
  }

  /** Such a user: added with a PIN, which is then deleted. */
  lemma EmptiedUser(add: AddEnv, delete: SaveEnv)
    requires FirstAddWorks(add)
    ensures var pin := CredentialInfo(0, PIN_AUTH, 0, 1, 3);
            Run(EMPTY_DB, [Add(100, pin, add), Delete(100, 9, delete)]).users == Some([User(100, 7, [], [])])
  {
    var pin := CredentialInfo(0, PIN_AUTH, 0, 1, 3);
    FirstAdd(add, pin);
    FirstDelete(Step(EMPTY_DB, Add(100, pin, add)),
                User(100, 7, [pin.(credentialId := 9)], [EnrolledInfo(PIN_AUTH, 8)]), 9, delete);
    TwoSteps(EMPTY_DB, Add(100, pin, add), Delete(100, 9, delete));
  }

  // ----- deletions across a new start ------------------------------------------------------------

  /** The user has a credential with the id. */
  predicate Stored(users: seq<User>, id: i32, credentialId: u64) {
    exists k :: 0 <= k < |users| && users[k].userId == id && credentialId in CredentialIds(users[k].credentials)
  }

  lemma ReversedIds(cs: seq<CredentialInfo>)
    ensures CredentialIds(Reverse(cs)) == CredentialIds(cs)
  {
    forall c ensures c in Reverse(cs) <==> c in cs {
      ReverseIn(cs, c);
    }
  }

  lemma StoredReversed(users: seq<User>, id: i32, credentialId: u64)
    ensures Stored(DeepReverse(users), id, credentialId) <==> Stored(users, id, credentialId)
  {
    var r := DeepReverse(users);
    forall k | 0 <= k < |users|
      ensures r[k].userId == users[|users| - 1 - k].userId
      ensures CredentialIds(r[k].credentials) == CredentialIds(users[|users| - 1 - k].credentials)
    {
      MapReverseAt(users, ReverseUser, k);
      ReversedIds(users[|users| - 1 - k].credentials);
    }
    if k :| 0 <= k < |users| && users[k].userId == id && credentialId in CredentialIds(users[k].credentials) {
      assert r[|users| - 1 - k].userId == id && credentialId in CredentialIds(r[|users| - 1 - k].credentials);
    }
  }

  lemma WrittenReloads(db: Db)
    requires DbOk(db) && DatabaseRuns.Written(db)
    ensures Load(db.file) == Some(DeepReverse(db.users.value))
  {
    WrittenPrefix(db);
    LoadPrefix(db.file, db.users.value, |FileBytes(db.users.value)|);
  }

  lemma StoredAfterDelete(db: Db, id: i32, credentialId: u64, env: SaveEnv)
    requires db.users.Some? && UsersOk(db.users.value) && HasUser(db, id)
    ensures var db1 := DeleteCredentialInfo(db, id, credentialId, NO_CREDENTIAL, env).1;
            db1.users.Some? && !Stored(db1.users.value, id, credentialId)
  {
    DeleteMeans(db, id, credentialId, NO_CREDENTIAL, env);
    var users, k, u1 := db.users.value, FindUser(db.users.value, id), UserAfterDelete(UserOf(db, id), credentialId);
    var after: seq<User> := users[k := u1];
    assert users[k].userId == id && u1.userId == id;
    forall j | 0 <= j < |after| && after[j].userId == id ensures credentialId !in CredentialIds(after[j].credentials) {
      assert j == k;
    }
  }

  /** With the file up to date, a credential that was deleted with success is back after a new start if and only if the
      user has another one of its type: the file is written only with the last of a type. */
  lemma DeletedReturnsIff(db: Db, id: i32, credentialId: u64, env: SaveEnv)
    requires DbOk(db) && HasUser(db, id) && DatabaseRuns.Written(db)
    requires DeleteCredentialInfo(db, id, credentialId, NO_CREDENTIAL, env).0 == RESULT_SUCCESS
    ensures var db2 := Run(db, [Delete(id, credentialId, env), Reload]);
            var c := DeleteCredentialInfo(db, id, credentialId, NO_CREDENTIAL, env).2;
            && db2.users.Some?
            && (Stored(db2.users.value, id, credentialId) <==>
                exists x :: x in UserOf(db, id).credentials && x.authType == c.authType
                    && x.credentialId != credentialId)
  {
    var db1, c := Step(db, Delete(id, credentialId, env)),
        DeleteCredentialInfo(db, id, credentialId, NO_CREDENTIAL, env).2;
    var u, u1 := UserOf(db, id), UserAfterDelete(UserOf(db, id), credentialId);
    DeleteMeans(db, id, credentialId, NO_CREDENTIAL, env);
    StepOk(db, Delete(id, credentialId, env));
    TwoSteps(db, Delete(id, credentialId, env), Reload);
    StoredAfterDelete(db, id, credentialId, env);
    HasTypeIn(u1.credentials, c.authType);
    ReturnsWithFile(db, db1, Step(db1, Reload), id, credentialId, HasType(u1.credentials, c.authType), c);
  }

  lemma ReturnsWithFile(db: Db, db1: Db, db2: Db, id: i32, credentialId: u64, other: bool, c: CredentialInfo)
    requires DbOk(db) && DbOk(db1) && DatabaseRuns.Written(db) && db1.users.Some? && db2 == Step(db1, Reload)
    requires HasUser(db, id) && c in UserOf(db, id).credentials && c.credentialId == credentialId
    requires !Stored(db1.users.value, id, credentialId)
    requires if other then db1.file == db.file else DatabaseRuns.Written(db1)
    ensures db2.users.Some? && (Stored(db2.users.value, id, credentialId) <==> other)
  {
    ReloadIs(db1, db2);
    if other {
      WrittenReloads(db);
      StoredReversed(db.users.value, id, credentialId);
      assert Stored(db.users.value, id, credentialId) by {
        assert db.users.value[FindUser(db.users.value, id)].userId == id;
      }
    } else {
      WrittenReloads(db1);
      StoredReversed(db1.users.value, id, credentialId);
    }
  }
}
