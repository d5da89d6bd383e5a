/** The credential database as a value: what each operation of idm_database.c does to the user
    list and to the file, for every outcome of allocation, random numbers and writing. */
module DatabaseSpec {
  import opened Base
  import opened IdmCommon
  import opened FileManager

  /** users is None while the database is not initialised. */
  datatype Db = Db(users: Option<seq<User>>, file: Option<seq<byte>>)

  function UserHasId(id: i32): User -> bool { (u: User) => u.userId == id }
  function CredentialHasId(id: u64): CredentialInfo -> bool { (c: CredentialInfo) => c.credentialId == id }
  function CredentialHasType(t: u32): CredentialInfo -> bool { (c: CredentialInfo) => c.authType == t }
  function EnrolledHasType(t: u32): EnrolledInfo -> bool { (e: EnrolledInfo) => e.authType == t }

  function FindUser(users: seq<User>, id: i32): (i: nat)
    ensures i <= |users|
  {
    FirstIndex(users, UserHasId(id))
  }

  predicate HasUser(db: Db, id: i32) {
    db.users.Some? && FindUser(db.users.value, id) < |db.users.value|
  }

  function UserOf(db: Db, id: i32): User
    requires HasUser(db, id)
  {
    db.users.value[FindUser(db.users.value, id)]
  }

  predicate HasType(cs: seq<CredentialInfo>, t: u32) {
    FirstIndex(cs, CredentialHasType(t)) < |cs|
  }

  predicate IsEnrolled(es: seq<EnrolledInfo>, t: u32) {
    FirstIndex(es, EnrolledHasType(t)) < |es|
  }

  function CredentialIds(cs: seq<CredentialInfo>): set<u64> { set c | c in cs :: c.credentialId }
  function EnrolledIds(es: seq<EnrolledInfo>): set<u64> { set e | e in es :: e.enrolledId }
  function SecUids(users: seq<User>): set<u64> { set u | u in users :: u.secUid }

  /** What the environment decides while a credential is added. */
  datatype AddEnv = AddEnv(
    userMalloced: bool, secUidDraws: Draws, userInserted: bool,
    enrolledMalloced: bool, enrolledDraws: Draws, enrolledInserted: bool,
    credentialMalloced: bool, credentialDraws: Draws, credentialInserted: bool,
    save: SaveEnv)

  function UpdateEnrolledId(es: seq<EnrolledInfo>, t: u32, env: AddEnv): (ResultCode, seq<EnrolledInfo>) {
    var i := FirstIndex(es, EnrolledHasType(t));
    var id := FirstFresh(env.enrolledDraws, EnrolledIds(es));
    if i < |es| then
      if id.None? then (RESULT_GENERAL_ERROR, es)
      else (RESULT_SUCCESS, es[i := es[i].(enrolledId := id.value)])
    else if !env.enrolledMalloced then (RESULT_NO_MEMORY, es)
    else if id.None? then (RESULT_GENERAL_ERROR, es)
    else if !env.enrolledInserted then (RESULT_NO_MEMORY, es)
    else (RESULT_SUCCESS, [EnrolledInfo(t, id.value)] + es)
  }

  /** The result, the user afterwards and the credential handed back to the caller. */
  function AddCredentialToUser(u: User, c: CredentialInfo, env: AddEnv): (ResultCode, User, CredentialInfo) {
    if |u.enrolled| > MAX_AUTH_TYPE || |u.credentials| >= MAX_CREDENTIAL then (RESULT_EXCEED_LIMIT, u, c)
    else
      var (r, es) := UpdateEnrolledId(u.enrolled, c.authType, env);
      if r != RESULT_SUCCESS then (r, u, c)
      else
        var u1 := u.(enrolled := es);
        var id := FirstFresh(env.credentialDraws, CredentialIds(u.credentials));
        if id.None? then (RESULT_GENERAL_ERROR, u1, c)
        else
          var c1 := c.(credentialId := id.value);
          if !env.credentialMalloced || !env.credentialInserted then (RESULT_NO_MEMORY, u1, c1)
          else (RESULT_SUCCESS, u1.(credentials := [c1] + u.credentials), c1)
  }

  /** A user is created, given the credential and inserted, or dropped again. */
  function AddFreshUser(users: seq<User>, id: i32, c: CredentialInfo, env: AddEnv)
    : (ResultCode, seq<User>, CredentialInfo)
  {
    var uid := FirstFresh(env.secUidDraws, SecUids(users));
    if !env.userMalloced || uid.None? then (RESULT_UNKNOWN, users, c)
    else
      var (r, u, c1) := AddCredentialToUser(User(id, uid.value, [], []), c, env);
      if r != RESULT_SUCCESS then (r, users, c1)
      else if !env.userInserted then (RESULT_NO_MEMORY, users, c1)
      else (RESULT_SUCCESS, [u] + users, c1)
  }

  function AddUser(users: Option<seq<User>>, id: i32, c: CredentialInfo, env: AddEnv)
    : (ResultCode, Option<seq<User>>, CredentialInfo)
  {
    if users.None? then (RESULT_NEED_INIT, users, c)
    else if |users.value| >= MAX_USER then (RESULT_EXCEED_LIMIT, users, c)
    else if FindUser(users.value, id) < |users.value| then (RESULT_BAD_PARAM, users, c)
    else
      var (r, users1, c1) := AddFreshUser(users.value, id, c, env);
      (r, Some(users1), c1)
  }

  /** QueryCredentialInfo: the first credential of the type, or out when there is none. */
  function QueryCredentialInfo(db: Db, id: i32, t: u32, out: CredentialInfo): (ResultCode, CredentialInfo) {
    if !HasUser(db, id) || !HasType(UserOf(db, id).credentials, t) then (RESULT_NOT_FOUND, out)
    else
      var cs := UserOf(db, id).credentials;
      (RESULT_SUCCESS, cs[FirstIndex(cs, CredentialHasType(t))])
  }

  function SetUser(db: Db, id: i32, u: User): Db
    requires HasUser(db, id)
  {
    db.(users := Some(db.users.value[FindUser(db.users.value, id) := u]))
  }

  function SaveDb(db: Db, env: SaveEnv): (ResultCode, Db) {
    var (r, file) := Save(db.users, db.file, env);
    (r, db.(file := file))
  }

  /** AddCredentialInfo. For a new user the result of the save replaces the result of adding. */
  function AddCredentialInfo(db: Db, id: i32, c: CredentialInfo, env: AddEnv): (ResultCode, Db, CredentialInfo) {
    if !HasUser(db, id) then
      if c.authType == PIN_AUTH then
        var (_, users, c1) := AddUser(db.users, id, c, env);
        var (r, db1) := SaveDb(db.(users := users), env.save);
        (r, db1, c1)
      else (RESULT_BAD_PARAM, db, c)
    else
      var u := UserOf(db, id);
      var pin := FirstIndex(u.credentials, CredentialHasType(PIN_AUTH));
      if c.authType == PIN_AUTH && pin < |u.credentials| then (RESULT_BAD_PARAM, db, u.credentials[pin])
      else
        var (r, u1, c1) := AddCredentialToUser(u, c, env);
        if r != RESULT_SUCCESS then (r, SetUser(db, id, u1), c1)
        else
          var (r1, db1) := SaveDb(SetUser(db, id, u1), env.save);
          (r1, db1, c1)
  }

  /** DeleteCredentialInfo. The file is written only when the last credential of its type goes. */
  function DeleteCredentialInfo(db: Db, id: i32, credentialId: u64, out: CredentialInfo, env: SaveEnv)
    : (ResultCode, Db, CredentialInfo)
  {
    if !HasUser(db, id) then (RESULT_BAD_PARAM, db, out)
    else
      var u := UserOf(db, id);
      var i := FirstIndex(u.credentials, CredentialHasId(credentialId));
      if i == |u.credentials| then (RESULT_UNKNOWN, db, out)
      else
        var c := u.credentials[i];
        var u1 := u.(credentials := RemoveFirst(u.credentials, CredentialHasId(credentialId)));
        if HasType(u1.credentials, c.authType) then (RESULT_SUCCESS, SetUser(db, id, u1), c)
        else if !IsEnrolled(u.enrolled, c.authType) then (RESULT_NOT_FOUND, SetUser(db, id, u1), c)
        else
          var u2 := u1.(enrolled := RemoveFirst(u.enrolled, EnrolledHasType(c.authType)));
          var (r, db1) := SaveDb(SetUser(db, id, u2), env);
          (r, db1, c)
  }

  /** DeleteUserInfo. Allocating the zero bytes for a user without credentials always fails. */
  function DeleteUserInfo(db: Db, id: i32, malloced: bool, env: SaveEnv): (ResultCode, Db, seq<CredentialInfo>) {
    if !HasUser(db, id) then (RESULT_NOT_FOUND, db, [])
    else
      var cs := UserOf(db, id).credentials;
      if |cs| == 0 || !malloced then (RESULT_NO_MEMORY, db, [])
      else
        var (r, db1) := SaveDb(db.(users := Some(RemoveFirst(db.users.value, UserHasId(id)))), env);
        (r, db1, cs)
  }

  // ----- what every reachable database satisfies -------------------------------------------------

  predicate UserOk(u: User) {
    && |u.credentials| <= MAX_CREDENTIAL
    && |u.enrolled| <= MAX_AUTH_TYPE + 1
    && (forall i, j :: 0 <= i < j < |u.credentials| ==> u.credentials[i].credentialId != u.credentials[j].credentialId)
    && (forall i, j :: 0 <= i < j < |u.credentials| ==>
          !(u.credentials[i].authType == PIN_AUTH && u.credentials[j].authType == PIN_AUTH))
    && (forall i, j :: 0 <= i < j < |u.enrolled| ==> u.enrolled[i].authType != u.enrolled[j].authType)
    && (forall i, j :: 0 <= i < j < |u.enrolled| ==> u.enrolled[i].enrolledId != u.enrolled[j].enrolledId)
    && (forall c :: c in u.credentials ==> IsEnrolled(u.enrolled, c.authType))
  }

  /** At most 1000 users with unique ids and secure uids; per user at most 5 credentials with unique
      ids and one PIN among them, and at most 3 enrolled entries of different types and with different ids
      that cover every type of credential. */
  predicate UsersOk(users: seq<User>) {
    && |users| <= MAX_USER
    && (forall i, j :: 0 <= i < j < |users| ==> users[i].userId != users[j].userId)
    && (forall i, j :: 0 <= i < j < |users| ==> users[i].secUid != users[j].secUid)
    && (forall i :: 0 <= i < |users| ==> UserOk(users[i]))
  }

  lemma FirstIndexIn<T>(s: seq<T>, p: T -> bool)
    ensures FirstIndex(s, p) < |s| <==> exists x :: x in s && p(x)
  {
    var i := FirstIndex(s, p);
    if i < |s| {
      assert s[i] in s && p(s[i]);
    }
  }

  lemma IsEnrolledIn(es: seq<EnrolledInfo>, t: u32)
    ensures IsEnrolled(es, t) <==> exists e :: e in es && e.authType == t
  {
    FirstIndexIn(es, EnrolledHasType(t));
    if e :| e in es && e.authType == t {
      assert EnrolledHasType(t)(e);
    }
  }

  lemma HasTypeIn(cs: seq<CredentialInfo>, t: u32)
    ensures HasType(cs, t) <==> exists c :: c in cs && c.authType == t
  {
    FirstIndexIn(cs, CredentialHasType(t));
    if c :| c in cs && c.authType == t {
      assert CredentialHasType(t)(c);
    }
  }

  lemma FindUserIn(users: seq<User>, id: i32)
    ensures FindUser(users, id) < |users| <==> exists k :: 0 <= k < |users| && users[k].userId == id
  {
    if k :| 0 <= k < |users| && users[k].userId == id {
      assert UserHasId(id)(users[k]);
    }
  }

  /** Refreshing or adding the entry of a type keeps the other entries' types. */
  lemma EnrolledUpdated(es: seq<EnrolledInfo>, t: u32, env: AddEnv)
    requires forall i, j :: 0 <= i < j < |es| ==> es[i].authType != es[j].authType
    ensures var (r, es1) := UpdateEnrolledId(es, t, env);
            && (r != RESULT_SUCCESS ==> es1 == es)
            && |es| <= |es1| <= |es| + 1
            && (forall i, j :: 0 <= i < j < |es1| ==> es1[i].authType != es1[j].authType)
            && (r == RESULT_SUCCESS ==> IsEnrolled(es1, t))
            && (forall s :: IsEnrolled(es1, s) <==> (IsEnrolled(es, s) || (r == RESULT_SUCCESS && s == t)))
  {
    var (r, es1) := UpdateEnrolledId(es, t, env);
    IsEnrolledIn(es, t);
    var i := FirstIndex(es, EnrolledHasType(t));
    forall s ensures IsEnrolled(es1, s) <==> (IsEnrolled(es, s) || (r == RESULT_SUCCESS && s == t)) {
      IsEnrolledIn(es, s);
      IsEnrolledIn(es1, s);
      if r == RESULT_SUCCESS {
        if i < |es| {
          assert es1[i] in es1;
          forall e | e in es && e.authType == s ensures exists x :: x in es1 && x.authType == s {
            var k :| 0 <= k < |es| && es[k] == e;
            assert es1[k] in es1;
          }
          forall e | e in es1 && e.authType == s ensures exists x :: x in es && x.authType == s {
            var k :| 0 <= k < |es1| && es1[k] == e;
            assert es[k] in es;
          }
        } else {
          assert es1 == [es1[0]] + es;
          assert es1[0] in es1;
        }
      }
    }
    if r == RESULT_SUCCESS && i == |es| {
      forall k | 0 <= k < |es| ensures es[k].authType != t {
        assert es[k] in es;
      }
    }
  }

  /** A credential with a new id, whose type is enrolled and which is not a second PIN, can go in front. */
  lemma CredentialAddedOk(u: User, c: CredentialInfo)
    requires UserOk(u) && |u.credentials| < MAX_CREDENTIAL && c.credentialId !in CredentialIds(u.credentials)
    requires IsEnrolled(u.enrolled, c.authType) && (c.authType == PIN_AUTH ==> !HasType(u.credentials, PIN_AUTH))
    ensures UserOk(u.(credentials := [c] + u.credentials))
  {
    HasTypeIn(u.credentials, PIN_AUTH);
    forall k | 0 <= k < |u.credentials|
      ensures u.credentials[k].credentialId != c.credentialId
      ensures !(c.authType == PIN_AUTH && u.credentials[k].authType == PIN_AUTH)
    {
      assert u.credentials[k] in u.credentials;
    }
  }

  /** Entry k is that of the type, with an id no entry had before, its own included; it is new and in front, or it takes
      the place of the entry there was, and the other entries stay. */
  predicate EntryUpdated(es: seq<EnrolledInfo>, es1: seq<EnrolledInfo>, t: u32, k: nat) {
    && k < |es1| && es1[k].authType == t && es1[k].enrolledId !in EnrolledIds(es)
    && if k < |es| && |es1| == |es| then es[k].authType == t && es1 == es[k := es1[k]] else k == 0 && es1[1..] == es
  }

  lemma EnrolledIdFresh(es: seq<EnrolledInfo>, t: u32, env: AddEnv)
    requires UpdateEnrolledId(es, t, env).0 == RESULT_SUCCESS
    ensures exists k: nat :: EntryUpdated(es, UpdateEnrolledId(es, t, env).1, t, k)
  {
    var es1, i := UpdateEnrolledId(es, t, env).1, FirstIndex(es, EnrolledHasType(t));
    var k: nat := if i < |es| then i else 0;
    assert EntryUpdated(es, es1, t, k);
  }

  /** Updating keeps the ids of the entries distinct. */
  lemma EnrolledIdsDistinct(es: seq<EnrolledInfo>, t: u32, env: AddEnv)
    requires forall i, j :: 0 <= i < j < |es| ==> es[i].enrolledId != es[j].enrolledId
    ensures var es1 := UpdateEnrolledId(es, t, env).1;
            forall i, j :: 0 <= i < j < |es1| ==> es1[i].enrolledId != es1[j].enrolledId
  {
    var (r, es1) := UpdateEnrolledId(es, t, env);
    if r == RESULT_SUCCESS {
      EnrolledIdFresh(es, t, env);
      var k: nat :| EntryUpdated(es, es1, t, k);
      forall j | 0 <= j < |es| ensures es[j].enrolledId != es1[k].enrolledId {
        assert es[j] in es;
      }
      if |es1| != |es| {
        assert forall j :: 1 <= j < |es1| ==> es1[j] == es1[1..][j - 1];
      }
    }
  }

  lemma EnrolledUpdatedOk(u: User, t: u32, env: AddEnv)
    requires UserOk(u) && |u.enrolled| <= MAX_AUTH_TYPE
    ensures UserOk(u.(enrolled := UpdateEnrolledId(u.enrolled, t, env).1))
  {
    EnrolledIdsDistinct(u.enrolled, t, env);
    EnrolledUpdated(u.enrolled, t, env);
  }

  lemma AddToUserOk(u: User, c: CredentialInfo, env: AddEnv)
    requires UserOk(u) && (c.authType == PIN_AUTH ==> !HasType(u.credentials, PIN_AUTH))
    ensures var (r, u1, c1) := AddCredentialToUser(u, c, env);
            && UserOk(u1) && u1.userId == u.userId && u1.secUid == u.secUid
            && (r != RESULT_SUCCESS ==> u1.credentials == u.credentials)
            && (r == RESULT_SUCCESS ==> && u1.credentials == [c1] + u.credentials
                                        && c1 == c.(credentialId := c1.credentialId))
  {
    var (r, u1, c1) := AddCredentialToUser(u, c, env);
    if |u.enrolled| <= MAX_AUTH_TYPE {
      EnrolledUpdatedOk(u, c.authType, env);
      EnrolledUpdated(u.enrolled, c.authType, env);
    }
    if r == RESULT_SUCCESS {
      CredentialAddedOk(u1.(credentials := u.credentials), c1);
    }
  }
}
