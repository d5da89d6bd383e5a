/** idm_database.c: the user list with its one-entry cache, changed in place. */
module Database {
  import opened Base
  import opened IdmCommon
  import opened FileManager
  import opened FileLoader
  import opened DatabaseRuns
  import Spec = DatabaseSpec

  class IdmDatabase {
    var inited: bool                  // g_userInfoList is not NULL
    var userInfoList: seq<UserInfo>
    var currentUser: UserInfo?        // g_currentUser
    const fileOperator: FileOperator
    ghost var users: seq<User>        // what the list stands for

    ghost function State(): Spec.Db
      reads this, fileOperator
    {
      Spec.Db(if inited then Some(users) else None, fileOperator.content)
    }

    /** The same, read off the objects of the list. */
    ghost function Listed(): Spec.Db
      reads this, userInfoList, fileOperator
    {
      Spec.Db(if inited then Some(Values(userInfoList)) else None, fileOperator.content)
    }

    /** The cached user, if any, is one of the list. */
    ghost predicate CacheOk()
      reads this
    {
      currentUser != null ==> currentUser in userInfoList
    }

    ghost predicate Valid()
      reads this, userInfoList
    {
      && Distinct(userInfoList) && users == Values(userInfoList)
      && (!inited ==> userInfoList == [])
      && Spec.UsersOk(users)
      && CacheOk()
    }

    /** The first user with the id on a walk through the list. */
    ghost function Scan(id: i32): UserInfo?
      reads this, userInfoList
    {
      var i := Spec.FindUser(Values(userInfoList), id);
      if i < |userInfoList| then userInfoList[i] else null
    }

    /** What QueryUserInfo returns: the cached user if it has the id, else the first of the list. */
    ghost function Cached(id: i32): UserInfo?
      reads this, userInfoList, currentUser
    {
      if currentUser != null && currentUser.userId == id then currentUser else Scan(id)
    }

    /** The cached user after a lookup: the one found, else the one before. */
    ghost function Looked(id: i32): UserInfo?
      reads this, userInfoList
    {
      if Scan(id) != null then Scan(id) else currentUser
    }

    /** ... after at most one lookup. */
    ghost function LookedUp(id: Option<i32>): UserInfo?
      reads this, userInfoList
    {
      if id.Some? then Looked(id.value) else currentUser
    }

    /** The cache is transparent exactly when it is empty or holds a user of the list. */
    lemma CacheTransparentIff()
      requires Spec.UsersOk(Values(userInfoList))
      ensures (forall id :: Cached(id) == Scan(id)) <==> CacheOk()
    {
      if currentUser != null {
        var values := Values(userInfoList);
        if currentUser in userInfoList {
          var k :| 0 <= k < |userInfoList| && userInfoList[k] == currentUser;
          FirstIndexUnique(values, Spec.UserHasId(currentUser.userId), k);
        } else {
          assert Cached(currentUser.userId) != Scan(currentUser.userId);
        }
      }
    }

    constructor (fileOperator: FileOperator)
      ensures Valid() && !inited && currentUser == null && this.fileOperator == fileOperator && fresh(this)
    {
      this.fileOperator := fileOperator;
      inited, userInfoList, currentUser, users := false, [], null, [];
    }

    lemma LoadedOk(file: Option<seq<byte>>, list: seq<User>)
      requires Load(file) == Some(list) && FileOk(file)
      ensures Spec.UsersOk(list)
    {
      LoadOk(file);
    }

    method LoadList() returns (r: ResultCode)
      modifies this
      ensures State() == Spec.Db(Load(old(fileOperator.content)), old(fileOperator.content))
      ensures r == if inited then RESULT_SUCCESS else RESULT_NEED_INIT
      ensures currentUser == old(currentUser) && fresh(userInfoList)
      ensures Distinct(userInfoList) && users == Values(userInfoList) && (!inited ==> userInfoList == [])
    {
      var loaded := LoadFileInfo(fileOperator);
      if loaded.None? {
        inited, userInfoList, users := false, [], [];
        return RESULT_NEED_INIT;
      }
      inited, userInfoList, users := true, loaded.value, Values(loaded.value);
      return RESULT_SUCCESS;
    }

    /** Loads the file. The cache is left alone, so what it held before survives. */
    method InitUserInfoList() returns (r: ResultCode)
      modifies this
      ensures State() == Spec.Db(Load(old(fileOperator.content)), old(fileOperator.content))
      ensures r == if inited then RESULT_SUCCESS else RESULT_NEED_INIT
      ensures currentUser == old(currentUser) && fresh(userInfoList)
      ensures old(currentUser) == null && FileOk(old(fileOperator.content)) ==> Valid()
    {
      ghost var file := fileOperator.content;
      r := LoadList();
      if inited && FileOk(file) {
        LoadedOk(file, users);
      }
    }

    /** Drops the list; the cache still refers to a user of the dropped list. */
    method DestroyUserInfoList()
      modifies this
      ensures State() == old(State()).(users := None) && userInfoList == []
      ensures currentUser == old(currentUser)
      ensures Valid() <==> old(currentUser) == null
    {
      inited, userInfoList, users := false, [], [];
    }

    /** Finds a user through the cache; the answer is that of a plain walk through the list. */
    method QueryUserInfo(userId: i32) returns (user: UserInfo?)
      requires Valid()
      modifies this`currentUser
      ensures Valid() && user == Scan(userId) && currentUser == old(Looked(userId))
    {
      CacheTransparentIff();
      assert Cached(userId) == Scan(userId);
      if currentUser != null && currentUser.userId == userId {
        return currentUser;
      }
      ghost var values := Values(userInfoList);
      var i := 0;
      while i < |userInfoList| && userInfoList[i].userId != userId
        invariant i <= |userInfoList|
        invariant forall j :: 0 <= j < i ==> values[j].userId != userId
      {
        i := i + 1;
      }
      FirstIndexUnique(values, Spec.UserHasId(userId), i);
      if i == |userInfoList| {
        return null;
      }
      currentUser := userInfoList[i];
      return currentUser;
    }

    method GetSecureUid(userId: i32) returns (r: ResultCode, secUid: u64)
      requires Valid()
      modifies this`currentUser
      ensures Valid() && currentUser == old(Looked(userId))
      ensures r == if Spec.HasUser(old(State()), userId) then RESULT_SUCCESS else RESULT_NOT_FOUND
      ensures r == RESULT_SUCCESS ==> secUid == Spec.UserOf(old(State()), userId).secUid
    {
      var user := QueryUserInfo(userId);
      if user == null {
        return RESULT_NOT_FOUND, 0;
      }
      return RESULT_SUCCESS, user.secUid;
    }

    /** Copies the list out; the copy of an empty list cannot be allocated. */
    static method GetAllEnrolledInfoFromUser(user: UserInfo, malloced: bool)
      returns (r: ResultCode, infos: seq<EnrolledInfo>)
      ensures r == if |user.enrolledInfoList| == 0 || !malloced then RESULT_NO_MEMORY else RESULT_SUCCESS
      ensures infos == if r == RESULT_SUCCESS then user.enrolledInfoList else []
    {
      var size := |user.enrolledInfoList|;
      infos := [];
      if size == 0 || !malloced {
        return RESULT_NO_MEMORY, [];
      }
      for num := 0 to size
        invariant infos == user.enrolledInfoList[..num]
      {
        infos := infos + [user.enrolledInfoList[num]];
      }
      return RESULT_SUCCESS, infos;
    }

    method GetEnrolledInfo(userId: i32, malloced: bool) returns (r: ResultCode, infos: seq<EnrolledInfo>)
      requires Valid()
      modifies this`currentUser
      ensures Valid() && currentUser == old(Looked(userId))
      ensures !Spec.HasUser(old(State()), userId) ==> r == RESULT_NOT_FOUND
      ensures Spec.HasUser(old(State()), userId) ==>
                var es := Spec.UserOf(old(State()), userId).enrolled;
                if |es| > 0 && malloced then r == RESULT_SUCCESS && infos == es else r == RESULT_NO_MEMORY
    {
      var user := QueryUserInfo(userId);
      if user == null {
        return RESULT_NOT_FOUND, [];
      }
      r, infos := GetAllEnrolledInfoFromUser(user, malloced);
    }

    method GetEnrolledInfoAuthType(userId: i32, authType: u32) returns (r: ResultCode, info: Option<EnrolledInfo>)
      requires Valid()
      modifies this`currentUser
      ensures Valid() && currentUser == old(Looked(userId))
      ensures r == RESULT_SUCCESS <==>
              && Spec.HasUser(old(State()), userId)
              && Spec.IsEnrolled(Spec.UserOf(old(State()), userId).enrolled, authType)
      ensures r == if info.Some? then RESULT_SUCCESS else RESULT_NOT_FOUND
      ensures info.Some? ==>
                var es := Spec.UserOf(old(State()), userId).enrolled;
                info == Some(es[FirstIndex(es, Spec.EnrolledHasType(authType))])
    {
      var user := QueryUserInfo(userId);
      if user == null {
        return RESULT_NOT_FOUND, None;
      }
      var i := FindFirst(user.enrolledInfoList, Spec.EnrolledHasType(authType));
      if i == |user.enrolledInfoList| {
        return RESULT_NOT_FOUND, None;
      }
      return RESULT_SUCCESS, Some(user.enrolledInfoList[i]);
    }

    /** Copies the list out; the copy of an empty list cannot be allocated. */
    static method GetAllCredentialInfoFromUser(user: UserInfo, malloced: bool)
      returns (r: ResultCode, infos: seq<CredentialInfo>)
      ensures r == if |user.credentialInfoList| == 0 || !malloced then RESULT_NO_MEMORY else RESULT_SUCCESS
      ensures infos == if r == RESULT_SUCCESS then user.credentialInfoList else []
    {
      var size := |user.credentialInfoList|;
      infos := [];
      if size == 0 || !malloced {
        return RESULT_NO_MEMORY, [];
      }
      for num := 0 to size
        invariant infos == user.credentialInfoList[..num]
      {
        infos := infos + [user.credentialInfoList[num]];
      }
      return RESULT_SUCCESS, infos;
    }

    method QueryCredentialInfoAll(userId: i32, malloced: bool) returns (r: ResultCode, infos: seq<CredentialInfo>)
      requires Valid()
      modifies this`currentUser
      ensures Valid() && currentUser == old(Looked(userId))
      ensures !Spec.HasUser(old(State()), userId) ==> r == RESULT_NOT_FOUND
      ensures Spec.HasUser(old(State()), userId) ==>
                var cs := Spec.UserOf(old(State()), userId).credentials;
                if |cs| > 0 && malloced then r == RESULT_SUCCESS && infos == cs else r == RESULT_NO_MEMORY
    {
      var user := QueryUserInfo(userId);
      if user == null {
        return RESULT_NOT_FOUND, [];
      }
      r, infos := GetAllCredentialInfoFromUser(user, malloced);
    }

    /** The first credential of the type; out is what the caller's buffer holds otherwise. */
    method QueryCredentialInfo(userId: i32, authType: u32, out: CredentialInfo)
      returns (r: ResultCode, info: CredentialInfo)
      requires Valid()
      modifies this`currentUser
      ensures Valid() && currentUser == old(Looked(userId))
      ensures (r, info) == Spec.QueryCredentialInfo(old(State()), userId, authType, out)
    {
      var user := QueryUserInfo(userId);
      if user == null {
        return RESULT_NOT_FOUND, out;
      }
      var i := FindFirst(user.credentialInfoList, Spec.CredentialHasType(authType));
      if i == |user.credentialInfoList| {
        return RESULT_NOT_FOUND, out;
      }
      return RESULT_SUCCESS, user.credentialInfoList[i];
    }

    static method UpdateEnrolledId(user: UserInfo, authType: u32, env: Spec.AddEnv) returns (r: ResultCode)
      modifies user`enrolledInfoList
      ensures (r, user.enrolledInfoList) == Spec.UpdateEnrolledId(old(user.enrolledInfoList), authType, env)
    {
      var list := user.enrolledInfoList;
      var i := FindFirst(list, Spec.EnrolledHasType(authType));
      if i == |list| && !env.enrolledMalloced {
        return RESULT_NO_MEMORY;
      }
      var id := GenerateDeduplicateUint64(env.enrolledDraws, Spec.EnrolledIds(list));
      if id.None? {
        return RESULT_GENERAL_ERROR;
      }
      if i < |list| {
        user.enrolledInfoList := list[i := list[i].(enrolledId := id.value)];
        return RESULT_SUCCESS;
      }
      if !env.enrolledInserted {
        return RESULT_NO_MEMORY;
      }
      user.enrolledInfoList := [EnrolledInfo(authType, id.value)] + list;
      return RESULT_SUCCESS;
    }

    static method AddCredentialToUser(user: UserInfo, info: CredentialInfo, env: Spec.AddEnv)
      returns (r: ResultCode, out: CredentialInfo)
      modifies user
      ensures (r, user.Value(), out) == Spec.AddCredentialToUser(old(user.Value()), info, env)
    {
      if |user.enrolledInfoList| > MAX_AUTH_TYPE || |user.credentialInfoList| >= MAX_CREDENTIAL {
        return RESULT_EXCEED_LIMIT, info;
      }
      r := UpdateEnrolledId(user, info.authType, env);
      if r != RESULT_SUCCESS {
        return r, info;
      }
      var id := GenerateDeduplicateUint64(env.credentialDraws, Spec.CredentialIds(user.credentialInfoList));
      if id.None? {
        return RESULT_GENERAL_ERROR, info;
      }
      out := info.(credentialId := id.value);
      if !env.credentialMalloced || !env.credentialInserted {
        return RESULT_NO_MEMORY, out;
      }
      user.credentialInfoList := [out] + user.credentialInfoList;
      return RESULT_SUCCESS, out;
    }

    method Save(env: SaveEnv) returns (r: ResultCode)
      modifies fileOperator
      ensures (r, Listed()) == Spec.SaveDb(old(Listed()), env)
    {
      r := UpdateFileInfo(if inited then Some(userInfoList) else None, fileOperator, env);
    }

    ghost function UidsOf(users: seq<UserInfo>): set<u64>
      reads users
    {
      set u | u in users :: u.secUid
    }

    lemma UidsOfValues(users: seq<UserInfo>)
      ensures UidsOf(users) == Spec.SecUids(Values(users))
    {
      var values := Values(users);
      forall k | 0 <= k < |users|
        ensures users[k].secUid in UidsOf(users) && values[k].secUid in Spec.SecUids(values)
      {
        assert users[k] in users && values[k] in values && values[k].secUid == users[k].secUid;
      }
      forall x ensures x in UidsOf(users) <==> x in Spec.SecUids(values) {
        if x in UidsOf(users) {
          var u :| u in users && u.secUid == x;
          var k :| 0 <= k < |users| && users[k] == u;
          assert values[k].secUid == x;
        }
        if x in Spec.SecUids(values) {
          var v :| v in values && v.secUid == x;
          var k :| 0 <= k < |values| && values[k] == v;
          assert users[k].secUid == x;
        }
      }
    }

    /** A new user, not yet in the list, with a secure uid no user of the list has. */
    method CreateUser(userId: i32, env: Spec.AddEnv) returns (user: UserInfo?)
      ensures var uid := FirstFresh(env.secUidDraws, Spec.SecUids(old(Values(userInfoList))));
              && (user == null <==> !env.userMalloced || uid.None?)
              && (user != null ==> fresh(user) && user.Value() == User(userId, uid.value, [], []))
    {
      if !env.userMalloced {
        return null;
      }
      UidsOfValues(userInfoList);
      var uid := GenerateDeduplicateUint64(env.secUidDraws, set u | u in userInfoList :: u.secUid);
      if uid.None? {
        return null;
      }
      user := new UserInfo();
      user.userId, user.secUid := userId, uid.value;
    }

    method InsertUser(user: UserInfo)
      modifies this`userInfoList
      ensures userInfoList == [user] + old(userInfoList)
      ensures Values(userInfoList) == [user.Value()] + old(Values(userInfoList))
    {
      userInfoList := [user] + userInfoList;
    }

    /** The part of AddUser after its checks: the user is inserted or dropped again. */
    method AddFreshUser(userId: i32, info: CredentialInfo, env: Spec.AddEnv)
      returns (r: ResultCode, out: CredentialInfo)
      modifies this`userInfoList
      ensures (r, Values(userInfoList), out) == Spec.AddFreshUser(old(Values(userInfoList)), userId, info, env)
      ensures userInfoList == old(userInfoList)
              || (|userInfoList| > 0 && fresh(userInfoList[0]) && userInfoList == [userInfoList[0]] + old(userInfoList))
    {
      var user := CreateUser(userId, env);
      if user == null {
        return RESULT_UNKNOWN, info;
      }
      r, out := AddCredentialToUser(user, info, env);
      if r != RESULT_SUCCESS {
        return r, out;
      }
      if !env.userInserted {
        return RESULT_NO_MEMORY, out;
      }
      InsertUser(user);
    }

    /** Refuses a full list and a known id. */
    method AddUser(userId: i32, info: CredentialInfo, env: Spec.AddEnv) returns (r: ResultCode, out: CredentialInfo)
      requires Valid()
      modifies this
      ensures (r, Listed().users, out) == Spec.AddUser(old(State().users), userId, info, env)
      ensures inited == old(inited) && (currentUser == old(currentUser) || currentUser in old(userInfoList))
      ensures old(Scan(userId)) == null ==> currentUser == old(currentUser)
      ensures userInfoList == old(userInfoList)
              || (inited && |userInfoList| > 0 && fresh(userInfoList[0])
                  && userInfoList == [userInfoList[0]] + old(userInfoList))
    {
      r := CheckNewUser(userId);
      if r != RESULT_SUCCESS {
        return r, info;
      }
      r, out := AddFreshUser(userId, info, env);
    }

    /** The checks of AddUser. */
    method CheckNewUser(userId: i32) returns (r: ResultCode)
      requires Valid()
      modifies this`currentUser
      ensures Valid() && (currentUser == old(currentUser) || currentUser in userInfoList)
      ensures old(Scan(userId)) == null ==> currentUser == old(currentUser)
      ensures r == if !inited then RESULT_NEED_INIT
                   else if |users| >= MAX_USER then RESULT_EXCEED_LIMIT
                   else if Spec.FindUser(users, userId) < |users| then RESULT_BAD_PARAM
                   else RESULT_SUCCESS
    {
      if !inited {
        return RESULT_NEED_INIT;
      }
      if |userInfoList| >= MAX_USER {
        return RESULT_EXCEED_LIMIT;
      }
      var known := QueryUserInfo(userId);
      return if known != null then RESULT_BAD_PARAM else RESULT_SUCCESS;
    }

    /** The list is that of Valid(), whatever users says. */
    ghost predicate ListOk()
      reads this, userInfoList
    {
      Distinct(userInfoList) && (!inited ==> userInfoList == []) && CacheOk()
    }

    /** users catches up with the objects of the list. */
    ghost method Settle()
      requires ListOk() && (Listed().users.Some? ==> Spec.UsersOk(Listed().users.value))
      modifies this`users
      ensures Valid() && State() == old(Listed())
    {
      users := Values(userInfoList);
    }

    /** AddCredentialInfo for a user the list does not have: only a PIN is taken, and the result is that of the save. */
    method AddForNewUser(userId: i32, info: CredentialInfo, env: Spec.AddEnv)
      returns (r: ResultCode, out: CredentialInfo)
      requires Valid() && !Spec.HasUser(State(), userId)
      modifies this, fileOperator
      ensures Valid() && currentUser == old(currentUser)
      ensures (r, State(), out) == Spec.AddCredentialInfo(old(State()), userId, info, env)
    {
      AddNew(State(), userId, info, env);
      if info.authType != PIN_AUTH {
        return RESULT_BAD_PARAM, info;
      }
      AddCredentialInfoOk(State(), userId, info, env);
      r, out := AddAndSave(userId, info, env);
      Settle();
    }

    method AddAndSave(userId: i32, info: CredentialInfo, env: Spec.AddEnv) returns (r: ResultCode, out: CredentialInfo)
      requires Valid() && !Spec.HasUser(State(), userId)
      modifies this, fileOperator
      ensures ListOk() && currentUser == old(currentUser)
      ensures var (_, users1, c1) := Spec.AddUser(old(State().users), userId, info, env);
              var saved := Spec.SaveDb(old(State()).(users := users1), env.save);
              (r, Listed(), out) == (saved.0, saved.1, c1)
    {
      r, out := AddUser(userId, info, env);
      r := Save(env.save);
    }

    /** AddCredentialInfo for a user of the list: a second PIN is refused. */
    method AddForListedUser(user: UserInfo, userId: i32, info: CredentialInfo, env: Spec.AddEnv)
      returns (r: ResultCode, out: CredentialInfo)
      requires Valid() && user == Scan(userId) == currentUser
      modifies this, userInfoList, fileOperator
      ensures Valid() && currentUser == user
      ensures (r, State(), out) == Spec.AddCredentialInfo(old(State()), userId, info, env)
    {
      AddCredentialInfoOk(State(), userId, info, env);
      if info.authType == PIN_AUTH {
        r, out := QueryCredentialInfo(userId, PIN_AUTH, info);
        if r != RESULT_NOT_FOUND {
          SecondPin(State(), userId, info, env);
          return RESULT_BAD_PARAM, out;
        }
      }
      AddOne(State(), userId, info, env);
      r, out := AddToListed(user, Spec.FindUser(users, userId), info, env);
      Settle();
    }

    method AddCredentialInfo(userId: i32, info: CredentialInfo, env: Spec.AddEnv)
      returns (r: ResultCode, out: CredentialInfo)
      requires Valid()
      modifies this, userInfoList, fileOperator
      ensures Valid() && currentUser == old(Looked(userId))
      ensures (r, State(), out) == Spec.AddCredentialInfo(old(State()), userId, info, env)
    {
      var user := QueryUserInfo(userId);
      if user == null {
        r, out := AddForNewUser(userId, info, env);
      } else {
        r, out := AddForListedUser(user, userId, info, env);
      }
    }

    /** The credential goes to a user of the list, and the file is written if it was added. */
    method AddToListed(user: UserInfo, ghost k: nat, info: CredentialInfo, env: Spec.AddEnv)
      returns (r: ResultCode, out: CredentialInfo)
      requires inited && Distinct(userInfoList) && k < |userInfoList| && userInfoList[k] == user
      modifies user, fileOperator
      ensures var (r1, u1, c1) := Spec.AddCredentialToUser(old(user.Value()), info, env);
              var db1 := old(Listed()).(users := Some(old(Values(userInfoList))[k := u1]));
              (r, Listed(), out) == if r1 != RESULT_SUCCESS then (r1, db1, c1)
                                   else (Spec.SaveDb(db1, env.save).0, Spec.SaveDb(db1, env.save).1, c1)
    {
      ghost var values := Values(userInfoList);
      r, out := AddCredentialToUser(user, info, env);
      assert Values(userInfoList) == values[k := user.Value()];
      if r != RESULT_SUCCESS {
        return r, out;
      }
      r := Save(env.save);
    }

    method DeleteCredentialInfo(userId: i32, credentialId: u64, info: CredentialInfo, env: SaveEnv)
      returns (r: ResultCode, out: CredentialInfo)
      requires Valid()
      modifies this, userInfoList, fileOperator
      ensures Valid() && userInfoList == old(userInfoList) && currentUser == old(Looked(userId)) == Looked(userId)
      ensures (r, State(), out) == Spec.DeleteCredentialInfo(old(State()), userId, credentialId, info, env)
    {
      var user := QueryUserInfo(userId);
      if user == null {
        return RESULT_BAD_PARAM, info;
      }
      r, out := DeleteForListedUser(user, userId, credentialId, info, env);
      FoundAgain(user, userId);
    }

    lemma FoundAgain(user: UserInfo, userId: i32)
      requires Valid() && user in userInfoList && user.userId == userId
      ensures Scan(userId) == user
    {
      var k :| 0 <= k < |userInfoList| && userInfoList[k] == user;
      assert Values(userInfoList)[k] == user.Value();
      FirstIndexUnique(Values(userInfoList), Spec.UserHasId(userId), k);
    }

    /** DeleteCredentialInfo for a user of the list. */
    method DeleteForListedUser(user: UserInfo, userId: i32, credentialId: u64, info: CredentialInfo, env: SaveEnv)
      returns (r: ResultCode, out: CredentialInfo)
      requires Valid() && user == Scan(userId)
      modifies this`users, user`credentialInfoList, user`enrolledInfoList, fileOperator
      ensures Valid()
      ensures (r, State(), out) == Spec.DeleteCredentialInfo(old(State()), userId, credentialId, info, env)
    {
      DeleteCredentialInfoOk(State(), userId, credentialId, info, env);
      var i := FindFirst(user.credentialInfoList, Spec.CredentialHasId(credentialId));
      if i == |user.credentialInfoList| {
        return RESULT_UNKNOWN, info;
      }
      out := user.credentialInfoList[i];
      r := DeleteFromListed(user, Spec.FindUser(users, userId), credentialId, out.authType, env);
      Settle();
    }

    /** Removes the credential, and with the last one of the type the enrolled entry. */
    method DeleteFromListed(user: UserInfo, ghost k: nat, credentialId: u64, authType: u32, env: SaveEnv)
      returns (r: ResultCode)
      requires inited && Distinct(userInfoList) && k < |userInfoList| && userInfoList[k] == user
      modifies user`credentialInfoList, user`enrolledInfoList, fileOperator
      ensures var u := old(user.Value());
              var u1 := u.(credentials := RemoveFirst(u.credentials, Spec.CredentialHasId(credentialId)));
              var u2 := u1.(enrolled := RemoveFirst(u.enrolled, Spec.EnrolledHasType(authType)));
              if Spec.HasType(u1.credentials, authType) || !Spec.IsEnrolled(u.enrolled, authType) then
                && r == (if Spec.HasType(u1.credentials, authType) then RESULT_SUCCESS else RESULT_NOT_FOUND)
                && Listed() == old(Listed()).(users := Some(old(Values(userInfoList))[k := u1]))
              else
                (r, Listed()) == Spec.SaveDb(old(Listed()).(users := Some(old(Values(userInfoList))[k := u2])), env)
    {
      ghost var values, u := Values(userInfoList), user.Value();
      user.credentialInfoList := RemoveFirst(user.credentialInfoList, Spec.CredentialHasId(credentialId));
      ghost var u1 := u.(credentials := RemoveFirst(u.credentials, Spec.CredentialHasId(credentialId)));
      assert user.Value() == u1;
      assert Values(userInfoList) == values[k := u1];
      var other := FindFirst(user.credentialInfoList, Spec.CredentialHasType(authType));
      assert Values(userInfoList) == values[k := u1];
      if other < |user.credentialInfoList| {
        return RESULT_SUCCESS;
      }
      var e := FindFirst(user.enrolledInfoList, Spec.EnrolledHasType(authType));
      if e == |user.enrolledInfoList| {
        return RESULT_NOT_FOUND;
      }
      user.enrolledInfoList := RemoveFirst(user.enrolledInfoList, Spec.EnrolledHasType(authType));
      ghost var u2 := u1.(enrolled := RemoveFirst(u.enrolled, Spec.EnrolledHasType(authType)));
      assert user.Value() == u2;
      assert Values(userInfoList) == values[k := u2];
      r := Save(env);
    }

    /** Unlinks the first user with the id. */
    method DeleteUser(userId: i32)
      requires Spec.FindUser(Values(userInfoList), userId) < |userInfoList| && Distinct(userInfoList)
      modifies this`userInfoList
      ensures Values(userInfoList) == RemoveFirst(old(Values(userInfoList)), Spec.UserHasId(userId))
      ensures Distinct(userInfoList)
    {
      ghost var values := Values(userInfoList);
      ghost var k := Spec.FindUser(values, userId);
      var i := 0;
      while userInfoList[i].userId != userId
        invariant 0 <= i <= k
        decreases k - i
      {
        assert Spec.UserHasId(userId)(values[k]) && values[i].userId != userId;
        i := i + 1;
      }
      assert Spec.UserHasId(userId)(values[i]);
      RemoveFirstAt(values, Spec.UserHasId(userId));
      Unlink(i);
    }

    method Unlink(i: nat)
      requires i < |userInfoList| && Distinct(userInfoList)
      modifies this`userInfoList
      ensures Values(userInfoList) == old(Values(userInfoList))[..i] + old(Values(userInfoList))[i + 1..]
      ensures Distinct(userInfoList)
    {
      userInfoList := userInfoList[..i] + userInfoList[i + 1..];
    }

    /** Empties the cache, takes the user off the list and saves. */
    method RemoveUser(userId: i32, env: SaveEnv) returns (r: ResultCode)
      requires Valid() && Spec.HasUser(State(), userId)
      modifies this, fileOperator
      ensures Valid() && currentUser == null
      ensures (r, State()) ==
              old(Spec.SaveDb(State().(users := Some(RemoveFirst(State().users.value, Spec.UserHasId(userId)))), env))
    {
      UserRemovedOk(users, userId);
      currentUser := null;
      DeleteUser(userId);
      r := Save(env);
      Settle();
    }

    /** DeleteUserInfo for a user of the list that was just looked up. */
    method DeleteListedUser(user: UserInfo, userId: i32, malloced: bool, env: SaveEnv)
      returns (r: ResultCode, infos: seq<CredentialInfo>)
      requires Valid() && user == Scan(userId) == currentUser
      modifies this, fileOperator
      ensures Valid() && currentUser == if infos == [] then user else null
      ensures (r, State(), infos) == Spec.DeleteUserInfo(old(State()), userId, malloced, env)
    {
      r, infos := GetAllCredentialInfoFromUser(user, malloced);
      if r != RESULT_SUCCESS {
        return r, infos;
      }
      r := RemoveUser(userId, env);
    }

    /** The cache is emptied before the user goes, so it never refers to a deleted user. */
    method DeleteUserInfo(userId: i32, malloced: bool, env: SaveEnv)
      returns (r: ResultCode, infos: seq<CredentialInfo>)
      requires Valid()
      modifies this, fileOperator
      ensures Valid() && currentUser == if infos == [] then old(Looked(userId)) else null
      ensures (r, State(), infos) == Spec.DeleteUserInfo(old(State()), userId, malloced, env)
    {
      var user := QueryUserInfo(userId);
      if user == null {
        return RESULT_NOT_FOUND, [];
      }
      r, infos := DeleteListedUser(user, userId, malloced, env);
    }
  }
}
