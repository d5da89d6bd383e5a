/** Over any run of calls: when exactly a lookup through the cache finds what a walk through the list would. */
module HalCache {
  import opened Base
  import opened IdmCommon
  import opened CoAuth
  import opened UserIdmSpec
  import opened HalState
  import opened DatabaseSpec
  import opened FileManager
  import DatabaseRuns
  import UserDeletion
  import opened Traces

  // ----- the cached user stays in the list -------------------------------------------------------

  lemma UserIn(db: Db, id: i32)
    ensures HasUser(db, id) <==>
            db.users.Some? && exists k :: 0 <= k < |db.users.value| && db.users.value[k].userId == id
  {
    if db.users.Some? {
      FindUserIn(db.users.value, id);
    }
  }

  lemma UserStaysSet(db: Db, other: i32, u: User, id: i32)
    requires HasUser(db, id) && HasUser(db, other) && u.userId == other
    ensures HasUser(SetUser(db, other, u), id)
  {
    var users, k, j := db.users.value, FindUser(db.users.value, id), FindUser(db.users.value, other);
    var after := users[j := u];
    assert after[k].userId == id;
    UserIn(SetUser(db, other, u), id);
  }

  lemma UserStaysPrepended(db: Db, u: User, id: i32)
    requires HasUser(db, id)
    ensures HasUser(db.(users := Some([u] + db.users.value)), id)
  {
    var after := [u] + db.users.value;
    assert after[FindUser(db.users.value, id) + 1].userId == id;
    UserIn(db.(users := Some([u] + db.users.value)), id);
  }

  lemma SameUsers(db: Db, db1: Db, id: i32)
    requires db.users == db1.users
    ensures HasUser(db, id) <==> HasUser(db1, id)
  {}

  lemma UserStaysOnAdd(db: Db, other: i32, c: CredentialInfo, env: AddEnv, id: i32)
    requires DatabaseRuns.DbOk(db) && HasUser(db, id)
    ensures HasUser(AddCredentialInfo(db, other, c, env).1, id)
  {
    var db1 := AddCredentialInfo(db, other, c, env).1;
    if HasUser(db, other) {
      var u1 := AddCredentialToUser(UserOf(db, other), c, env).1;
      DatabaseRuns.AddedUsers(db, other, c, env);
      UserStaysSet(db, other, u1, id);
      if db1.users == db.users {
        SameUsers(db, db1, id);
      } else {
        SameUsers(SetUser(db, other, u1), db1, id);
      }
    } else {
      DatabaseRuns.FreshUsers(db, other, c, env);
      if db1.users == db.users {
        SameUsers(db, db1, id);
      } else {
        UserStaysPrepended(db, db1.users.value[0], id);
        SameUsers(db.(users := Some([db1.users.value[0]] + db.users.value)), db1, id);
      }
    }
  }

  lemma UserStaysOnDelete(db: Db, other: i32, credentialId: u64, out: CredentialInfo, env: SaveEnv, id: i32)
    requires DatabaseRuns.DbOk(db) && HasUser(db, id)
    ensures HasUser(DeleteCredentialInfo(db, other, credentialId, out, env).1, id)
  {
    DatabaseRuns.DeleteCredentialInfoOk(db, other, credentialId, out, env);
    if HasUser(db, other) {
      var u1 := DatabaseRuns.UserAfterDelete(UserOf(db, other), credentialId);
      UserStaysSet(db, other, u1, id);
      SameUsers(SetUser(db, other, u1), DeleteCredentialInfo(db, other, credentialId, out, env).1, id);
    }
  }

  lemma ReplaceKeeps(db: Db, userId: i32, c: CredentialInfo, out: CredentialInfo, deleteEnv: SaveEnv, env: AddEnv)
    requires DatabaseRuns.DbOk(db)
    ensures var db1 := ReplacePin(db, userId, c, out, deleteEnv, env).1;
            DatabaseRuns.DbOk(db1) && forall id :: HasUser(db, id) ==> HasUser(db1, id)
  {
    var (queried, old1) := QueryCredentialInfo(db, userId, PIN_AUTH, out);
    if queried == RESULT_SUCCESS {
      DatabaseRuns.StepOk(db, DatabaseRuns.Delete(userId, old1.credentialId, deleteEnv));
      DatabaseRuns.OutIrrelevant(db, userId, old1.credentialId, old1, deleteEnv);
      var (deleted, db1, _) := DeleteCredentialInfo(db, userId, old1.credentialId, old1, deleteEnv);
      DatabaseRuns.StepOk(db1, DatabaseRuns.Add(userId, c, env));
      forall id | HasUser(db, id) ensures HasUser(db1, id) && HasUser(AddCredentialInfo(db1, userId, c, env).1, id) {
        UserStaysOnDelete(db, userId, old1.credentialId, old1, deleteEnv, id);
        UserStaysOnAdd(db1, userId, c, env, id);
      }
    }
  }

  /** The call neither ends the list nor deletes a user. */
  predicate KeepsUsers(h: Hal, c: Call) {
    && !c.Restart? && !c.Init? && !c.Close?
    && !(c.DeleteUserEnforce? && HasUser(h.db, c.userId) && |UserOf(h.db, c.userId).credentials| > 0 && c.malloced)
  }

  lemma AddCallKeeps(h: Hal, c: Call)
    requires DatabaseRuns.DbOk(h.db) && c.AddCredentialCall?
    ensures var db1 := Step(h, c).db; DatabaseRuns.DbOk(db1) && forall id :: HasUser(h.db, id) ==> HasUser(db1, id)
  {
    if CheckScheduleToken(h.session, c.token, c.check) == RESULT_SUCCESS {
      var userId, credential := h.session.value.userId, CredentialFrom(c.token);
      DatabaseRuns.StepOk(h.db, DatabaseRuns.Add(userId, credential, c.addEnv));
      forall id | HasUser(h.db, id) ensures HasUser(AddCredentialInfo(h.db, userId, credential, c.addEnv).1, id) {
        UserStaysOnAdd(h.db, userId, credential, c.addEnv, id);
      }
    }
  }

  lemma UpdateCallKeeps(h: Hal, c: Call)
    requires DatabaseRuns.DbOk(h.db) && c.UpdateCredentialCall?
    ensures var db1 := Step(h, c).db; DatabaseRuns.DbOk(db1) && forall id :: HasUser(h.db, id) ==> HasUser(db1, id)
  {
    if c.token.authType == PIN_AUTH && CheckScheduleToken(h.session, c.token, c.check) == RESULT_SUCCESS {
      ReplaceKeeps(h.db, h.session.value.userId, CredentialFrom(c.token), DatabaseRuns.NO_CREDENTIAL, c.saveEnv,
                   c.addEnv);
    }
  }

  lemma DeleteCallKeeps(h: Hal, c: Call)
    requires DatabaseRuns.DbOk(h.db) && c.DeleteCredentialCall?
    ensures var db1 := Step(h, c).db; DatabaseRuns.DbOk(db1) && forall id :: HasUser(h.db, id) ==> HasUser(db1, id)
  {
    if UserTokenAccepted(h.session, c.userToken, c.deleteCheck) {
      DatabaseRuns.StepOk(h.db, DatabaseRuns.Delete(c.userId, c.credentialId, c.saveEnv));
      forall id | HasUser(h.db, id)
        ensures HasUser(DeleteCredentialInfo(h.db, c.userId, c.credentialId, DatabaseRuns.NO_CREDENTIAL, c.saveEnv).1,
                        id)
      {
        UserStaysOnDelete(h.db, c.userId, c.credentialId, DatabaseRuns.NO_CREDENTIAL, c.saveEnv, id);
      }
    }
  }

  lemma DeleteUserCallKeeps(h: Hal, c: Call)
    requires DatabaseRuns.DbOk(h.db) && c.DeleteUserEnforce?
    ensures var db1 := Step(h, c).db;
            DatabaseRuns.DbOk(db1) && (KeepsUsers(h, c) ==> forall id :: HasUser(h.db, id) ==> HasUser(db1, id))
  {
    DatabaseRuns.StepOk(h.db, DatabaseRuns.DeleteUser(c.userId, c.malloced, c.saveEnv));
    if h.db.users.Some? {
      UserDeletion.DeleteUserInfoIff(h.db, c.userId, c.malloced, c.saveEnv);
    }
  }

  lemma OtherCallKeeps(h: Hal, c: Call)
    requires !c.Restart? && !c.Init? && !c.Close? && !c.AddCredentialCall? && !c.UpdateCredentialCall?
    requires !c.DeleteCredentialCall? && !c.DeleteUserEnforce?
    ensures Step(h, c).db == h.db
  {}

  lemma EndCallOk(h: Hal, c: Call)
    requires DatabaseRuns.DbOk(h.db) && (c.Restart? || c.Init? || c.Close?)
    ensures DatabaseRuns.DbOk(Step(h, c).db)
  {
    if c.Init? {
      DatabaseRuns.StepOk(h.db, DatabaseRuns.Reload);
      InitReloads(h);
    }
  }

  lemma InitReloads(h: Hal)
    ensures Step(h, Init).db == DatabaseRuns.Step(h.db, DatabaseRuns.Reload)
  {}

  /** Every call keeps the database well formed; only ending the list or deleting a user takes a user away. */
  lemma CallKeeps(h: Hal, c: Call)
    requires DatabaseRuns.DbOk(h.db)
    ensures DatabaseRuns.DbOk(Step(h, c).db)
    ensures KeepsUsers(h, c) ==> forall id :: HasUser(h.db, id) ==> HasUser(Step(h, c).db, id)
  {
    if c.Restart? || c.Init? || c.Close? {
      EndCallOk(h, c);
    } else if c.AddCredentialCall? {
      AddCallKeeps(h, c);
    } else if c.UpdateCredentialCall? {
      UpdateCallKeeps(h, c);
    } else if c.DeleteCredentialCall? {
      DeleteCallKeeps(h, c);
    } else if c.DeleteUserEnforce? {
      DeleteUserCallKeeps(h, c);
    } else {
      OtherCallKeeps(h, c);
    }
  }

  // ----- transparency ----------------------------------------------------------------------------

  /** Every lookup through the cache finds what a walk through the list would. */
  ghost predicate Transparent(h: Hal) {
    forall id :: ThroughCache(h, id) == Walk(h, id)
  }

  /** ... which holds exactly while nothing is cached or a user of the present list is. */
  lemma TransparentIff(h: Hal)
    ensures Transparent(h) <==>
            (h.cached.Some? ==> h.cached.value.list == h.lists && HasUser(h.db, h.cached.value.userId))
  {
    if h.cached.Some? {
      assert ThroughCache(h, h.cached.value.userId) == h.cached;
    }
  }

  /** What a call does to the cache: the users of another list are not those of this one. */
  lemma CacheStep(h: Hal, c: Call, h1: Hal)
    requires Transparent(h) && h1 == Step(h, c)
    ensures EndsList(c) ==> h1.cached == h.cached && h1.lists == h.lists + 1
    ensures Forgets(h, c) ==> h1.cached.None?
    ensures !EndsList(c) && !Forgets(h, c) ==>
              KeepsUsers(h, c) && h1.lists == h.lists
              && (h1.cached.Some? ==> h1.cached.value.list == h.lists && HasUser(h.db, h1.cached.value.userId))
  {
    TransparentIff(h);
  }

  lemma UsersStep(h: Hal, c: Call, h1: Hal)
    requires DatabaseRuns.DbOk(h.db) && h1 == Step(h, c)
    ensures DatabaseRuns.DbOk(h1.db)
    ensures KeepsUsers(h, c) ==> forall id :: HasUser(h.db, id) ==> HasUser(h1.db, id)
  {
    CallKeeps(h, c);
  }

  /** One call keeps the cache transparent unless it ends the list while a user is cached. */
  lemma StepTransparentIff(h: Hal, c: Call, h1: Hal)
    requires DatabaseRuns.DbOk(h.db) && Transparent(h) && h1 == Step(h, c)
    ensures DatabaseRuns.DbOk(h1.db)
    ensures Transparent(h1) <==> MeetsEmptyCache(h, c)
  {
    UsersStep(h, c, h1);
    CacheStep(h, c, h1);
    TransparentIff(h);
    TransparentIff(h1);
  }

  // ----- runs ------------------------------------------------------------------------------------

  /** Every state of the run has a transparent cache. */
  ghost predicate TransparentThroughout(h: Hal, calls: seq<Call>) {
    forall k :: 0 <= k <= |calls| ==> Transparent(States(Step, h, calls)[k])
  }

  /** A run ends in the last of its states. */
  lemma {:induction false} RunEnds(h: Hal, log: History, calls: seq<Call>)
    ensures Run(h, log, calls).0 == States(Step, h, calls)[|calls|]
    decreases |calls|
  {
    if |calls| > 0 {
      RunEnds(Step(h, calls[0]), Record(h, log, calls[0]), calls[1..]);
    }
  }

  lemma {:induction false} EmptyCacheRunIff(h: Hal, calls: seq<Call>)
    ensures EmptyCacheRun(h, calls) <==>
            forall k :: 0 <= k < |calls| ==> MeetsEmptyCache(States(Step, h, calls)[k], calls[k])
    decreases |calls|
  {
    if |calls| > 0 {
      var t, rest, t1 := States(Step, h, calls), calls[1..], States(Step, Step(h, calls[0]), calls[1..]);
      EmptyCacheRunIff(Step(h, calls[0]), rest);
      assert forall k :: 0 <= k < |rest| ==> t1[k] == t[k + 1] && rest[k] == calls[k + 1];
      assert forall k :: 1 <= k < |calls| ==> t[k] == t1[k - 1] && calls[k] == rest[k - 1];
    }
  }

  lemma {:induction false} DbStaysOk(h: Hal, calls: seq<Call>, k: nat)
    requires k <= |calls| && DatabaseRuns.DbOk(h.db)
    ensures DatabaseRuns.DbOk(States(Step, h, calls)[k].db)
  {
    if k > 0 {
      DbStaysOk(h, calls, k - 1);
      StatesLinked(Step, h, calls, k - 1);
      CallKeeps(States(Step, h, calls)[k - 1], calls[k - 1]);
    }
  }

  /** The cache is transparent in every state of a run exactly when each Init and Close meets an empty cache. */
  lemma RunTransparentIff(h: Hal, calls: seq<Call>)
    requires DatabaseRuns.DbOk(h.db) && Transparent(h)
    ensures TransparentThroughout(h, calls) <==> EmptyCacheRun(h, calls)
  {
    var t := States(Step, h, calls);
    EmptyCacheRunIff(h, calls);
    forall k | 0 <= k < |calls| && Transparent(t[k])
      ensures Transparent(t[k + 1]) <==> MeetsEmptyCache(t[k], calls[k])
    {
      DbStaysOk(h, calls, k);
      StatesLinked(Step, h, calls, k);
      StepTransparentIff(t[k], calls[k], t[k + 1]);
    }
    GoodUpTo(t, calls, Transparent, MeetsEmptyCache, |calls|);
  }

  // ----- ... and in terms of what the calls did --------------------------------------------------

  /** The call finds the user it looks up in the list. */
  predicate Finds(h: Hal, c: Call) {
    LookedUp(h, c).Some? && HasUser(h.db, LookedUp(h, c).value)
  }

  predicate HasCached(h: Hal) {
    h.cached.Some?
  }

  /** A call leaves a user cached if it finds one, or leaves the cache alone. */
  lemma CachedByCall(h: Hal, c: Call, h1: Hal)
    requires Transparent(h) && h1 == Step(h, c)
    ensures IsFlagAt(h, c, h1, HasCached, Finds, Forgets)
  {}

  lemma TransparentUnlessEnded(t: seq<Hal>, calls: seq<Call>)
    requires t == States(Step, START, calls)
    ensures (forall k :: 0 <= k < |t| ==> Transparent(t[k])) <==>
            !exists i, j :: EndsAfter(t, calls, EndsList, Finds, Forgets, i, j)
  {
    StepsFromTransparent(t, calls);
    GoodThroughoutIff(t, calls, Transparent, HasCached, EndsList, Finds, Forgets);
  }

  /** From the start, lookups through the cache find what walks would, in every state of a run, if and only if no
      Init or Close follows a lookup that found its user without a new start or a deletion of a user in between. */
  lemma CacheTransparentIff(calls: seq<Call>)
    ensures TransparentThroughout(START, calls) <==>
            !exists i, j :: EndsAfter(States(Step, START, calls), calls, EndsList, Finds, Forgets, i, j)
    ensures TransparentThroughout(START, calls) <==> EmptyCacheRun(START, calls)
  {
    TransparentUnlessEnded(States(Step, START, calls), calls);
    RunTransparentIff(START, calls);
  }

  lemma StepSpoils(h: Hal, c: Call, h1: Hal)
    requires DatabaseRuns.DbOk(h.db) && Transparent(h) && h1 == Step(h, c)
    ensures SpoilsAt(h, c, h1, Transparent, HasCached, EndsList)
    ensures IsFlagAt(h, c, h1, HasCached, Finds, Forgets)
  {
    StepTransparentIff(h, c, h1);
    CachedByCall(h, c, h1);
  }

  lemma StepFromTransparent(t: seq<Hal>, calls: seq<Call>, n: nat)
    requires n < |calls| && t == States(Step, START, calls) && Transparent(t[n])
    ensures SpoilsAt(t[n], calls[n], t[n + 1], Transparent, HasCached, EndsList)
    ensures IsFlagAt(t[n], calls[n], t[n + 1], HasCached, Finds, Forgets)
  {
    DbStaysOk(START, calls, n);
    StatesLinked(Step, START, calls, n);
    StepSpoils(t[n], calls[n], t[n + 1]);
  }

  lemma StepsFromTransparent(t: seq<Hal>, calls: seq<Call>)
    requires t == States(Step, START, calls)
    ensures FlagSpoils(t, calls, Transparent, HasCached, EndsList)
    ensures forall n {:trigger calls[n]} :: 0 <= n < |calls| && Transparent(t[n]) ==>
              IsFlagAt(t[n], calls[n], t[n + 1], HasCached, Finds, Forgets)
  {
    forall n | 0 <= n < |calls| && Transparent(t[n])
      ensures SpoilsAt(t[n], calls[n], t[n + 1], Transparent, HasCached, EndsList)
    {
      StepFromTransparent(t, calls, n);
    }
    forall n | 0 <= n < |calls| && Transparent(t[n])
      ensures IsFlagAt(t[n], calls[n], t[n + 1], HasCached, Finds, Forgets)
    {
      StepFromTransparent(t, calls, n);
    }
  }
}
