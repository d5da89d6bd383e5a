/** auth_level.c: the trust level of an authentication, and how registrations move it. */
module AuthLevel {
  import opened Base
  import opened IdmCommon
  import opened LinkedLists
  import opened Pool
  import opened DatabaseSpec
  import Database

  const MAX_ASL: u32 := 4

  datatype AtlGeneration = AtlGeneration(atl: u32, acl: u32, asl: u32)

  const GENERATION_ATL: seq<AtlGeneration> := [
    AtlGeneration(40000, 3, 2), AtlGeneration(30000, 2, 2), AtlGeneration(20000, 2, 1),
    AtlGeneration(20000, 1, 2), AtlGeneration(10000, 1, 0), AtlGeneration(0, 0, 0)]

  function Min(a: u32, b: u32): u32 {
    if a > b then b else a
  }

  /** The weakest security level among executors, at most MAX_ASL. */
  function WeakestEsl(es: seq<ExecutorInfo>): u32 {
    if |es| == 0 then MAX_ASL else Min(WeakestEsl(es[1..]), es[0].esl)
  }

  /** GetAsl: fails without a pool or without an executor of the type. */
  function Asl(pool: Option<seq<ExecutorInfo>>, authType: u32): Option<u32> {
    if pool.None? || OfAuthType(pool.value, authType) == [] then None
    else Some(WeakestEsl(OfAuthType(pool.value, authType)))
  }

  /** GetAcl: the level of the user's credential of the type. */
  function Acl(db: Db, userId: i32, authType: u32): Option<u32> {
    if HasUser(db, userId) && HasType(UserOf(db, userId).credentials, authType) then
      var cs := UserOf(db, userId).credentials;
      Some(cs[FirstIndex(cs, CredentialHasType(authType))].capabilityLevel)
    else None
  }

  predicate Satisfied(row: AtlGeneration, asl: u32, acl: u32) {
    asl >= row.asl && acl >= row.acl
  }

  function Search(rows: seq<AtlGeneration>, asl: u32, acl: u32): Option<u32> {
    if |rows| == 0 then None
    else if Satisfied(rows[0], asl, acl) then Some(rows[0].atl)
    else Search(rows[1..], asl, acl)
  }

  /** SingleAuthTrustLevel: no level without an executor or without a credential. */
  function TrustLevel(pool: Option<seq<ExecutorInfo>>, db: Db, userId: i32, authType: u32): Option<u32> {
    Trust(Asl(pool, authType), Acl(db, userId, authType))
  }

  function Trust(asl: Option<u32>, acl: Option<u32>): Option<u32> {
    if asl.None? || acl.None? then None else Search(GENERATION_ATL, asl.value, acl.value)
  }

  method GetAsl(pool: ResourcePool, authType: u32) returns (asl: Option<u32>)
    requires pool.Valid()
    ensures asl == Asl(pool.Executors(), authType)
  {
    var result := pool.QueryExecutor(authType);
    if result.None? {
      return None;
    }
    var list := result.value;
    WeakestReversed(OfAuthType(pool.Executors().value, authType));
    if list.size == 0 {
      return None;
    }
    var weakest := Weakest(list);
    return Some(weakest);
  }

  method Weakest(list: LinkedList<ExecutorInfo>) returns (asl: u32)
    requires list.Valid()
    ensures asl == WeakestEsl(Reverse(list.contents))
  {
    asl := MAX_ASL;
    ghost var s := list.contents;
    var temp := list.head;
    ghost var i := 0;
    while temp != null
      invariant 0 <= i <= |s| && temp == At(list.nodes, i) && asl == WeakestEsl(Reverse(s[..i]))
      decreases |s| - i
    {
      assert s[..i + 1] == s[..i] + [s[i]];
      WeakestStep(s[..i], s[i]);
      asl := if asl > temp.data.esl then temp.data.esl else asl;
      assert list.nodes[i].next == At(list.nodes, i + 1);
      temp := temp.next;
      i := i + 1;
    }
    assert s[..i] == s;
  }

  lemma WeakestStep(s: seq<ExecutorInfo>, e: ExecutorInfo)
    ensures WeakestEsl(Reverse(s + [e])) == Min(WeakestEsl(Reverse(s)), e.esl)
  {
    ReverseAppend(s, [e]);
    assert [e][1..] == [] && Reverse([e]) == [e];
    assert ([e] + Reverse(s))[1..] == Reverse(s);
  }

  /** The table of trust levels is searched from the highest row down. */
  method SearchTable(asl: u32, acl: u32) returns (atl: Option<u32>)
    ensures atl == Search(GENERATION_ATL, asl, acl)
  {
    var i := 0;
    assert GENERATION_ATL[0..] == GENERATION_ATL;
    while i < |GENERATION_ATL|
      invariant 0 <= i <= |GENERATION_ATL|
      invariant Search(GENERATION_ATL, asl, acl) == Search(GENERATION_ATL[i..], asl, acl)
    {
      if Satisfied(GENERATION_ATL[i], asl, acl) {
        return Some(GENERATION_ATL[i].atl);
      }
      assert GENERATION_ATL[i..][1..] == GENERATION_ATL[i + 1..];
      i := i + 1;
    }
    return None;
  }

  /** The user SingleAuthTrustLevel looks up: none when no executor has the type. */
  function TrustLookup(pool: Option<seq<ExecutorInfo>>, userId: i32, t: u32): Option<i32> {
    if Asl(pool, t).Some? then Some(userId) else None
  }

  method SingleAuthTrustLevel(pool: ResourcePool, db: Database.IdmDatabase, userId: i32, authType: u32)
    returns (atl: Option<u32>)
    requires pool.Valid() && db.Valid()
    modifies db`currentUser
    ensures db.Valid() && atl == TrustLevel(pool.Executors(), old(db.State()), userId, authType)
    ensures db.currentUser == old(db.LookedUp(TrustLookup(pool.Executors(), userId, authType)))
  {
    var asl := GetAsl(pool, authType);
    if asl.None? {
      return None;
    }
    var r, credential := db.QueryCredentialInfo(userId, authType, CredentialInfo(0, 0, 0, 0, 0));
    if r != RESULT_SUCCESS {
      return None;
    }
    atl := SearchTable(asl.value, credential.capabilityLevel);
  }

  // ----- what the levels are ---------------------------------------------------------------------

  lemma {:induction false} OfAuthTypeIn(pool: seq<ExecutorInfo>, t: u32, e: ExecutorInfo)
    ensures e in OfAuthType(pool, t) <==> e in pool && e.authType == t
  {
    if |pool| > 0 {
      OfAuthTypeIn(pool[1..], t, e);
      assert e in pool <==> e == pool[0] || e in pool[1..];
    }
  }

  /** WeakestEsl is the minimum of MAX_ASL and the levels, whatever their order. */
  lemma {:induction false} WeakestIsMinimum(es: seq<ExecutorInfo>, m: u32)
    ensures WeakestEsl(es) == m <==>
            && m <= MAX_ASL && (forall e :: e in es ==> m <= e.esl)
            && (m == MAX_ASL || exists e :: e in es && e.esl == m)
  {
    if |es| > 0 {
      var w := WeakestEsl(es[1..]);
      WeakestIsMinimum(es[1..], w);
      assert forall e :: e in es <==> e == es[0] || e in es[1..];
      assert es[0] in es;
    }
  }

  lemma WeakestReversed(es: seq<ExecutorInfo>)
    ensures WeakestEsl(Reverse(Reverse(es))) == WeakestEsl(es)
    ensures |Reverse(es)| == 0 <==> es == []
  {
    ReverseTwice(es);
  }

  /** GetAsl is the least of MAX_ASL and the levels of the executors of the type, if there is one. */
  lemma AslIff(pool: seq<ExecutorInfo>, t: u32, m: u32)
    ensures Asl(Some(pool), t) == Some(m) <==>
            && (exists e :: e in pool && e.authType == t)
            && m <= MAX_ASL && (forall e :: e in pool && e.authType == t ==> m <= e.esl)
            && (m == MAX_ASL || exists e :: e in pool && e.authType == t && e.esl == m)
  {
    var es := OfAuthType(pool, t);
    WeakestIsMinimum(es, m);
    forall e ensures e in es <==> e in pool && e.authType == t {
      OfAuthTypeIn(pool, t, e);
    }
    if es != [] {
      assert es[0] in es;
    }
  }

  /** The search never falls off the table and finds the largest level of any satisfied row. */
  lemma SearchFinds(asl: u32, acl: u32)
    ensures Search(GENERATION_ATL, asl, acl).Some?
    ensures exists row :: && row in GENERATION_ATL && Satisfied(row, asl, acl)
                          && Search(GENERATION_ATL, asl, acl) == Some(row.atl)
    ensures forall row :: row in GENERATION_ATL && Satisfied(row, asl, acl) ==>
            row.atl <= Search(GENERATION_ATL, asl, acl).value
  {
    SearchDescending(GENERATION_ATL, asl, acl);
    var last := GENERATION_ATL[5];
    assert last in GENERATION_ATL && Satisfied(last, asl, acl);
  }

  predicate Descending(rows: seq<AtlGeneration>) {
    forall i, j :: 0 <= i < j < |rows| ==> rows[i].atl >= rows[j].atl
  }

  lemma {:induction false} SearchDescending(rows: seq<AtlGeneration>, asl: u32, acl: u32)
    requires Descending(rows)
    ensures Search(rows, asl, acl).None? <==> forall row :: row in rows ==> !Satisfied(row, asl, acl)
    ensures Search(rows, asl, acl).Some? ==>
              && (exists row :: row in rows && Satisfied(row, asl, acl) && row.atl == Search(rows, asl, acl).value)
              && (forall row :: row in rows && Satisfied(row, asl, acl) ==> row.atl <= Search(rows, asl, acl).value)
  {
    if |rows| > 0 {
      SearchDescending(rows[1..], asl, acl);
      assert forall row :: row in rows <==> row == rows[0] || row in rows[1..];
      assert rows[0] in rows;
    }
  }

  /** More capable credentials and more secure executors never lower the trust level. */
  lemma SearchMonotone(asl: u32, acl: u32, asl2: u32, acl2: u32)
    requires asl <= asl2 && acl <= acl2
    ensures Search(GENERATION_ATL, asl, acl).Some? && Search(GENERATION_ATL, asl2, acl2).Some?
    ensures Search(GENERATION_ATL, asl, acl).value <= Search(GENERATION_ATL, asl2, acl2).value
  {
    SearchFinds(asl, acl);
    SearchFinds(asl2, acl2);
    var row :| row in GENERATION_ATL && Satisfied(row, asl, acl) && Search(GENERATION_ATL, asl, acl) == Some(row.atl);
    assert Satisfied(row, asl2, acl2);
  }

  /** A level is given exactly when the type has an executor and the user a credential of it. */
  lemma TrustLevelIff(pool: Option<seq<ExecutorInfo>>, db: Db, userId: i32, t: u32)
    ensures TrustLevel(pool, db, userId, t).Some? <==> Asl(pool, t).Some? && Acl(db, userId, t).Some?
  {
    if Asl(pool, t).Some? && Acl(db, userId, t).Some? {
      SearchFinds(Asl(pool, t).value, Acl(db, userId, t).value);
    }
  }

  /** The user's first credential of the type. */
  predicate FirstOfType(db: Db, userId: i32, t: u32, c: CredentialInfo) {
    && db.users.Some?
    && exists i: nat, k: nat ::
         && i < |db.users.value| && db.users.value[i].userId == userId
         && (forall j :: 0 <= j < i ==> db.users.value[j].userId != userId)
         && k < |db.users.value[i].credentials| && db.users.value[i].credentials[k] == c && c.authType == t
         && (forall j :: 0 <= j < k ==> db.users.value[i].credentials[j].authType != t)
  }

  lemma FirstIsAcl(users: seq<User>, userId: i32, t: u32, i: nat, k: nat)
    requires i < |users| && users[i].userId == userId && (forall j :: 0 <= j < i ==> users[j].userId != userId)
    requires k < |users[i].credentials| && users[i].credentials[k].authType == t
    requires forall j :: 0 <= j < k ==> users[i].credentials[j].authType != t
    ensures FindUser(users, userId) == i && FirstIndex(users[i].credentials, CredentialHasType(t)) == k
  {
    FirstIndexUnique(users, UserHasId(userId), i);
    FirstIndexUnique(users[i].credentials, CredentialHasType(t), k);
  }

  lemma FirstOfTypeLevel(db: Db, userId: i32, t: u32, c: CredentialInfo)
    requires FirstOfType(db, userId, t, c)
    ensures Acl(db, userId, t) == Some(c.capabilityLevel)
  {
    var users := db.users.value;
    var i: nat, k: nat :|
      && i < |users| && users[i].userId == userId && (forall j :: 0 <= j < i ==> users[j].userId != userId)
      && k < |users[i].credentials| && users[i].credentials[k] == c && c.authType == t
      && (forall j :: 0 <= j < k ==> users[i].credentials[j].authType != t);
    FirstIsAcl(users, userId, t, i, k);
  }

  lemma LevelIsOfFirst(db: Db, userId: i32, t: u32)
    requires Acl(db, userId, t).Some?
    ensures exists c :: FirstOfType(db, userId, t, c) && Acl(db, userId, t) == Some(c.capabilityLevel)
  {
    var users, i := db.users.value, FindUser(db.users.value, userId);
    var k := FirstIndex(users[i].credentials, CredentialHasType(t));
    assert forall j :: 0 <= j < i ==> !UserHasId(userId)(users[j]);
    assert forall j :: 0 <= j < k ==> !CredentialHasType(t)(users[i].credentials[j]);
    assert FirstOfType(db, userId, t, users[i].credentials[k]);
  }

  /** The row asks for no more security than 4 and than every executor of the type has, and no more capability. */
  predicate Reached(row: AtlGeneration, pool: seq<ExecutorInfo>, t: u32, acl: u32) {
    row.asl <= 4 && row.acl <= acl && forall e :: e in pool && e.authType == t ==> row.asl <= e.esl
  }

  /** The level of the highest row that is reached. */
  predicate IsHighest(v: u32, pool: seq<ExecutorInfo>, t: u32, acl: u32) {
    && (exists row :: row in GENERATION_ATL && row.atl == v && Reached(row, pool, t, acl))
    && (forall row :: row in GENERATION_ATL && Reached(row, pool, t, acl) ==> row.atl <= v)
  }

  lemma SatisfiedIff(row: AtlGeneration, pool: seq<ExecutorInfo>, t: u32, asl: u32, acl: u32)
    requires Asl(Some(pool), t) == Some(asl)
    ensures Satisfied(row, asl, acl) <==> Reached(row, pool, t, acl)
  {
    AslIff(pool, t, asl);
  }

  lemma SearchHighest(pool: seq<ExecutorInfo>, t: u32, asl: u32, acl: u32)
    requires Asl(Some(pool), t) == Some(asl)
    ensures Search(GENERATION_ATL, asl, acl).Some?
    ensures forall v: u32 :: IsHighest(v, pool, t, acl) <==> Search(GENERATION_ATL, asl, acl) == Some(v)
  {
    SearchFinds(asl, acl);
    forall row ensures Satisfied(row, asl, acl) <==> Reached(row, pool, t, acl) {
      SatisfiedIff(row, pool, t, asl, acl);
    }
  }

  /** The trust level is that of the highest row that the security levels of all executors of the type and the
      capability level of the user's first credential of the type reach; there is one exactly with such an executor
      and such a credential. */
  lemma TrustLevelIs(pool: seq<ExecutorInfo>, db: Db, userId: i32, t: u32, v: u32)
    ensures TrustLevel(Some(pool), db, userId, t) == Some(v) <==>
            && (exists e :: e in pool && e.authType == t)
            && (exists c :: FirstOfType(db, userId, t, c) && IsHighest(v, pool, t, c.capabilityLevel))
  {
    var asl, acl := Asl(Some(pool), t), Acl(db, userId, t);
    ExecutorOfType(pool, t);
    if acl.Some? {
      LevelIsOfFirst(db, userId, t);
    }
    forall c | FirstOfType(db, userId, t, c) ensures acl == Some(c.capabilityLevel) {
      FirstOfTypeLevel(db, userId, t, c);
    }
    if asl.Some? && acl.Some? {
      SearchHighest(pool, t, asl.value, acl.value);
    }
  }

  lemma ExecutorOfType(pool: seq<ExecutorInfo>, t: u32)
    ensures Asl(Some(pool), t).Some? <==> exists e :: e in pool && e.authType == t
  {
    var es := OfAuthType(pool, t);
    forall e ensures e in es <==> e in pool && e.authType == t {
      OfAuthTypeIn(pool, t, e);
    }
    if es != [] {
      assert es[0] in es;
    }
  }

  lemma SearchFrom(i: nat, asl: u32, acl: u32)
    requires i < |GENERATION_ATL|
    ensures Search(GENERATION_ATL[i..], asl, acl) ==
            if Satisfied(GENERATION_ATL[i], asl, acl) then Some(GENERATION_ATL[i].atl)
            else Search(GENERATION_ATL[i + 1..], asl, acl)
  {
    assert GENERATION_ATL[i..][1..] == GENERATION_ATL[i + 1..];
  }

  /** The levels by capability and security: 40000 for a capability of 3 and 30000 for one of 2, with a security of 2;
      20000 for a capability of 2 with a security of 1 and for one of 1 with 2; 10000 for any other capability. */
  lemma Levels(asl: u32, acl: u32)
    ensures Search(GENERATION_ATL, asl, acl) ==
            Some(if acl == 0 then 0
                 else if asl >= 2 then if acl >= 3 then 40000 else if acl == 2 then 30000 else 20000
                 else if asl == 1 && acl >= 2 then 20000
                 else 10000)
  {
    assert GENERATION_ATL[0..] == GENERATION_ATL;
    SearchFrom(0, asl, acl);
    SearchFrom(1, asl, acl);
    SearchFrom(2, asl, acl);
    SearchFrom(3, asl, acl);
    SearchFrom(4, asl, acl);
    SearchFrom(5, asl, acl);
  }

  // ----- the pool over registrations -------------------------------------------------------------

  predicate Different(a: ExecutorInfo, b: ExecutorInfo) {
    a.executorId != b.executorId && (a.executorType != b.executorType || a.authType != b.authType)
  }

  /** No two executors share an id, and no two are of the same kind. */
  predicate PoolOk(pool: seq<ExecutorInfo>) {
    forall i, j :: 0 <= i < j < |pool| ==> Different(pool[i], pool[j])
  }

  lemma RemoveKeepsPool(pool: seq<ExecutorInfo>, p: ExecutorInfo -> bool)
    requires PoolOk(pool)
    ensures PoolOk(RemoveFirst(pool, p))
  {
    RemoveKeepsPairwise(pool, p, Different);
  }

  /** With unique kinds, removing the first of a kind leaves none of it. */
  lemma KindGone(pool: seq<ExecutorInfo>, e: ExecutorInfo)
    requires PoolOk(pool)
    ensures forall k :: 0 <= k < |RemoveFirst(pool, SameKind(e))| ==> !SameKind(e)(RemoveFirst(pool, SameKind(e))[k])
  {
    RemoveFirstAt(pool, SameKind(e));
    var i := FirstIndex(pool, SameKind(e));
    if i < |pool| {
      forall k | i < k < |pool| ensures !SameKind(e)(pool[k]) {
        assert Different(pool[i], pool[k]);
      }
    }
  }

  predicate NewKind(pool: seq<ExecutorInfo>, e: ExecutorInfo) {
    forall k :: 0 <= k < |pool| ==> pool[k].executorType != e.executorType || pool[k].authType != e.authType
  }

  lemma NothingOfKind(pool: seq<ExecutorInfo>, e: ExecutorInfo)
    requires NewKind(pool, e)
    ensures RemoveFirst(pool, SameKind(e)) == pool
  {
    FirstIndexUnique(pool, SameKind(e), |pool|);
    RemoveFirstAt(pool, SameKind(e));
  }

  lemma NothingRemovedIff(pool: seq<ExecutorInfo>, e: ExecutorInfo)
    ensures RemoveFirst(pool, SameKind(e)) == pool <==> NewKind(pool, e)
  {
    RemoveFirstAt(pool, SameKind(e));
    if !NewKind(pool, e) {
      var k :| 0 <= k < |pool| && pool[k].executorType == e.executorType && pool[k].authType == e.authType;
      assert SameKind(e)(pool[k]) && FirstIndex(pool, SameKind(e)) < |pool|;
    } else {
      NothingOfKind(pool, e);
    }
  }

  /** Registering keeps ids and kinds unique and, on success, leaves one executor of the kind, the new one; a failed
      registration changes nothing exactly when the kind is new. */
  lemma RegisterOk(pool: seq<ExecutorInfo>, e: ExecutorInfo, env: RegisterEnv)
    requires PoolOk(pool)
    ensures var (r, pool1) := Register(pool, e, env);
            && PoolOk(pool1)
            && (r == RESULT_SUCCESS ==> |pool1| > 0 && pool1[0] == e.(executorId := pool1[0].executorId)
                                        && pool1[1..] == RemoveFirst(pool, SameKind(e)))
            && (r != RESULT_SUCCESS ==> && pool1 == RemoveFirst(pool, SameKind(e))
                                        && (pool1 == pool <==> NewKind(pool, e)))
  {
    var others := RemoveFirst(pool, SameKind(e));
    NothingRemovedIff(pool, e);
    RemoveKeepsPool(pool, SameKind(e));
    KindGone(pool, e);
    var id := FirstFresh(env.draws, ExecutorIds(others));
    if id.Some? {
      forall k | 0 <= k < |others| ensures others[k].executorId != id.value {
        assert others[k] in others;
      }
    }
  }

  /** A registration succeeds exactly with a new id, memory and room. */
  lemma RegisterIff(pool: seq<ExecutorInfo>, e: ExecutorInfo, env: RegisterEnv)
    ensures var others := RemoveFirst(pool, SameKind(e));
            Register(pool, e, env).0 == RESULT_SUCCESS <==>
            env.copied && env.inserted && |others| < 0xFFFF_FFFF && FirstFresh(env.draws, ExecutorIds(others)).Some?
  {}

  /** Unregistering takes exactly the executor with the id. */
  lemma UnregisterOk(pool: seq<ExecutorInfo>, id: u64)
    requires PoolOk(pool)
    ensures var pool1 := Unregister(pool, id);
            PoolOk(pool1) && forall e :: e in pool1 <==> e in pool && e.executorId != id
  {
    RemoveKeepsPool(pool, HasExecutorId(id));
    forall i, j | 0 <= i < j < |pool| ensures !(HasExecutorId(id)(pool[i]) && HasExecutorId(id)(pool[j])) {
      assert Different(pool[i], pool[j]);
    }
    forall e ensures e in Unregister(pool, id) <==> e in pool && e.executorId != id {
      RemoveOnly(pool, HasExecutorId(id), e);
    }
  }

  datatype PoolStep = RegisterStep(e: ExecutorInfo, env: RegisterEnv) | UnregisterStep(id: u64)

  function PoolRun(pool: seq<ExecutorInfo>, steps: seq<PoolStep>): seq<ExecutorInfo>
    decreases |steps|
  {
    if |steps| == 0 then pool
    else
      PoolRun(match steps[0]
              case RegisterStep(e, env) => Register(pool, e, env).1
              case UnregisterStep(id) => Unregister(pool, id),
              steps[1..])
  }

  /** In every reachable pool the ids and the pairs of authentication and executor type are unique. */
  lemma {:induction false} PoolRunOk(pool: seq<ExecutorInfo>, steps: seq<PoolStep>)
    requires PoolOk(pool)
    ensures PoolOk(PoolRun(pool, steps))
    decreases |steps|
  {
    if |steps| > 0 {
      match steps[0]
      case RegisterStep(e, env) =>
        RegisterOk(pool, e, env);
        PoolRunOk(Register(pool, e, env).1, steps[1..]);
      case UnregisterStep(id) =>
        RemoveKeepsPool(pool, HasExecutorId(id));
        PoolRunOk(Unregister(pool, id), steps[1..]);
    }
  }

  lemma AslOfOneMore(pool: seq<ExecutorInfo>, e: ExecutorInfo, t: u32)
    ensures Asl(Some([e] + pool), t) ==
            if e.authType == t then Some(Min(WeakestEsl(OfAuthType(pool, t)), e.esl)) else Asl(Some(pool), t)
  {
    assert ([e] + pool)[1..] == pool;
    var es := OfAuthType(pool, t);
    assert ([e] + es)[1..] == es && [] + es == es;
  }

  /** After a registration the level of the type is the least of the new executor's and the remaining ones'; the
      other types keep theirs. */
  lemma AslAfterRegister(pool: seq<ExecutorInfo>, e: ExecutorInfo, env: RegisterEnv, t: u32)
    requires Register(pool, e, env).0 == RESULT_SUCCESS
    ensures var others := RemoveFirst(pool, SameKind(e));
            Asl(Some(Register(pool, e, env).1), t) ==
            if e.authType == t then Some(Min(WeakestEsl(OfAuthType(others, t)), e.esl)) else Asl(Some(others), t)
  {
    var (_, pool1) := Register(pool, e, env);
    AslOfOneMore(RemoveFirst(pool, SameKind(e)), pool1[0], t);
  }

  /** Registering an executor of a new kind never raises the trust level of any user, and leaves that of the other
      authentication types alone. */
  lemma NewKindNeverRaises(pool: seq<ExecutorInfo>, e: ExecutorInfo, env: RegisterEnv, db: Db, userId: i32, t: u32)
    requires Register(pool, e, env).0 == RESULT_SUCCESS && NewKind(pool, e)
    requires TrustLevel(Some(pool), db, userId, t).Some?
    ensures var after := TrustLevel(Some(Register(pool, e, env).1), db, userId, t);
            && after.Some? && after.value <= TrustLevel(Some(pool), db, userId, t).value
            && (e.authType != t ==> after == TrustLevel(Some(pool), db, userId, t))
  {
    AslOfNewKind(pool, e, env, t);
    TrustMonotone(Asl(Some(Register(pool, e, env).1), t), Asl(Some(pool), t), Acl(db, userId, t));
  }

  lemma AslOfNewKind(pool: seq<ExecutorInfo>, e: ExecutorInfo, env: RegisterEnv, t: u32)
    requires Register(pool, e, env).0 == RESULT_SUCCESS && NewKind(pool, e)
    requires Asl(Some(pool), t).Some?
    ensures var after := Asl(Some(Register(pool, e, env).1), t);
            && after.Some? && after.value <= Asl(Some(pool), t).value
            && (e.authType != t ==> after == Asl(Some(pool), t))
  {
    NothingOfKind(pool, e);
    AslAfterRegister(pool, e, env, t);
  }

  lemma TrustMonotone(lower: Option<u32>, higher: Option<u32>, acl: Option<u32>)
    requires Trust(higher, acl).Some? && lower.Some? && lower.value <= higher.value
    ensures Trust(lower, acl).Some? && Trust(lower, acl).value <= Trust(higher, acl).value
  {
    SearchMonotone(lower.value, acl.value, higher.value, acl.value);
  }
}
