/** pool.c: the registered executors. */
module Pool {
  import opened Base
  import opened LinkedLists

  const COLLECTOR: u32 := 1
  const VERIFIER: u32 := 2
  const ALL_IN_ONE: u32 := 3

  datatype ExecutorInfo = ExecutorInfo(executorId: u64, authType: u32, authAbility: u64, esl: u32, executorType: u32,
                                       pubKey: seq<byte>)

  function SameKind(e: ExecutorInfo): ExecutorInfo -> bool {
    (x: ExecutorInfo) => x.executorType == e.executorType && x.authType == e.authType
  }

  function HasExecutorId(id: u64): ExecutorInfo -> bool {
    (x: ExecutorInfo) => x.executorId == id
  }

  function ExecutorIds(pool: seq<ExecutorInfo>): set<u64> {
    set e | e in pool :: e.executorId
  }

  /** Outcomes of the random generator and of the two allocations of a registration. */
  datatype RegisterEnv = RegisterEnv(draws: Draws, copied: bool, inserted: bool)

  /** RegisterExecutorToPool: the executor of the same kind goes first, even when the new one is then refused. */
  function Register(pool: seq<ExecutorInfo>, e: ExecutorInfo, env: RegisterEnv): (ResultCode, seq<ExecutorInfo>) {
    var others := RemoveFirst(pool, SameKind(e));
    var id := FirstFresh(env.draws, ExecutorIds(others));
    if id.None? then (RESULT_GENERAL_ERROR, others)
    else if !env.copied then (RESULT_NO_MEMORY, others)
    else if |others| >= UINT32_MAX then (RESULT_REACH_LIMIT, others)
    else if !env.inserted then (RESULT_NO_MEMORY, others)
    else (RESULT_SUCCESS, [e.(executorId := id.value)] + others)
  }

  function Unregister(pool: seq<ExecutorInfo>, id: u64): seq<ExecutorInfo> {
    RemoveFirst(pool, HasExecutorId(id))
  }

  /** The executors of a type in the order of the list. */
  function OfAuthType(pool: seq<ExecutorInfo>, authType: u32): seq<ExecutorInfo> {
    if |pool| == 0 then []
    else (if pool[0].authType == authType then [pool[0]] else []) + OfAuthType(pool[1..], authType)
  }

  /** done with the executors of the type in front, each inserted at the head. */
  function CopiedOnto(pool: seq<ExecutorInfo>, authType: u32, done: seq<ExecutorInfo>): seq<ExecutorInfo>
    decreases |pool|
  {
    if |pool| == 0 then done
    else CopiedOnto(pool[1..], authType, if pool[0].authType == authType then [pool[0]] + done else done)
  }

  /** Inserting at the head reverses. */
  lemma {:induction false} CopiedReversed(pool: seq<ExecutorInfo>, authType: u32, done: seq<ExecutorInfo>)
    ensures CopiedOnto(pool, authType, done) == Reverse(OfAuthType(pool, authType)) + done
    decreases |pool|
  {
    if |pool| > 0 {
      var tail := OfAuthType(pool[1..], authType);
      if pool[0].authType == authType {
        CopiedReversed(pool[1..], authType, [pool[0]] + done);
        assert ([pool[0]] + tail)[1..] == tail;
      } else {
        CopiedReversed(pool[1..], authType, done);
        assert [] + tail == tail;
      }
    }
  }

  class ResourcePool {
    var inited: bool  // g_poolList is not NULL
    var poolList: LinkedList<ExecutorInfo>

    ghost predicate Valid()
      reads this, poolList, poolList.nodes
    {
      poolList.Valid()
    }

    ghost function Executors(): Option<seq<ExecutorInfo>>
      reads this, poolList
    {
      if inited then Some(poolList.contents) else None
    }

    constructor ()
      ensures Valid() && Executors() == None
    {
      inited := false;
      poolList := new LinkedList();
    }

    method InitResourcePool() returns (r: ResultCode)
      requires Valid()
      modifies this
      ensures Valid() && r == RESULT_SUCCESS
      ensures Executors() == if old(Executors()).None? then Some([]) else old(Executors())
    {
      if !inited {
        inited := true;
        poolList := new LinkedList();
      }
      return RESULT_SUCCESS;
    }

    method DestroyResourcePool()
      requires Valid()
      modifies this
      ensures Valid() && Executors() == None
    {
      inited := false;
    }

    method RegisterExecutorToPool(executorInfo: ExecutorInfo, env: RegisterEnv) returns (r: ResultCode, executorId: u64)
      requires Valid()
      modifies this, poolList, poolList.nodes
      ensures Valid()
      ensures old(Executors()).None? ==> r == RESULT_NEED_INIT && Executors() == None
      ensures old(Executors()).Some? ==>
                && Executors().Some?
                && (r, Executors().value) == Register(old(Executors()).value, executorInfo, env)
      ensures r == RESULT_SUCCESS ==>
              |Executors().value| > 0 && Executors().value[0] == executorInfo.(executorId := executorId)
    {
      if !inited {
        return RESULT_NEED_INIT, 0;
      }
      var _ := poolList.Remove(SameKind(executorInfo));
      var taken := CollectIds(poolList, (e: ExecutorInfo) => e.executorId);
      assert taken == ExecutorIds(poolList.contents);
      var id := GenerateDeduplicateUint64(env.draws, taken);
      if id.None? {
        return RESULT_GENERAL_ERROR, 0;
      }
      executorId := id.value;
      if !env.copied {
        return RESULT_NO_MEMORY, executorId;
      }
      r := poolList.Insert(executorInfo.(executorId := executorId), env.inserted);
    }

    method UnregisterExecutorToPool(executorId: u64) returns (r: ResultCode)
      requires Valid()
      modifies this, poolList, poolList.nodes
      ensures Valid()
      ensures old(Executors()).None? ==> r == RESULT_NEED_INIT && Executors() == None
      ensures old(Executors()).Some? ==>
                && Executors() == Some(Unregister(old(Executors()).value, executorId))
                && (r == RESULT_SUCCESS <==> executorId in ExecutorIds(old(Executors()).value))
    {
      if !inited {
        return RESULT_NEED_INIT;
      }
      IdFound(poolList.contents, executorId);
      r := poolList.Remove(HasExecutorId(executorId));
    }

    /** Copies of the executors of a type; each is inserted at the front, which reverses their order. */
    method QueryExecutor(authType: u32) returns (result: Option<LinkedList<ExecutorInfo>>)
      requires Valid()
      ensures result.None? <==> Executors().None?
      ensures result.Some? ==> fresh(result.value) && result.value.Valid()
      ensures result.Some? ==> result.value.contents == Reverse(OfAuthType(Executors().value, authType))
    {
      if !inited {
        return None;
      }
      var list := CopyOfType(poolList, authType);
      return Some(list);
    }
  }

  method CopyOfType(source: LinkedList<ExecutorInfo>, authType: u32) returns (list: LinkedList<ExecutorInfo>)
    requires source.Valid()
    ensures fresh(list) && list.Valid() && list.contents == Reverse(OfAuthType(source.contents, authType))
  {
    list := new LinkedList<ExecutorInfo>();
    var cursor := new LinkedListIterator(source);
    ghost var s := source.contents;
    ghost var all := CopiedOnto(s, authType, []);
    CopiedReversed(s, authType, []);
    assert s[0..] == s && Reverse(OfAuthType(s, authType)) + [] == Reverse(OfAuthType(s, authType));
    var more := cursor.HasNext();
    while more
      invariant list.Valid() && fresh(list) && fresh(cursor) && cursor.Valid() && cursor.list == source
      invariant (more <==> cursor.pos < |s|) && |list.contents| <= cursor.pos <= |s|
      invariant CopiedOnto(s[cursor.pos..], authType, list.contents) == all
      decreases |s| - cursor.pos
    {
      assert s[cursor.pos..][0] == s[cursor.pos] && s[cursor.pos..][1..] == s[cursor.pos + 1..];
      CopyNext(cursor, list, authType);
      more := cursor.HasNext();
    }
  }

  /** Inserts a copy of the executor under the cursor if it has the type. */
  method CopyNext(cursor: LinkedListIterator<ExecutorInfo>, list: LinkedList<ExecutorInfo>, authType: u32)
    requires cursor.Valid() && list.Valid() && list != cursor.list
    requires cursor.pos < |cursor.list.contents| && |list.contents| < UINT32_MAX
    modifies cursor, list
    ensures cursor.Valid() && list.Valid() && cursor.pos == old(cursor.pos) + 1
    ensures var e := cursor.list.contents[old(cursor.pos)];
            list.contents == if e.authType == authType then [e] + old(list.contents) else old(list.contents)
  {
    var e := cursor.Next();
    if e.value.authType == authType {
      var _ := list.Insert(e.value, true);
    }
  }

  lemma IdFound(pool: seq<ExecutorInfo>, id: u64)
    ensures FirstIndex(pool, HasExecutorId(id)) < |pool| <==> id in ExecutorIds(pool)
  {
    if id in ExecutorIds(pool) {
      var e :| e in pool && e.executorId == id;
      var k :| 0 <= k < |pool| && pool[k] == e;
      assert HasExecutorId(id)(pool[k]);
    }
    var i := FirstIndex(pool, HasExecutorId(id));
    if i < |pool| {
      assert pool[i] in pool && HasExecutorId(id)(pool[i]);
    }
  }
}
