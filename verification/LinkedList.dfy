/** The singly linked list under every store of the C core: nodes are linked and
    unlinked in place, and the list stands for the sequence of its elements. */
module LinkedLists {
  import opened Base

  const UINT32_MAX: u32 := 0xFFFF_FFFF

  class LinkedListNode<T> {
    var data: T
    var next: LinkedListNode?<T>

    constructor (data: T, next: LinkedListNode?<T>)
      ensures this.data == data && this.next == next
    {
      this.data, this.next := data, next;
    }
  }

  /** The i-th node of a chain, or null past its end. */
  ghost function At<T>(nodes: seq<LinkedListNode<T>>, i: nat): LinkedListNode?<T> {
    if i < |nodes| then nodes[i] else null
  }

  class LinkedList<T> {
    var size: u32
    var head: LinkedListNode?<T>
    ghost var nodes: seq<LinkedListNode<T>>  // the chain from head
    ghost var contents: seq<T>               // the data of the nodes

    ghost predicate Valid()
      reads this, nodes
    {
      && size == |nodes| == |contents|
      && head == At(nodes, 0)
      && (forall i {:trigger nodes[i].next} :: 0 <= i < |nodes| ==> nodes[i].next == At(nodes, i + 1))
      && (forall i, j :: 0 <= i < j < |nodes| ==> nodes[i] != nodes[j])
      && (forall i {:trigger nodes[i]} :: 0 <= i < |nodes| ==> nodes[i].data == contents[i])
    }

    /** CreateLinkedList. */
    constructor ()
      ensures Valid() && contents == [] && nodes == []
    {
      size, head, nodes, contents := 0, null, [], [];
    }

    /** InsertNode: the new element becomes the head. malloced is the outcome of allocating the node. */
    method Insert(data: T, malloced: bool) returns (r: ResultCode)
      requires Valid()
      modifies this
      ensures Valid()
      ensures r == if old(size) == UINT32_MAX then RESULT_REACH_LIMIT
                   else if !malloced then RESULT_NO_MEMORY else RESULT_SUCCESS
      ensures r == RESULT_SUCCESS ==> contents == [data] + old(contents)
      ensures r == RESULT_SUCCESS ==> |nodes| == |old(nodes)| + 1 && fresh(nodes[0]) && nodes[1..] == old(nodes)
      ensures r != RESULT_SUCCESS ==> contents == old(contents) && nodes == old(nodes)
    {
      if size == UINT32_MAX {
        return RESULT_REACH_LIMIT;
      }
      if !malloced {
        return RESULT_NO_MEMORY;
      }
      var node := new LinkedListNode(data, head);
      ghost var was := nodes;
      head := node;
      size := size + 1;
      nodes, contents := [node] + nodes, [data] + contents;
      forall i | 0 <= i < |nodes|
        ensures nodes[i].next == At(nodes, i + 1)
      {
        if i > 0 {
          assert nodes[i] == was[i - 1] && was[i - 1].next == At(was, i);
        }
      }
      return RESULT_SUCCESS;
    }

    /** RemoveNode: unlinks the first element the matcher accepts and keeps the order of the others. */
    method Remove(matcher: T -> bool) returns (r: ResultCode)
      requires Valid()
      modifies this, nodes
      ensures Valid()
      ensures r == if FirstIndex(old(contents), matcher) < |old(contents)| then RESULT_SUCCESS else RESULT_NOT_FOUND
      ensures contents == RemoveFirst(old(contents), matcher)
      ensures forall n :: n in nodes ==> n in old(nodes)
    {
      ghost var s := contents;
      var pre: LinkedListNode?<T> := null;
      var node := head;
      ghost var i := 0;
      while node != null && !matcher(node.data)
        invariant 0 <= i <= |nodes|
        invariant node == At(nodes, i)
        invariant pre == (if i == 0 then null else nodes[i - 1])
        invariant forall j :: 0 <= j < i ==> !matcher(s[j])
        decreases |nodes| - i
      {
        pre := node;
        node := node.next;
        i := i + 1;
      }
      FirstIndexUnique(s, matcher, i);
      RemoveFirstAt(s, matcher);
      if node == null {
        return RESULT_NOT_FOUND;
      }
      Unlink(pre, node, i);
      return RESULT_SUCCESS;
    }

    method Unlink(pre: LinkedListNode?<T>, node: LinkedListNode<T>, ghost i: nat)
      requires Valid()
      requires i < |nodes| && node == nodes[i] && pre == (if i == 0 then null else nodes[i - 1])
      modifies this, nodes
      ensures Valid()
      ensures nodes == old(nodes)[..i] + old(nodes)[i + 1..]
      ensures contents == old(contents)[..i] + old(contents)[i + 1..]
    {
      assert node.next == At(nodes, i + 1);
      if pre == null {
        head := node.next;
      } else {
        pre.next := node.next;
      }
      size := size - 1;
      node.next := null;
      ghost var was, data := nodes, contents;
      nodes, contents := was[..i] + was[i + 1..], data[..i] + data[i + 1..];
      forall j | 0 <= j < |nodes|
        ensures nodes[j].next == At(nodes, j + 1) && nodes[j].data == contents[j]
      {
        ghost var k := if j < i then j else j + 1;
        assert nodes[j] == was[k] && contents[j] == data[k];
        assert old(was[k].next) == At(was, k + 1) && old(was[k].data) == data[k];
      }
    }

    /** GetSize. */
    method GetSize() returns (n: u32)
      requires Valid()
      ensures n == |contents|
    {
      n := size;
    }
  }

  /** A cursor of LinkedListIterator: the elements before pos have been returned. */
  class LinkedListIterator<T> {
    var current: LinkedListNode?<T>
    ghost const list: LinkedList<T>
    ghost var pos: nat

    ghost predicate Valid()
      reads this, list, list.nodes
    {
      list.Valid() && pos <= |list.nodes| && current == At(list.nodes, pos)
    }

    /** CreateIterator. */
    constructor (list: LinkedList<T>)
      requires list.Valid()
      ensures Valid() && this.list == list && pos == 0
    {
      current, this.list, pos := list.head, list, 0;
    }

    /** IteratorHasNext. */
    method HasNext() returns (more: bool)
      requires Valid()
      ensures more <==> pos < |list.contents|
    {
      more := current != null;
    }

    /** IteratorNext: returns the element under the cursor and advances, or stays at the end. */
    method Next() returns (data: Option<T>)
      requires Valid()
      modifies this
      ensures Valid()
      ensures if old(pos) < |list.contents| then data == Some(list.contents[old(pos)]) && pos == old(pos) + 1
              else data == None && pos == old(pos)
    {
      if current == null {
        return None;
      }
      data := Some(current.data);
      current := current.next;
      pos := pos + 1;
    }
  }

  /** The ids of all elements, collected on a walk through the nodes. */
  method CollectIds<T>(list: LinkedList<T>, id: T -> u64) returns (ids: set<u64>)
    requires list.Valid()
    ensures ids == set x | x in list.contents :: id(x)
  {
    ids := {};
    var temp := list.head;
    ghost var i, s := 0, list.contents;
    while temp != null
      invariant 0 <= i <= |s| && temp == At(list.nodes, i) && ids == set x | x in s[..i] :: id(x)
      decreases |s| - i
    {
      assert s[..i + 1] == s[..i] + [temp.data];
      ids := ids + {id(temp.data)};
      assert list.nodes[i].next == At(list.nodes, i + 1);
      temp := temp.next;
      i := i + 1;
    }
    assert s[..i] == s;
  }
}
