/** tlv_base.c and tlv_wrapper.c: type/length/value records, the list they are parsed into and the
    typed lookups in it. */
module Tlv {
  import opened Base

  const MAX_BUFFER_SIZE := 512000
  const HEADER_LEN := 8

  datatype ErrCode = OPERA_SUCC | PARAM_ERR | OPERA_FAIL

  /** length is |value|. */
  datatype Record = Record(typ: i32, value: seq<byte>)

  // ----- the wire format -------------------------------------------------------------------------

  function Header(typ: i32, length: u32): (b: seq<byte>)
    ensures |b| == HEADER_LEN
  {
    U32Bytes(U32OfI32(typ)) + U32Bytes(length)
  }

  function TypeAt(b: seq<byte>): i32
    requires |b| >= HEADER_LEN
  {
    I32OfU32(U32Of(b[..4]))
  }

  function LengthAt(b: seq<byte>): u32
    requires |b| >= HEADER_LEN
  {
    U32Of(b[4..8])
  }

  lemma HeaderFields(typ: i32, length: u32, rest: seq<byte>)
    ensures TypeAt(Header(typ, length) + rest) == typ
    ensures LengthAt(Header(typ, length) + rest) == length
    ensures (Header(typ, length) + rest)[HEADER_LEN..] == rest
  {
    var b := Header(typ, length) + rest;
    assert b[..4] == U32Bytes(U32OfI32(typ));
    assert b[4..8] == U32Bytes(length);
  }

  lemma HeaderOfFields(b: seq<byte>)
    requires |b| >= HEADER_LEN
    ensures Header(TypeAt(b), LengthAt(b)) == b[..HEADER_LEN]
  {
    U32BytesOf(b[..4]);
    U32BytesOf(b[4..8]);
    assert b[..4] + b[4..8] == b[..8];
  }

  function RecordBytes(r: Record): seq<byte> {
    Header(r.typ, Count(|r.value|)) + r.value
  }

  /** A record is its type, its length and its value. */
  lemma RecordLayout(r: Record)
    requires |r.value| <= 0xFFFF_FFFF
    ensures var b := RecordBytes(r);
            && b[0..4] == LeBytes(if r.typ < 0 then r.typ + 0x1_0000_0000 else r.typ, 4)
            && b[4..8] == LeBytes(|r.value|, 4) && b[8..] == r.value
  {}

  /** The records b is the concatenation of, or None when it is none. */
  function ParseRecords(b: seq<byte>): Option<seq<Record>>
    decreases |b|
  {
    if |b| == 0 then Some([])
    else if |b| < HEADER_LEN then None
    else
      var n := LengthAt(b);
      if n > |b| - HEADER_LEN then None
      else
        var rest := ParseRecords(b[HEADER_LEN + n..]);
        if rest.None? then None else Some([Record(TypeAt(b), b[HEADER_LEN..HEADER_LEN + n])] + rest.value)
  }

  predicate Short(rs: seq<Record>) {
    forall r :: r in rs ==> |r.value| <= 0xFFFF_FFFF
  }

  lemma ParseStep(typ: i32, value: seq<byte>, rest: seq<byte>)
    requires |value| <= 0xFFFF_FFFF
    ensures ParseRecords((Header(typ, |value|) + value) + rest) ==
            if ParseRecords(rest).None? then None else Some([Record(typ, value)] + ParseRecords(rest).value)
  {
    var h := Header(typ, |value|);
    var b := (h + value) + rest;
    assert b == h + (value + rest);
    HeaderFields(typ, |value|, value + rest);
    assert b[HEADER_LEN..HEADER_LEN + |value|] == value;
    assert b[HEADER_LEN + |value|..] == rest;
  }

  /** Printing and then parsing gives the records back. */
  lemma {:induction false} ParsePrinted(rs: seq<Record>)
    requires Short(rs)
    ensures ParseRecords(Records(rs, RecordBytes)) == Some(rs)
  {
    if |rs| > 0 {
      var r, tail := rs[0], rs[1..];
      assert r in rs && Short(tail);
      ParsePrinted(tail);
      ParseStep(r.typ, r.value, Records(tail, RecordBytes));
      assert rs == [r] + tail;
    }
  }

  lemma PrintStep(b: seq<byte>)
    requires |b| >= HEADER_LEN && HEADER_LEN + LengthAt(b) <= |b|
    ensures RecordBytes(Record(TypeAt(b), b[HEADER_LEN..HEADER_LEN + LengthAt(b)])) + b[HEADER_LEN + LengthAt(b)..] == b
  {
    HeaderOfFields(b);
    assert b == (b[..HEADER_LEN] + b[HEADER_LEN..HEADER_LEN + LengthAt(b)]) + b[HEADER_LEN + LengthAt(b)..];
  }

  /** What parses is the print of what it parses to. */
  lemma {:induction false} PrintParsed(b: seq<byte>)
    requires ParseRecords(b).Some?
    ensures Records(ParseRecords(b).value, RecordBytes) == b
    ensures |b| <= 0xFFFF_FFFF ==> Short(ParseRecords(b).value)
    decreases |b|
  {
    if |b| > 0 {
      var n := LengthAt(b);
      var rest := b[HEADER_LEN + n..];
      var r := Record(TypeAt(b), b[HEADER_LEN..HEADER_LEN + n]);
      PrintParsed(rest);
      PrintStep(b);
      assert ParseRecords(b).value == [r] + ParseRecords(rest).value;
      assert ([r] + ParseRecords(rest).value)[1..] == ParseRecords(rest).value;
    }
  }

  /** A buffer parses exactly when it is a concatenation of records, and then to those records. */
  lemma ParsesIff(b: seq<byte>, rs: seq<Record>)
    requires |b| <= 0xFFFF_FFFF
    ensures ParseRecords(b) == Some(rs) <==> Short(rs) && Records(rs, RecordBytes) == b
  {
    if ParseRecords(b) == Some(rs) {
      PrintParsed(b);
    }
    if Short(rs) && Records(rs, RecordBytes) == b {
      ParsePrinted(rs);
    }
  }

  // ----- the list --------------------------------------------------------------------------------

  class TlvListNode {
    var data: Option<Record>
    var next: TlvListNode?

    constructor (data: Option<Record>)
      ensures this.data == data && next == null
    {
      this.data, next := data, null;
    }
  }

  /** A list behind a dummy head, appended to at its tail. */
  class TlvList {
    const head: TlvListNode
    ghost var nodes: seq<TlvListNode>  // the chain, dummy head included
    ghost var contents: seq<Record>    // the data of the nodes after it

    ghost predicate Valid()
      reads this, nodes
    {
      && |nodes| == |contents| + 1 && nodes[0] == head
      && (forall i {:trigger nodes[i].data} :: 0 < i < |nodes| ==> nodes[i].data == Some(contents[i - 1]))
      && (forall i {:trigger nodes[i].next} :: 0 <= i < |nodes| ==> nodes[i].next == At(nodes, i + 1))
      && (forall i, j :: 0 <= i < j < |nodes| ==> nodes[i] != nodes[j])
    }

    static ghost function At(nodes: seq<TlvListNode>, i: nat): TlvListNode? {
      if i < |nodes| then nodes[i] else null
    }

    /** CreateTlvList. */
    constructor ()
      ensures Valid() && contents == [] && fresh(this) && fresh(nodes)
    {
      head := new TlvListNode(None);
      new;
      nodes, contents := [head], [];
    }

    /** AddTlvNode: walks to the tail and links a node there. */
    method AddTlvNode(record: Record)
      requires Valid()
      modifies this, nodes
      ensures Valid() && contents == old(contents) + [record]
      ensures fresh(nodes[|nodes| - 1]) && nodes[..|nodes| - 1] == old(nodes)
    {
      var node := new TlvListNode(Some(record));
      var temp := head;
      ghost var i := 0;
      while temp.next != null
        invariant 0 <= i < |nodes| && temp == nodes[i]
        decreases |nodes| - i
      {
        temp := temp.next;
        i := i + 1;
      }
      assert At(nodes, i + 1) == null;
      ghost var was := nodes;
      temp.next := node;
      nodes, contents := nodes + [node], contents + [record];
      forall j | 0 <= j < |nodes|
        ensures nodes[j].next == At(nodes, j + 1)
      {
        if j < |was| - 1 {
          assert old(was[j].next) == At(was, j + 1);
        }
      }
    }

    /** The loop of the Get...Para functions: the first record of the type, from head->next on. */
    method FindTlv(msgType: i32) returns (record: Option<Record>)
      requires Valid()
      ensures record == FirstOfType(contents, msgType)
    {
      ghost var s := contents;
      var node := head.next;
      ghost var i := 0;
      assert head.next == nodes[0].next && s[0..] == s;
      while node != null && node.data.value.typ != msgType
        invariant 0 <= i <= |s| && node == At(nodes, i + 1)
        invariant FirstOfType(s, msgType) == FirstOfType(s[i..], msgType)
        decreases |s| - i
      {
        assert s[i..][0] == node.data.value && s[i..][1..] == s[i + 1..];
        node := node.next;
        i := i + 1;
      }
      return if node == null then None else node.data;
    }

    method GetUint32Para(msgType: i32) returns (r: Option<u32>)
      requires Valid()
      ensures r == Uint32Of(contents, msgType)
    {
      var record := FindTlv(msgType);
      if record.None? || |record.value.value| != 4 {
        return None;
      }
      return Some(U32Of(record.value.value));
    }

    method GetInt32Para(msgType: i32) returns (r: Option<i32>)
      requires Valid()
      ensures r == Int32Of(contents, msgType)
    {
      var record := FindTlv(msgType);
      if record.None? || |record.value.value| != 4 {
        return None;
      }
      return Some(I32OfU32(U32Of(record.value.value)));
    }

    method GetUint64Para(msgType: i32) returns (r: Option<u64>)
      requires Valid()
      ensures r == Uint64Of(contents, msgType)
    {
      var record := FindTlv(msgType);
      if record.None? || |record.value.value| != 8 {
        return None;
      }
      return Some(U64Of(record.value.value));
    }

    method GetBuffPara(msgType: i32) returns (r: Option<seq<byte>>)
      requires Valid()
      ensures r == BuffOf(contents, msgType)
    {
      var record := FindTlv(msgType);
      if record.None? || |record.value.value| == 0 || |record.value.value| > MAX_BUFFER_SIZE {
        return None;
      }
      return Some(record.value.value);
    }

    /** PutTlvObject: the record at the start of b goes to the tail, if it is complete. */
    method PutTlvObject(b: seq<byte>) returns (record: Option<Record>)
      requires Valid()
      modifies this, nodes
      ensures Valid() && record == FirstRecord(b)
      ensures contents == if record.Some? then old(contents) + [record.value] else old(contents)
      ensures forall k :: 0 <= k < |nodes| ==> nodes[k] in old(nodes) || fresh(nodes[k])
    {
      if |b| < HEADER_LEN || LengthAt(b) > |b| - HEADER_LEN {
        return None;
      }
      record := Some(Record(TypeAt(b), b[HEADER_LEN..HEADER_LEN + LengthAt(b)]));
      AddTlvNode(record.value);
    }

    /** One round of the loop of ParseTlvWrapper: the next record goes to the tail, if it is complete. */
    method ParseNext(buffer: seq<byte>, offset: nat, ghost goal: Option<seq<Record>>, ghost was: seq<Record>,
                     ghost done: seq<Record>) returns (ok: bool, next: nat, ghost done1: seq<Record>)
      requires Valid() && offset < |buffer| && contents == was + done && Walks(goal, buffer[offset..], done)
      modifies this, nodes
      ensures Valid() && contents == was + done1
      ensures if ok then offset < next <= |buffer| && Walks(goal, buffer[next..], done1) else goal.None?
      ensures forall k :: 0 <= k < |nodes| ==> nodes[k] in old(nodes) || fresh(nodes[k])
    {
      var record := PutTlvObject(buffer[offset..]);
      if record.None? {
        return false, offset, done;
      }
      WalksOn(goal, buffer, offset, done, record.value);
      return true, offset + HEADER_LEN + |record.value.value|, done + [record.value];
    }

    /** ParseTlvWrapper: appends the records of the buffer; on a malformed buffer, those before the fault. */
    method ParseTlvWrapper(buffer: seq<byte>) returns (r: ErrCode)
      requires Valid()
      modifies this, nodes
      ensures Valid()
      ensures r == PARAM_ERR <==> |buffer| == 0 || |buffer| > MAX_BUFFER_SIZE
      ensures r == OPERA_SUCC <==> 0 < |buffer| <= MAX_BUFFER_SIZE && ParseRecords(buffer).Some?
      ensures r == OPERA_SUCC ==> contents == old(contents) + ParseRecords(buffer).value
      ensures old(contents) <= contents
      ensures forall k :: 0 <= k < |nodes| ==> nodes[k] in old(nodes) || fresh(nodes[k])
    {
      ghost var was := contents;
      if |buffer| == 0 || |buffer| > MAX_BUFFER_SIZE {
        return PARAM_ERR;
      }
      var offset := 0;
      ghost var done: seq<Record>, goal := [], ParseRecords(buffer);
      assert buffer[0..] == buffer;
      JoinedNone(goal);
      WalksAll(goal, buffer, []);
      while offset < |buffer|
        invariant 0 <= offset <= |buffer|
        invariant Valid() && contents == was + done && Walks(goal, buffer[offset..], done)
        invariant forall k :: 0 <= k < |nodes| ==> nodes[k] in old(nodes) || fresh(nodes[k])
        decreases |buffer| - offset
      {
        var ok;
        ok, offset, done := ParseNext(buffer, offset, goal, was, done);
        if !ok {
          return OPERA_FAIL;
        }
      }
      return OPERA_SUCC;
    }
  }

  /** The complete record b starts with. */
  function FirstRecord(b: seq<byte>): (r: Option<Record>)
    ensures r.Some? ==> HEADER_LEN + |r.value.value| <= |b|
  {
    if |b| < HEADER_LEN || LengthAt(b) > |b| - HEADER_LEN then None
    else Some(Record(TypeAt(b), b[HEADER_LEN..HEADER_LEN + LengthAt(b)]))
  }

  /** Walking over b record by record, with done behind it, comes to goal. */
  predicate Walks(goal: Option<seq<Record>>, b: seq<byte>, done: seq<Record>)
    decreases |b|
  {
    if |b| == 0 then goal == Some(done)
    else
      var first := FirstRecord(b);
      if first.None? then goal.None? else Walks(goal, b[HEADER_LEN + |first.value.value|..], done + [first.value])
  }

  lemma WalksOn(goal: Option<seq<Record>>, b: seq<byte>, i: nat, done: seq<Record>, r: Record)
    requires i < |b| && Walks(goal, b[i..], done) && FirstRecord(b[i..]) == Some(r)
    ensures var next := i + HEADER_LEN + |r.value|; next <= |b| && Walks(goal, b[next..], done + [r])
  {
    assert b[i..][HEADER_LEN + |r.value|..] == b[i + HEADER_LEN + |r.value|..];
  }

  lemma {:induction false} WalksAll(goal: Option<seq<Record>>, b: seq<byte>, done: seq<Record>)
    requires goal == Joined(done, ParseRecords(b))
    ensures Walks(goal, b, done)
    decreases |b|
  {
    var first := FirstRecord(b);
    if |b| == 0 {
      assert done + [] == done;
    } else if first.Some? {
      ParseOne(done, b, first.value);
      WalksAll(goal, b[HEADER_LEN + LengthAt(b)..], done + [first.value]);
    }
  }

  function Joined(done: seq<Record>, rest: Option<seq<Record>>): Option<seq<Record>> {
    if rest.None? then None else Some(done + rest.value)
  }

  lemma JoinedNone(rest: Option<seq<Record>>)
    ensures Joined([], rest) == rest
  {
    if rest.Some? {
      assert [] + rest.value == rest.value;
    }
  }

  lemma ParseOne(done: seq<Record>, b: seq<byte>, r: Record)
    requires |b| >= HEADER_LEN && HEADER_LEN + LengthAt(b) <= |b|
    requires r == Record(TypeAt(b), b[HEADER_LEN..HEADER_LEN + LengthAt(b)])
    ensures Joined(done, ParseRecords(b)) == Joined(done + [r], ParseRecords(b[HEADER_LEN + LengthAt(b)..]))
  {
    var rest := ParseRecords(b[HEADER_LEN + LengthAt(b)..]);
    if rest.Some? {
      assert done + ([r] + rest.value) == (done + [r]) + rest.value;
    }
  }

  /** The first record of the type. */
  function FirstOfType(rs: seq<Record>, t: i32): (r: Option<Record>)
    ensures r.Some? ==> r.value in rs && r.value.typ == t
  {
    if |rs| == 0 then None else if rs[0].typ == t then Some(rs[0]) else FirstOfType(rs[1..], t)
  }

  function Uint32Of(rs: seq<Record>, t: i32): Option<u32> {
    var r := FirstOfType(rs, t);
    if r.None? || |r.value.value| != 4 then None else Some(U32Of(r.value.value))
  }

  function Int32Of(rs: seq<Record>, t: i32): Option<i32> {
    var r := FirstOfType(rs, t);
    if r.None? || |r.value.value| != 4 then None else Some(I32OfU32(U32Of(r.value.value)))
  }

  function Uint64Of(rs: seq<Record>, t: i32): Option<u64> {
    var r := FirstOfType(rs, t);
    if r.None? || |r.value.value| != 8 then None else Some(U64Of(r.value.value))
  }

  function BuffOf(rs: seq<Record>, t: i32): Option<seq<byte>> {
    var r := FirstOfType(rs, t);
    if r.None? || |r.value.value| == 0 || |r.value.value| > MAX_BUFFER_SIZE then None else Some(r.value.value)
  }

  /** Record k is the first of the type, and its value is b. */
  predicate FirstIs(rs: seq<Record>, t: i32, k: nat, b: seq<byte>) {
    k < |rs| && rs[k] == Record(t, b) && forall j :: 0 <= j < k ==> rs[j].typ != t
  }

  lemma {:induction false} FirstOfTypeIff(rs: seq<Record>, t: i32, b: seq<byte>)
    ensures FirstOfType(rs, t) == Some(Record(t, b)) <==> exists k: nat :: FirstIs(rs, t, k, b)
  {
    if |rs| > 0 {
      FirstOfTypeIff(rs[1..], t, b);
      if rs[0].typ == t {
        assert rs[0].value == b ==> FirstIs(rs, t, 0, b);
      } else {
        if k: nat :| FirstIs(rs[1..], t, k, b) {
          assert forall j :: 1 <= j < k + 1 ==> rs[j] == rs[1..][j - 1];
          assert FirstIs(rs, t, k + 1, b);
        }
        if k: nat :| FirstIs(rs, t, k, b) {
          assert FirstIs(rs[1..], t, k - 1, b);
        }
      }
    }
  }

  lemma WordIff(b: seq<byte>, w: u32)
    ensures b == LeBytes(w, 4) <==> |b| == 4 && U32Of(b) == w
  {
    assert U32Of(U32Bytes(w)) == w && U32Bytes(w) == LeBytes(w, 4);
    if |b| == 4 {
      U32BytesOf(b);
    }
  }

  lemma LongIff(b: seq<byte>, q: u64)
    ensures b == LeBytes(q, 8) <==> |b| == 8 && U64Of(b) == q
  {
    assert U64Of(U64Bytes(q)) == q && U64Bytes(q) == LeBytes(q, 8);
    if |b| == 8 {
      LeBytesOfValue(b);
    }
  }

  /** A lookup finds a number exactly when the first record of the type is its little-endian bytes, and a buffer exactly
      when that record is not empty and not too long. */
  lemma LookupIff(rs: seq<Record>, t: i32, w: u32, q: u64, b: seq<byte>)
    ensures Uint32Of(rs, t) == Some(w) <==> exists k: nat :: FirstIs(rs, t, k, LeBytes(w, 4))
    ensures Uint64Of(rs, t) == Some(q) <==> exists k: nat :: FirstIs(rs, t, k, LeBytes(q, 8))
    ensures BuffOf(rs, t) == Some(b) <==> 0 < |b| <= 512000 && exists k: nat :: FirstIs(rs, t, k, b)
    ensures Int32Of(rs, t) == (if Uint32Of(rs, t).None? then None
                               else Some(if Uint32Of(rs, t).value < 0x8000_0000 then Uint32Of(rs, t).value
                                         else Uint32Of(rs, t).value - 0x1_0000_0000))
  {
    var r := FirstOfType(rs, t);
    FirstOfTypeIff(rs, t, LeBytes(w, 4));
    FirstOfTypeIff(rs, t, LeBytes(q, 8));
    FirstOfTypeIff(rs, t, b);
    if r.Some? {
      WordIff(r.value.value, w);
      LongIff(r.value.value, q);
    }
  }
}
