/** Unpacking packed attributes, and how the two decoders of the format agree. */
module AttributeCodec {
  import opened Base
  import opened AttributeValues
  import opened Tlv
  import ExecutorMessage

  /** Done: the object afterwards. Rejected: nullptr, and the object with what was stored before. Unmodelled: the code
      reads the type of a tag its table does not have, or an offset passes 32 bits. */
  datatype Unpacked<+A> = Done(a: A) | Rejected(a: A) | Unmodelled

  /** What the type table makes of a tag and a length. */
  datatype Verdict = Undefined | Refused | Skipped | Taken

  /** GetUint32FromUint8: too few bytes read as ALGORITHM_INFO. */
  function Word(s: seq<byte>, i: nat): u32 {
    if i + 4 <= |s| then U32Of(s[i..i + 4]) else ALGORITHM_INFO
  }

  function Judge(a: Attrs, tag: u32, n: nat): Verdict {
    if !Known(a, tag) then Undefined
    else if !LengthPasses(TableType(tag), n) then Refused
    else if TableType(tag) == NOTYPE then Skipped
    else Taken
  }

  /** Storing an unpacked value; an empty byte array leaves no trace. */
  function Store(a: Attrs, tag: u32, payload: seq<byte>): Attrs {
    var t := TableType(tag);
    if t == NOTYPE || !LengthPasses(t, |payload|) || (t == UINT8ARRAYTYPE && payload == []) then a
    else Set(a, tag, ValueOf(t, payload)).1
  }

  /** The loop of Unpack over the bytes s that start at offset i. */
  function UnpackLoop<A>(judge: (A, u32, nat) -> Verdict, store: (A, u32, seq<byte>) -> A, a: A, s: seq<byte>, i: nat)
    : Unpacked<A>
    decreases |s|
  {
    if |s| == 0 then Done(a)
    else
      var tag, n := Word(s, 0), Word(s, 4);
      var verdict := judge(a, tag, n);
      if verdict.Undefined? || i + 8 + n > 0xFFFF_FFFF then Unmodelled
      else if 8 + n > |s| || verdict.Refused? then Rejected(a)
      else if verdict.Skipped? then UnpackLoop(judge, store, a, s[8..], i + 8)
      else UnpackLoop(judge, store, store(a, tag, s[8..8 + n]), s[8 + n..], i + 8 + n)
  }

  /** Unpack: two headers are skipped, everything after them is attributes, the signature included. */
  function Unpack(a: Attrs, b: seq<byte>): Unpacked<Attrs> {
    if |b| == 0 then Rejected(a) else if |b| <= 16 then Done(a) else UnpackLoop(Judge, Store, a, b[16..], 16)
  }

  // ----- unpacking what was packed ---------------------------------------------------------------

  lemma RecordHeader(tag: u32, payload: seq<byte>, rest: seq<byte>)
    requires |payload| <= 0xFFFF_FFFF
    ensures var s := RecordBytes(RecordOf(tag, payload)) + rest;
            && |s| == 8 + |payload| + |rest|
            && Word(s, 0) == tag && Word(s, 4) == |payload|
            && s[8..8 + |payload|] == payload && s[8 + |payload|..] == rest
  {
    var s := RecordBytes(RecordOf(tag, payload)) + rest;
    assert s[0..4] == U32Bytes(tag);
    assert s[4..8] == U32Bytes(Count(|payload|));
  }

  /** The judge takes the record in every state. */
  ghost predicate TakenBy<A(!new)>(judge: (A, u32, nat) -> Verdict, r: Record) {
    forall a :: judge(a, U32OfI32(r.typ), |r.value|) == Taken
  }

  lemma UnpackRecord<A(!new)>(judge: (A, u32, nat) -> Verdict, store: (A, u32, seq<byte>) -> A, a: A, r: Record,
                              rest: seq<byte>, i: nat)
    requires TakenBy(judge, r) && i + 8 + |r.value| <= 0xFFFF_FFFF
    ensures UnpackLoop(judge, store, a, RecordBytes(r) + rest, i) ==
            UnpackLoop(judge, store, store(a, U32OfI32(r.typ), r.value), rest, i + 8 + |r.value|)
  {
    var tag := U32OfI32(r.typ);
    assert r == RecordOf(tag, r.value);
    RecordHeader(tag, r.value, rest);
    assert judge(a, tag, |r.value|) == Taken;
  }

  /** A loop that takes an object, the bytes still to come and their offset. */
  type Loop<!A, +U> = (A, seq<byte>, nat) -> U

  function LoopOf<A>(judge: (A, u32, nat) -> Verdict, store: (A, u32, seq<byte>) -> A): Loop<A, Unpacked<A>> {
    (a: A, s: seq<byte>, i: nat) => UnpackLoop(judge, store, a, s, i)
  }

  /** Over the bytes b of a record r the loop stores the record and goes on with what follows. */
  ghost predicate StepsOver<A(!new), U(!new)>(loop: Loop<A, U>, store: (A, u32, seq<byte>) -> A, r: Record,
                                              b: seq<byte>) {
    forall a, rest, i: nat :: i + |b| <= 0xFFFF_FFFF ==>
      loop(a, b + rest, i) == loop(store(a, U32OfI32(r.typ), r.value), rest, i + |b|)
  }

  lemma LoopStepsOver<A(!new)>(judge: (A, u32, nat) -> Verdict, store: (A, u32, seq<byte>) -> A, a: A, r: Record,
                               b: seq<byte>, rest: seq<byte>, i: nat)
    requires TakenBy(judge, r) && b == RecordBytes(r) && i + |b| <= 0xFFFF_FFFF
    ensures LoopOf(judge, store)(a, b + rest, i) ==
            LoopOf(judge, store)(store(a, U32OfI32(r.typ), r.value), rest, i + |b|)
  {
    UnpackRecord(judge, store, a, r, rest, i);
  }

  lemma RecordStepsOver<A(!new)>(judge: (A, u32, nat) -> Verdict, store: (A, u32, seq<byte>) -> A, r: Record)
    requires TakenBy(judge, r)
    ensures StepsOver(LoopOf(judge, store), store, r, RecordBytes(r))
  {
    var loop, b := LoopOf(judge, store), RecordBytes(r);
    forall a, rest, i: nat | i + |b| <= 0xFFFF_FFFF
      ensures loop(a, b + rest, i) == loop(store(a, U32OfI32(r.typ), r.value), rest, i + |b|)
    {
      LoopStepsOver(judge, store, a, r, b, rest, i);
    }
  }

  function StoreAll<A>(store: (A, u32, seq<byte>) -> A, a: A, rs: seq<Record>): A
    decreases |rs|
  {
    if |rs| == 0 then a else StoreAll(store, store(a, U32OfI32(rs[0].typ), rs[0].value), rs[1..])
  }

  ghost predicate AllStepOver<A(!new), U(!new)>(loop: Loop<A, U>, store: (A, u32, seq<byte>) -> A, rs: seq<Record>,
                                                encode: Record -> seq<byte>)
    decreases |rs|
  {
    |rs| == 0 || (StepsOver(loop, store, rs[0], encode(rs[0])) && AllStepOver(loop, store, rs[1..], encode))
  }

  lemma UnpackStep<A(!new), U(!new)>(loop: Loop<A, U>, store: (A, u32, seq<byte>) -> A, a: A, r: Record, b: seq<byte>,
                                     more: seq<byte>, rest: seq<byte>, i: nat)
    requires StepsOver(loop, store, r, b) && i + |b| <= 0xFFFF_FFFF
    ensures loop(a, (b + more) + rest, i) == loop(store(a, U32OfI32(r.typ), r.value), more + rest, i + |b|)
  {
    assert (b + more) + rest == b + (more + rest);
  }

  /** Unpacking records stores them one after the other and goes on with rest. */
  lemma {:induction false} UnpackRecords<A(!new), U(!new)>(loop: Loop<A, U>, store: (A, u32, seq<byte>) -> A, a: A,
      rs: seq<Record>, encode: Record -> seq<byte>, rest: seq<byte>, i: nat)
    requires AllStepOver(loop, store, rs, encode) && i + |Records(rs, encode)| <= 0xFFFF_FFFF
    ensures loop(a, Records(rs, encode) + rest, i) == loop(StoreAll(store, a, rs), rest, i + |Records(rs, encode)|)
    decreases |rs|
  {
    if |rs| == 0 {
      assert [] + rest == rest;
    } else {
      var r, tail := rs[0], rs[1..];
      UnpackStep(loop, store, a, r, encode(r), Records(tail, encode), rest, i);
      UnpackRecords(loop, store, store(a, U32OfI32(r.typ), r.value), tail, encode, rest, i + |encode(r)|);
    }
  }

  lemma NotUntyped(v: Value)
    ensures v.Type() != NOTYPE
  {}

  /** An attribute Unpack does not bring back. */
  predicate Lost(v: Value) {
    v == Uint8Array([])
  }

  lemma StoredValue(a: Attrs, tag: u32, v: Value)
    requires v.Type() == TableType(tag)
    ensures Store(a, tag, Payload(v)) ==
            if Lost(v) then a else a.(values := a.values[tag := v], exist := a.exist + [tag])
  {
    ValueBack(v);
    NotUntyped(v);
  }

  predicate Typed(values: map<u32, Value>) {
    forall t :: t in values ==> values[t].Type() == TableType(t)
  }

  function Kept(values: map<u32, Value>, tags: seq<u32>): seq<u32>
    requires forall t :: t in tags ==> t in values
  {
    if |tags| == 0 then []
    else (if Lost(values[tags[0]]) then [] else [tags[0]]) + Kept(values, tags[1..])
  }

  /** The attributes among tags that Unpack brings back. */
  function KeptValues(values: map<u32, Value>, tags: seq<u32>): map<u32, Value>
    requires forall t :: t in tags ==> t in values
  {
    map t | t in tags && !Lost(values[t]) :: values[t]
  }

  lemma KeptValuesStep(base: map<u32, Value>, values: map<u32, Value>, tags: seq<u32>)
    requires |tags| > 0 && forall t :: t in tags ==> t in values
    ensures var v := values[tags[0]];
            (if Lost(v) then base else base[tags[0] := v]) + KeptValues(values, tags[1..]) ==
                base + KeptValues(values, tags)
  {
    assert forall t :: t in tags <==> t == tags[0] || t in tags[1..];
  }

  lemma {:induction false} StoreAllMeans(a: Attrs, values: map<u32, Value>, tags: seq<u32>, r: Attrs)
    requires Typed(values) && forall t :: t in tags ==> t in values
    requires r == StoreAll(Store, a, RecordsOf(values, tags))
    ensures r == Attrs(a.values + KeptValues(values, tags), a.seen, a.exist + Kept(values, tags))
    decreases |tags|
  {
    if |tags| == 0 {
      assert a.exist + [] == a.exist;
      assert a.values + KeptValues(values, tags) == a.values;
    } else {
      var tag, tail := tags[0], tags[1..];
      var b := Store(a, tag, Payload(values[tag]));
      assert RecordsOf(values, tags)[1..] == RecordsOf(values, tail);
      StoreAllMeans(b, values, tail, r);
      StoredStep(a, values, tags);
    }
  }

  lemma StoredStep(a: Attrs, values: map<u32, Value>, tags: seq<u32>)
    requires Typed(values) && |tags| > 0 && forall t :: t in tags ==> t in values
    ensures var b, tail := Store(a, tags[0], Payload(values[tags[0]])), tags[1..];
            && b.values + KeptValues(values, tail) == a.values + KeptValues(values, tags)
            && b.exist + Kept(values, tail) == a.exist + Kept(values, tags) && b.seen == a.seen
  {
    StoredValue(a, tags[0], values[tags[0]]);
    KeptValuesStep(a.values, values, tags);
    KeptStep(a.exist, values, tags);
  }

  lemma KeptStep(base: seq<u32>, values: map<u32, Value>, tags: seq<u32>)
    requires |tags| > 0 && forall t :: t in tags ==> t in values
    ensures (if Lost(values[tags[0]]) then base else base + [tags[0]]) + Kept(values, tags[1..]) ==
            base + Kept(values, tags)
  {}

  function PackedSize(a: Attrs): nat
    requires WellFormed(a)
  {
    |PackBytes(a)|
  }

  /** The tags in the order of the packed bytes. */
  function WireTags(a: Attrs): (r: seq<u32>)
    requires WellFormed(a)
    ensures forall t :: t in r <==> t in a.values
  {
    PackedTags(a) + (if AUTH_SIGNATURE in a.values then [AUTH_SIGNATURE] else [])
  }

  /** The records of the packed bytes after the two headers. */
  function WireRecords(a: Attrs): seq<Record>
    requires WellFormed(a)
  {
    PackedRecords(a) + [RecordOf(AUTH_SIGNATURE, Signature(a.values))]
  }

  lemma SkipHeaders(data: seq<byte>, sign: seq<byte>)
    ensures var b := ExecutorMessage.MessageOf(data, sign);
            b[16..] == data + RecordBytes(RecordOf(AUTH_SIGNATURE, sign)) && |b| == 24 + |data| + |sign|
  {
    AfterHeaders(Header(ExecutorMessage.AUTH_ROOT, Count(16 + |data| + |sign|)),
                 Header(ExecutorMessage.AUTH_DATA, Count(|data|)),
                 data, RecordBytes(RecordOf(AUTH_SIGNATURE, sign)));
  }

  lemma AfterHeaders(h: seq<byte>, k: seq<byte>, data: seq<byte>, rest: seq<byte>)
    requires |h| == 8 && |k| == 8
    ensures (h + ((k + data) + rest))[16..] == data + rest
  {}

  lemma PackedTail(a: Attrs)
    requires WellFormed(a)
    ensures |PackBytes(a)| == 16 + |Records(WireRecords(a), RecordBytes)| && |PackBytes(a)| > 16
    ensures PackBytes(a)[16..] == Records(WireRecords(a), RecordBytes)
  {
    SkipHeaders(DataBytes(a), Signature(a.values));
    RecordsSnoc(PackedRecords(a), RecordOf(AUTH_SIGNATURE, Signature(a.values)), RecordBytes);
  }

  lemma {:induction false} RecordsOfTaken(values: map<u32, Value>, tags: seq<u32>, k: nat)
    requires Typed(values) && (forall t :: t in tags ==> t in values) && k < |tags|
    ensures TakenBy(Judge, RecordsOf(values, tags)[k])
  {
    if k == 0 {
      ValueBack(values[tags[0]]);
      NotUntyped(values[tags[0]]);
    } else {
      RecordsOfTaken(values, tags[1..], k - 1);
    }
  }

  lemma SignatureTaken(values: map<u32, Value>)
    requires Typed(values)
    ensures TakenBy(Judge, RecordOf(AUTH_SIGNATURE, Signature(values)))
  {}

  lemma WireTaken(a: Attrs, k: nat)
    requires WellFormed(a) && k < |WireRecords(a)|
    ensures TakenBy(Judge, WireRecords(a)[k])
  {
    if k < |WireRecords(a)| - 1 {
      RecordsOfTaken(a.values, PackedTags(a), k);
    } else {
      SignatureTaken(a.values);
    }
  }

  lemma {:induction false} AllTaken<A(!new)>(judge: (A, u32, nat) -> Verdict, store: (A, u32, seq<byte>) -> A,
                                             rs: seq<Record>)
    requires forall k :: 0 <= k < |rs| ==> TakenBy(judge, rs[k])
    ensures AllStepOver(LoopOf(judge, store), store, rs, RecordBytes)
    decreases |rs|
  {
    if |rs| > 0 {
      assert TakenBy(judge, rs[0]);
      RecordStepsOver(judge, store, rs[0]);
      forall k | 0 <= k < |rs[1..]| ensures TakenBy(judge, rs[1..][k]) {
        assert rs[1..][k] == rs[k + 1];
      }
      AllTaken(judge, store, rs[1..]);
    }
  }

  lemma UnpackWire(rs: seq<Record>)
    requires (forall k :: 0 <= k < |rs| ==> TakenBy(Judge, rs[k])) && 16 + |Records(rs, RecordBytes)| <= 0xFFFF_FFFF
    ensures UnpackLoop(Judge, Store, FRESH, Records(rs, RecordBytes), 16) == Done(StoreAll(Store, FRESH, rs))
  {
    AllTaken(Judge, Store, rs);
    UnpackAll(Judge, Store, FRESH, rs, RecordBytes, 16);
  }

  lemma UnpackAll<A(!new)>(judge: (A, u32, nat) -> Verdict, store: (A, u32, seq<byte>) -> A, a: A, rs: seq<Record>,
                           encode: Record -> seq<byte>, i: nat)
    requires AllStepOver(LoopOf(judge, store), store, rs, encode)
    requires i + |Records(rs, encode)| <= 0xFFFF_FFFF
    ensures UnpackLoop(judge, store, a, Records(rs, encode), i) == Done(StoreAll(store, a, rs))
  {
    assert Records(rs, encode) + [] == Records(rs, encode);
    UnpackRecords(LoopOf(judge, store), store, a, rs, encode, [], i);
  }

  lemma UnpackPacked(a: Attrs)
    requires WellFormed(a) && PackedSize(a) <= 0xFFFF_FFFF
    ensures Unpack(FRESH, PackBytes(a)) == Done(StoreAll(Store, FRESH, WireRecords(a)))
  {
    PackedTail(a);
    forall k | 0 <= k < |WireRecords(a)| ensures TakenBy(Judge, WireRecords(a)[k]) {
      WireTaken(a, k);
    }
    UnpackWire(WireRecords(a));
  }

  lemma {:induction false} StoreAllSnoc<A>(store: (A, u32, seq<byte>) -> A, a: A, rs: seq<Record>, r: Record)
    ensures StoreAll(store, a, rs + [r]) == store(StoreAll(store, a, rs), U32OfI32(r.typ), r.value)
    decreases |rs|
  {
    if |rs| == 0 {
      assert rs + [r] == [r] && [r][1..] == [];
    } else {
      assert (rs + [r])[1..] == rs[1..] + [r] && (rs + [r])[0] == rs[0];
      StoreAllSnoc(store, store(a, U32OfI32(rs[0].typ), rs[0].value), rs[1..], r);
    }
  }

  lemma {:induction false} RecordsOfSnoc(values: map<u32, Value>, tags: seq<u32>, t: u32)
    requires t in values && forall x :: x in tags ==> x in values
    ensures RecordsOf(values, tags + [t]) == RecordsOf(values, tags) + [RecordOf(t, Payload(values[t]))]
  {
    if |tags| == 0 {
      assert tags + [t] == [t] && [t][1..] == [];
    } else {
      assert (tags + [t])[1..] == tags[1..] + [t] && (tags + [t])[0] == tags[0];
      RecordsOfSnoc(values, tags[1..], t);
    }
  }

  /** Storing the wire records stores the attributes in wire order. */
  lemma WireStored(a: Attrs)
    requires WellFormed(a)
    ensures StoreAll(Store, FRESH, WireRecords(a)) == StoreAll(Store, FRESH, RecordsOf(a.values, WireTags(a)))
  {
    if AUTH_SIGNATURE in a.values {
      RecordsOfSnoc(a.values, PackedTags(a), AUTH_SIGNATURE);
    } else {
      StoreAllSnoc(Store, FRESH, PackedRecords(a), RecordOf(AUTH_SIGNATURE, []));
      assert PackedTags(a) + [] == PackedTags(a);
    }
  }

  /** Unpacking into a fresh object brings back every attribute but the empty byte arrays. */
  lemma RoundTrip(a: Attrs)
    requires WellFormed(a) && PackedSize(a) <= 0xFFFF_FFFF
    ensures var u := Unpack(FRESH, PackBytes(a));
            && u.Done? && WellFormed(u.a)
            && u.a.values == (map t | t in a.values && !Lost(a.values[t]) :: a.values[t])
            && u.a.exist == Kept(a.values, WireTags(a))
  {
    UnpackPacked(a);
    WireStored(a);
    StoreAllMeans(FRESH, a.values, WireTags(a), StoreAll(Store, FRESH, RecordsOf(a.values, WireTags(a))));
    KeptOfWire(a);
  }

  lemma KeptOfWire(a: Attrs)
    requires WellFormed(a)
    ensures map[] + KeptValues(a.values, WireTags(a)) == (map t | t in a.values && !Lost(a.values[t]) :: a.values[t])
    ensures [] + Kept(a.values, WireTags(a)) == Kept(a.values, WireTags(a))
    ensures forall t :: t in Kept(a.values, WireTags(a)) <==> t in a.values && !Lost(a.values[t])
  {
    forall t ensures t in Kept(a.values, WireTags(a)) <==> t in a.values && !Lost(a.values[t]) {
      KeptIn(a.values, WireTags(a), t);
    }
  }

  lemma {:induction false} KeptIn(values: map<u32, Value>, tags: seq<u32>, t: u32)
    requires forall x :: x in tags ==> x in values
    ensures t in Kept(values, tags) <==> t in tags && !Lost(values[t])
  {
    if |tags| > 0 {
      KeptIn(values, tags[1..], t);
      assert t in tags <==> t == tags[0] || t in tags[1..];
    }
  }

  lemma NothingLost(values: map<u32, Value>, u: map<u32, Value>)
    requires u == map t | t in values && !Lost(values[t]) :: values[t]
    ensures u == values <==> forall t :: t in values ==> !Lost(values[t])
  {
    if u == values {
      forall t | t in values ensures !Lost(values[t]) {
        assert t in u;
      }
    }
  }

  /** The round trip is the identity on attributes exactly when no byte array is empty. */
  lemma RoundTripIff(a: Attrs)
    requires WellFormed(a) && PackedSize(a) <= 0xFFFF_FFFF
    ensures Unpack(FRESH, PackBytes(a)).Done?
    ensures Unpack(FRESH, PackBytes(a)).a.values == a.values <==> forall t :: t in a.values ==> !Lost(a.values[t])
  {
    RoundTrip(a);
    NothingLost(a.values, Unpack(FRESH, PackBytes(a)).a.values);
  }

  // ----- packing again ---------------------------------------------------------------------------

  lemma {:induction false} InsertSorted(x: u32, s: seq<u32>)
    requires Sorted(s)
    ensures Sorted(Insert(x, s))
  {
    if |s| > 0 && x > s[0] {
      InsertSorted(x, s[1..]);
      forall t ensures t in Insert(x, s[1..]) <==> t == x || t in s[1..] {
        InsertIn(x, s[1..], t);
      }
      var r := Insert(x, s[1..]);
      forall j | 0 <= j < |r| ensures s[0] <= r[j] {
        assert r[j] in r;
      }
    }
  }

  lemma {:induction false} SortSorted(s: seq<u32>)
    ensures Sorted(Sort(s))
  {
    if |s| > 0 {
      SortSorted(s[1..]);
      InsertSorted(s[0], Sort(s[1..]));
    }
  }

  lemma {:induction false} SortOfSorted(s: seq<u32>)
    requires Sorted(s)
    ensures Sort(s) == s
  {
    if |s| > 0 {
      SortOfSorted(s[1..]);
      assert s == [s[0]] + s[1..];
    }
  }

  lemma InsertAtFront(x: u32, s: seq<u32>)
    requires forall t :: t in s ==> x <= t
    ensures Insert(x, s) == [x] + s
  {
    if |s| > 0 {
      assert s[0] in s;
    }
  }

  lemma {:induction false} PlainInsert(x: u32, s: seq<u32>)
    requires Sorted(s)
    ensures Plain(Insert(x, s)) == if Special(x) then Plain(s) else Insert(x, Plain(s))
  {
    if |s| == 0 || x <= s[0] {
      assert ([x] + s)[1..] == s;
      forall t | t in Plain(s) ensures x <= t {
        PlainIn(s, t);
      }
      InsertAtFront(x, Plain(s));
    } else {
      PlainInsert(x, s[1..]);
      var r := Insert(x, s[1..]);
      assert Insert(x, s)[1..] == r && Insert(x, s)[0] == s[0];
      if !Special(s[0]) {
        assert Plain(s)[1..] == Plain(s[1..]) && Plain(s)[0] == s[0];
      }
    }
  }

  /** Sorting and dropping the special tags can be done in either order. */
  lemma {:induction false} PlainSort(s: seq<u32>)
    ensures Plain(Sort(s)) == Sort(Plain(s))
  {
    if |s| > 0 {
      PlainSort(s[1..]);
      SortSorted(s[1..]);
      PlainInsert(s[0], Sort(s[1..]));
      if !Special(s[0]) {
        assert Plain(s)[1..] == Plain(s[1..]) && Plain(s)[0] == s[0];
      }
    }
  }

  lemma {:induction false} PlainAppend(s: seq<u32>, t: seq<u32>)
    ensures Plain(s + t) == Plain(s) + Plain(t)
  {
    if |s| == 0 {
      assert s + t == t;
    } else {
      assert (s + t)[1..] == s[1..] + t;
      PlainAppend(s[1..], t);
    }
  }

  lemma {:induction false} PlainOfPlain(s: seq<u32>)
    ensures Plain(Plain(s)) == Plain(s)
  {
    if |s| > 0 {
      PlainOfPlain(s[1..]);
      if !Special(s[0]) {
        assert Plain(s)[1..] == Plain(s[1..]);
      }
    }
  }

  lemma {:induction false} PlainOfSorted(s: seq<u32>)
    requires Sorted(s)
    ensures Sorted(Plain(s))
  {
    SortOfSorted(s);
    PlainSort(s);
    SortSorted(Plain(s));
  }

  lemma {:induction false} KeptAll(values: map<u32, Value>, tags: seq<u32>)
    requires forall t :: t in tags ==> t in values && !Lost(values[t])
    ensures Kept(values, tags) == tags
  {
    if |tags| > 0 {
      KeptAll(values, tags[1..]);
      assert tags == [tags[0]] + tags[1..];
    }
  }

  /** Packing the unpacked object gives the same bytes, repeated tags and the moved signature notwithstanding. */
  lemma RepackSame(a: Attrs)
    requires WellFormed(a) && PackedSize(a) <= 0xFFFF_FFFF
    requires forall t :: t in a.values ==> !Lost(a.values[t])
    ensures Unpack(FRESH, PackBytes(a)).Done? && WellFormed(Unpack(FRESH, PackBytes(a)).a)
    ensures PackBytes(Unpack(FRESH, PackBytes(a)).a) == PackBytes(a)
  {
    RoundTrip(a);
    RoundTripIff(a);
    var u := Unpack(FRESH, PackBytes(a)).a;
    KeptAll(a.values, WireTags(a));
    var p := PackedTags(a);
    SortSorted(a.exist);
    PlainOfSorted(Sort(a.exist));
    PlainSort(u.exist);
    PlainAppend(p, if AUTH_SIGNATURE in a.values then [AUTH_SIGNATURE] else []);
    PlainOfPlain(Sort(a.exist));
    assert Plain([AUTH_SIGNATURE]) == [];
    assert p + [] == p;
    SortOfSorted(p);
    assert PackedTags(u) == p;
  }

  /** An object after any sequence of setter calls. */
  function Built(calls: seq<(u32, Value)>): Attrs {
    if |calls| == 0 then FRESH
    else Set(Built(calls[..|calls| - 1]), calls[|calls| - 1].0, calls[|calls| - 1].1).1
  }

  lemma {:induction false} BuiltWellFormed(calls: seq<(u32, Value)>)
    ensures WellFormed(Built(calls))
    ensures forall t :: t in Built(calls).values ==> (t, Built(calls).values[t]) in calls
  {
    if |calls| > 0 {
      var n := |calls| - 1;
      BuiltWellFormed(calls[..n]);
      SetWellFormed(Built(calls[..n]), calls[n].0, calls[n].1);
      assert calls[n] in calls;
      forall t | t in Built(calls[..n]).values ensures (t, Built(calls[..n]).values[t]) in calls {
        assert (t, Built(calls[..n]).values[t]) in calls[..n];
      }
    }
  }

  lemma OneTag(a: Attrs, tag: u32)
    requires WellFormed(a) && a.exist == [tag] && !Special(tag)
    ensures PackedTags(a) == [tag]
  {
    assert [tag][1..] == [];
    assert Sort([tag]) == Insert(tag, Sort([tag][1..])) == [tag];
    assert Plain([tag]) == [tag] + Plain([tag][1..]) == [tag];
  }

  lemma OneRecord(a: Attrs, tag: u32)
    requires WellFormed(a) && PackedTags(a) == [tag]
    ensures DataBytes(a) == RecordBytes(RecordOf(tag, Payload(a.values[tag])))
  {
    var r := RecordOf(tag, Payload(a.values[tag]));
    assert |[tag][1..]| == 0 && RecordsOf(a.values, [tag]) == [r] + RecordsOf(a.values, [tag][1..]) == [r];
    ExecutorMessage.TwoRecords(r, r, RecordBytes);
  }

  lemma OneRecordSize(a: Attrs, tag: u32)
    requires WellFormed(a) && PackedTags(a) == [tag] && AUTH_SIGNATURE !in a.values
    ensures PackedSize(a) == 32 + |Payload(a.values[tag])|
  {
    OneRecord(a, tag);
    SkipHeaders(DataBytes(a), []);
  }

  lemma OneEmptyArray(a: Attrs, tag: u32)
    requires TableType(tag) == UINT8ARRAYTYPE && tag != AUTH_SIGNATURE && !Special(tag)
    requires a == Set(FRESH, tag, Uint8Array([])).1
    ensures WellFormed(a) && PackedSize(a) == 32 && tag in a.values
    ensures Unpack(FRESH, PackBytes(a)).Done? && Unpack(FRESH, PackBytes(a)).a.values == map[]
  {
    assert [] + [tag] == [tag];
    OneTag(a, tag);
    OneRecordSize(a, tag);
    RoundTrip(a);
  }

  /** Such an object: its one attribute is an empty byte array, and is gone after the round trip. */
  lemma EmptyArrayLost()
    ensures var a := Built([(AUTH_RESULT, Uint8Array([]))]);
            && WellFormed(a) && PackedSize(a) == 32 && AUTH_RESULT in a.values
            && Unpack(FRESH, PackBytes(a)).Done? && Unpack(FRESH, PackBytes(a)).a.values == map[]
  {
    var calls := [(AUTH_RESULT, Uint8Array([]))];
    assert |calls[..0]| == 0 && Built(calls[..0]) == FRESH;
    OneEmptyArray(Built(calls), AUTH_RESULT);
  }

  /** Whatever was set, if no byte array was empty and the packed size fits 32 bits: unpacking what was packed gives
      all values back, and packing that again the same bytes. */
  lemma BuiltRoundTrip(calls: seq<(u32, Value)>)
    requires forall k :: 0 <= k < |calls| ==> !Lost(calls[k].1)
    ensures WellFormed(Built(calls))
    ensures PackedSize(Built(calls)) <= 0xFFFF_FFFF ==>
              var u := Unpack(FRESH, PackBytes(Built(calls)));
              && u.Done? && u.a.values == Built(calls).values && WellFormed(u.a)
                 && PackBytes(u.a) == PackBytes(Built(calls))
  {
    BuiltWellFormed(calls);
    var a := Built(calls);
    forall t | t in a.values ensures !Lost(a.values[t]) {
      var k :| 0 <= k < |calls| && calls[k] == (t, a.values[t]);
    }
    if PackedSize(a) <= 0xFFFF_FFFF {
      RoundTripIff(a);
      RepackSame(a);
    }
  }

  // ----- what is not the packed form -------------------------------------------------------------

  /** The record at the start of s is refused by an object that knows its tag: its length is wrong for the type, or its
      value is cut short. */
  predicate BadRecord(a: Attrs, s: seq<byte>) {
    && |s| >= 8 && Known(a, U32Of(s[0..4])) && TableType(U32Of(s[0..4])) != NOTYPE
    && (U32Of(s[4..8]) > |s| - 8 || WrongLength(TableType(U32Of(s[0..4])), U32Of(s[4..8])))
  }

  predicate WrongLength(t: ValueType, n: nat) {
    (t == BOOLTYPE && n != 1) || (t == UINT32TYPE && n != 4) || (t == UINT64TYPE && n != 8)
  }

  lemma BadRecordRejected(a: Attrs, s: seq<byte>, i: nat)
    requires BadRecord(a, s) && i + 8 + U32Of(s[4..8]) <= 0xFFFF_FFFF
    ensures LoopOf(Judge, Store)(a, s, i) == Rejected(a)
  {
    assert Word(s, 0) == U32Of(s[0..4]) && Word(s, 4) == U32Of(s[4..8]);
  }

  /** The records have tags with a type, and lengths that are right for it. */
  predicate AllGood(rs: seq<Record>) {
    forall k :: 0 <= k < |rs| ==>
      && TableType(U32OfI32(rs[k].typ)) != NOTYPE && |rs[k].value| <= 0xFFFF_FFFF
      && !WrongLength(TableType(U32OfI32(rs[k].typ)), |rs[k].value|)
  }

  lemma GoodTaken(rs: seq<Record>)
    requires AllGood(rs)
    ensures AllStepOver(LoopOf(Judge, Store), Store, rs, RecordBytes)
  {
    forall k | 0 <= k < |rs| ensures TakenBy(Judge, rs[k]) {}
    AllTaken(Judge, Store, rs);
  }

  /** Unpacking bytes that after two headers hold good records stores these in order; when a bad record follows, exactly
      these are stored and the bytes are refused. */
  lemma UnpackStores(a: Attrs, headers: seq<byte>, rs: seq<Record>, bad: seq<byte>)
    requires |headers| == 16 && AllGood(rs) && 16 + |Records(rs, RecordBytes)| <= 0xFFFF_FFFF
    ensures rs != [] ==> Unpack(a, headers + Records(rs, RecordBytes)) == Done(StoreAll(Store, a, rs))
    ensures var stored, start := StoreAll(Store, a, rs), 16 + |Records(rs, RecordBytes)|;
            BadRecord(stored, bad) && start + 8 + U32Of(bad[4..8]) <= 0xFFFF_FFFF ==>
              Unpack(a, headers + (Records(rs, RecordBytes) + bad)) == Rejected(stored)
  {
    var body := Records(rs, RecordBytes);
    var stored := StoreAll(Store, a, rs);
    GoodTaken(rs);
    UnpackRecords(LoopOf(Judge, Store), Store, a, rs, RecordBytes, [], 16);
    UnpackRecords(LoopOf(Judge, Store), Store, a, rs, RecordBytes, bad, 16);
    assert body + [] == body && (headers + body)[16..] == body && (headers + (body + bad))[16..] == body + bad;
    if BadRecord(stored, bad) && 16 + |body| + 8 + U32Of(bad[4..8]) <= 0xFFFF_FFFF {
      BadRecordRejected(stored, bad, 16 + |body|);
    }
    if rs != [] {
      assert |body| >= |RecordBytes(rs[0])| >= 8;
    }
  }

  /** Nothing but headers stores nothing; no bytes at all are refused. */
  lemma UnpackHeaders(a: Attrs, b: seq<byte>)
    requires |b| <= 16
    ensures Unpack(a, b) == if b == [] then Rejected(a) else Done(a)
  {}
}
