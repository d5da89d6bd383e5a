/** The class of auth_attributes.cpp: typed maps of values, the type table and the list of set tags. */
module AttributeObject {
  import opened Base
  import opened AttributeValues
  import opened AttributeCodec
  import opened Tlv
  import ExecutorMessage

  /** What Unpack returns: this, nullptr, or nothing the code defines. */
  datatype Outcome = Self | Null | Undetermined

  predicate OfType<T>(m: map<u32, T>, t: ValueType) {
    forall tag :: tag in m ==> TableType(tag) == t
  }

  lemma Disjoint(bools: map<u32, bool>, words: map<u32, u32>, longs: map<u32, u64>, bytes: map<u32, seq<byte>>,
                 arrays: map<u32, seq<u64>>, tag: u32)
    requires TypedMaps(bools, words, longs, bytes, arrays)
    ensures TableType(tag) != BOOLTYPE ==> tag !in bools
    ensures TableType(tag) != UINT32TYPE ==> tag !in words
    ensures TableType(tag) != UINT64TYPE ==> tag !in longs
    ensures TableType(tag) != UINT8ARRAYTYPE ==> tag !in bytes
    ensures TableType(tag) != UINT64ARRAYTYPE ==> tag !in arrays
  {}

  /** The type table agrees with TableType; it may have gained tags without a type. */
  predicate TableOk(positions: map<u32, ValueType>) {
    && (forall t :: t in positions ==> positions[t] == TableType(t))
    && (forall t :: TableType(t) != NOTYPE ==> t in positions)
  }

  function Untyped(positions: map<u32, ValueType>): set<u32> {
    set t | t in positions && positions[t] == NOTYPE
  }

  predicate TypedMaps(bools: map<u32, bool>, words: map<u32, u32>, longs: map<u32, u64>, bytes: map<u32, seq<byte>>,
                      arrays: map<u32, seq<u64>>) {
    && OfType(bools, BOOLTYPE) && OfType(words, UINT32TYPE) && OfType(longs, UINT64TYPE)
    && OfType(bytes, UINT8ARRAYTYPE) && OfType(arrays, UINT64ARRAYTYPE)
  }

  /** The value under a tag in the first map that has it. */
  function At(bools: map<u32, bool>, words: map<u32, u32>, longs: map<u32, u64>, bytes: map<u32, seq<byte>>,
              arrays: map<u32, seq<u64>>, t: u32): Option<Value> {
    if t in bools then Some(BoolValue(bools[t]))
    else if t in words then Some(Uint32Value(words[t]))
    else if t in longs then Some(Uint64Value(longs[t]))
    else if t in bytes then Some(Uint8Array(bytes[t]))
    else if t in arrays then Some(Uint64Array(arrays[t]))
    else None
  }

  /** The values of all maps together. */
  function Join(bools: map<u32, bool>, words: map<u32, u32>, longs: map<u32, u64>, bytes: map<u32, seq<byte>>,
                arrays: map<u32, seq<u64>>): (r: map<u32, Value>)
    ensures forall t :: t in r <==> At(bools, words, longs, bytes, arrays, t).Some?
    ensures forall t :: t in r ==> Some(r[t]) == At(bools, words, longs, bytes, arrays, t)
  {
    map t | t in bools.Keys + words.Keys + longs.Keys + bytes.Keys + arrays.Keys ::
      At(bools, words, longs, bytes, arrays, t).value
  }

  lemma SameJoin(bools: map<u32, bool>, words: map<u32, u32>, longs: map<u32, u64>, bytes: map<u32, seq<byte>>,
                 arrays: map<u32, seq<u64>>, bools1: map<u32, bool>, words1: map<u32, u32>, longs1: map<u32, u64>,
                 bytes1: map<u32, seq<byte>>, arrays1: map<u32, seq<u64>>, tag: u32, v: Value)
    requires forall t :: At(bools1, words1, longs1, bytes1, arrays1, t) ==
                         if t == tag then Some(v) else At(bools, words, longs, bytes, arrays, t)
    ensures Join(bools1, words1, longs1, bytes1, arrays1) == Join(bools, words, longs, bytes, arrays)[tag := v]
  {}

  lemma TypedSet(bools: map<u32, bool>, words: map<u32, u32>, longs: map<u32, u64>, bytes: map<u32, seq<byte>>,
                 arrays: map<u32, seq<u64>>, tag: u32, v: Value)
    requires TypedMaps(bools, words, longs, bytes, arrays) && TableType(tag) == v.Type()
    ensures TypedMaps(if v.BoolValue? then bools[tag := v.b] else bools,
                      if v.Uint32Value? then words[tag := v.w] else words,
                      if v.Uint64Value? then longs[tag := v.q] else longs,
                      if v.Uint8Array? then bytes[tag := v.bs] else bytes,
                      if v.Uint64Array? then arrays[tag := v.qs] else arrays)
  {}

  /** Storing a value in the map of its type stores it in the join. */
  lemma JoinSet(bools: map<u32, bool>, words: map<u32, u32>, longs: map<u32, u64>, bytes: map<u32, seq<byte>>,
                arrays: map<u32, seq<u64>>, tag: u32, v: Value)
    requires TypedMaps(bools, words, longs, bytes, arrays) && TableType(tag) == v.Type()
    ensures var bools1 := if v.BoolValue? then bools[tag := v.b] else bools;
            var words1 := if v.Uint32Value? then words[tag := v.w] else words;
            var longs1 := if v.Uint64Value? then longs[tag := v.q] else longs;
            var bytes1 := if v.Uint8Array? then bytes[tag := v.bs] else bytes;
            var arrays1 := if v.Uint64Array? then arrays[tag := v.qs] else arrays;
            && TypedMaps(bools1, words1, longs1, bytes1, arrays1)
            && Join(bools1, words1, longs1, bytes1, arrays1) == Join(bools, words, longs, bytes, arrays)[tag := v]
  {
    TypedSet(bools, words, longs, bytes, arrays, tag, v);
    Disjoint(bools, words, longs, bytes, arrays, tag);
    match v
    case BoolValue(x) => SameJoin(bools, words, longs, bytes, arrays, bools[tag := x], words, longs, bytes, arrays, tag,
                                  v);
    case Uint32Value(x) => SameJoin(bools, words, longs, bytes, arrays, bools, words[tag := x], longs, bytes, arrays,
                                    tag, v);
    case Uint64Value(x) => SameJoin(bools, words, longs, bytes, arrays, bools, words, longs[tag := x], bytes, arrays,
                                    tag, v);
    case Uint8Array(x) => SameJoin(bools, words, longs, bytes, arrays, bools, words, longs, bytes[tag := x], arrays,
                                   tag, v);
    case Uint64Array(x) => SameJoin(bools, words, longs, bytes, arrays, bools, words, longs, bytes, arrays[tag := x],
                                    tag, v);
  }

  class AuthAttributes {
    var boolValues: map<u32, bool>
    var uint32Values: map<u32, u32>
    var uint64Values: map<u32, u64>
    var uint8Arrays: map<u32, seq<byte>>
    var uint64Arrays: map<u32, seq<u64>>
    var positions: map<u32, ValueType>
    var existAttributes: seq<u32>

    ghost function View(): Attrs
      reads this
    {
      Attrs(Join(boolValues, uint32Values, uint64Values, uint8Arrays, uint64Arrays), Untyped(positions),
            existAttributes)
    }

    ghost predicate Valid()
      reads this
    {
      && TypedMaps(boolValues, uint32Values, uint64Values, uint8Arrays, uint64Arrays)
      && TableOk(positions) && WellFormed(View())
    }

    constructor ()
      ensures Valid() && View() == FRESH
    {
      boolValues, uint32Values, uint64Values, uint8Arrays, uint64Arrays := map[], map[], map[], map[], map[];
      positions := INITIAL;
      existAttributes := [];
      new;
      InitialTable();
    }

    /** operator[] on the type table: an absent tag is entered with no type. */
    method Position(tag: u32) returns (t: ValueType)
      requires Valid()
      modifies this`positions
      ensures Valid() && t == TableType(tag)
      ensures View() == old(if t == NOTYPE then View().(seen := View().seen + {tag}) else View())
    {
      if tag !in positions {
        positions := positions[tag := NOTYPE];
      }
      t := positions[tag];
    }

    method SetBoolValue(tag: u32, value: bool) returns (ok: bool)
      requires Valid()
      modifies this
      ensures Valid() && (ok, View()) == old(Set(View(), tag, BoolValue(value)))
    {
      var t := Position(tag);
      if t != BOOLTYPE {
        return false;
      }
      PutBoolValue(tag, value);
      return true;
    }

    method PutBoolValue(tag: u32, value: bool)
      requires Valid() && TableType(tag) == BOOLTYPE
      modifies this
      ensures Valid() && (true, View()) == old(Set(View(), tag, BoolValue(value)))
    {
      JoinSet(boolValues, uint32Values, uint64Values, uint8Arrays, uint64Arrays, tag, BoolValue(value));
      SetWellFormed(View(), tag, BoolValue(value));
      boolValues := boolValues[tag := value];
      existAttributes := existAttributes + [tag];
    }

    method SetUint32Value(tag: u32, value: u32) returns (ok: bool)
      requires Valid()
      modifies this
      ensures Valid() && (ok, View()) == old(Set(View(), tag, Uint32Value(value)))
    {
      var t := Position(tag);
      if t != UINT32TYPE {
        return false;
      }
      PutUint32Value(tag, value);
      return true;
    }

    method PutUint32Value(tag: u32, value: u32)
      requires Valid() && TableType(tag) == UINT32TYPE
      modifies this
      ensures Valid() && (true, View()) == old(Set(View(), tag, Uint32Value(value)))
    {
      JoinSet(boolValues, uint32Values, uint64Values, uint8Arrays, uint64Arrays, tag, Uint32Value(value));
      SetWellFormed(View(), tag, Uint32Value(value));
      uint32Values := uint32Values[tag := value];
      existAttributes := existAttributes + [tag];
    }

    method SetUint64Value(tag: u32, value: u64) returns (ok: bool)
      requires Valid()
      modifies this
      ensures Valid() && (ok, View()) == old(Set(View(), tag, Uint64Value(value)))
    {
      var t := Position(tag);
      if t != UINT64TYPE {
        return false;
      }
      PutUint64Value(tag, value);
      return true;
    }

    method PutUint64Value(tag: u32, value: u64)
      requires Valid() && TableType(tag) == UINT64TYPE
      modifies this
      ensures Valid() && (true, View()) == old(Set(View(), tag, Uint64Value(value)))
    {
      JoinSet(boolValues, uint32Values, uint64Values, uint8Arrays, uint64Arrays, tag, Uint64Value(value));
      SetWellFormed(View(), tag, Uint64Value(value));
      uint64Values := uint64Values[tag := value];
      existAttributes := existAttributes + [tag];
    }

    method SetUint8ArrayValue(tag: u32, value: seq<byte>) returns (ok: bool)
      requires Valid()
      modifies this
      ensures Valid() && (ok, View()) == old(Set(View(), tag, Uint8Array(value)))
    {
      var t := Position(tag);
      if t != UINT8ARRAYTYPE {
        return false;
      }
      PutUint8Array(tag, value);
      return true;
    }

    method PutUint8Array(tag: u32, value: seq<byte>)
      requires Valid() && TableType(tag) == UINT8ARRAYTYPE
      modifies this
      ensures Valid() && (true, View()) == old(Set(View(), tag, Uint8Array(value)))
    {
      ghost var stored := Set(View(), tag, Uint8Array(value)).1;
      SetWellFormed(View(), tag, Uint8Array(value));
      JoinSet(boolValues, uint32Values, uint64Values, uint8Arrays, uint64Arrays, tag, Uint8Array(value));
      uint8Arrays := uint8Arrays[tag := value];
      existAttributes := existAttributes + [tag];
      assert View().values == stored.values;
      assert View() == stored;
    }

    method SetUint64ArrayValue(tag: u32, value: seq<u64>) returns (ok: bool)
      requires Valid()
      modifies this
      ensures Valid() && (ok, View()) == old(Set(View(), tag, Uint64Array(value)))
    {
      var t := Position(tag);
      if t != UINT64ARRAYTYPE {
        return false;
      }
      PutUint64Array(tag, value);
      return true;
    }

    method PutUint64Array(tag: u32, value: seq<u64>)
      requires Valid() && TableType(tag) == UINT64ARRAYTYPE
      modifies this
      ensures Valid() && (true, View()) == old(Set(View(), tag, Uint64Array(value)))
    {
      ghost var stored := Set(View(), tag, Uint64Array(value)).1;
      SetWellFormed(View(), tag, Uint64Array(value));
      JoinSet(boolValues, uint32Values, uint64Values, uint8Arrays, uint64Arrays, tag, Uint64Array(value));
      uint64Arrays := uint64Arrays[tag := value];
      existAttributes := existAttributes + [tag];
      assert View().values == stored.values;
      assert View() == stored;
    }

    /** No tag of the table has this type, so nothing is ever stored. */
    method SetUint32ArrayValue(tag: u32, value: seq<u32>) returns (ok: bool)
      requires Valid()
      modifies this
      ensures Valid() && (ok, View()) == old(Set(View(), tag, Uint32Array(value)))
    {
      var t := Position(tag);
      return false;
    }

    method GetBoolValue(tag: u32) returns (r: Option<bool>)
      requires Valid()
      ensures r == if TableType(tag) == BOOLTYPE && tag in View().values then Some(View().values[tag].b) else None
    {
      return if tag in boolValues then Some(boolValues[tag]) else None;
    }

    method GetUint32Value(tag: u32) returns (r: Option<u32>)
      requires Valid()
      ensures r == if TableType(tag) == UINT32TYPE && tag in View().values then Some(View().values[tag].w) else None
    {
      return if tag in uint32Values then Some(uint32Values[tag]) else None;
    }

    method GetUint64Value(tag: u32) returns (r: Option<u64>)
      requires Valid()
      ensures r == if TableType(tag) == UINT64TYPE && tag in View().values then Some(View().values[tag].q) else None
    {
      return if tag in uint64Values then Some(uint64Values[tag]) else None;
    }

    method GetUint8ArrayValue(tag: u32) returns (r: Option<seq<byte>>)
      requires Valid()
      ensures r == if TableType(tag) == UINT8ARRAYTYPE && tag in View().values then Some(View().values[tag].bs)
              else None
    {
      return if tag in uint8Arrays then Some(uint8Arrays[tag]) else None;
    }

    method GetUint64ArrayValue(tag: u32) returns (r: Option<seq<u64>>)
      requires Valid()
      ensures r == if TableType(tag) == UINT64ARRAYTYPE && tag in View().values then Some(View().values[tag].qs)
              else None
    {
      return if tag in uint64Arrays then Some(uint64Arrays[tag]) else None;
    }

    // ----- packing ---------------------------------------------------------------------------------

    /** The bytes PackToBuffer writes after the length. */
    method PayloadBytes(tag: u32) returns (payload: seq<byte>)
      requires Valid() && TableType(tag) != NOTYPE && (tag in View().values || tag == AUTH_SIGNATURE)
      ensures payload == PayloadAt(View().values, tag)
    {
      var t := positions[tag];
      if t == BOOLTYPE {
        var b := GetBoolValue(tag);
        payload := [if b.value then 1 else 0];
      } else if t == UINT32TYPE {
        var w := GetUint32Value(tag);
        payload := U32Bytes(w.value);
      } else if t == UINT64TYPE {
        var q := GetUint64Value(tag);
        payload := U64Bytes(q.value);
      } else if t == UINT64ARRAYTYPE {
        var qs := GetUint64ArrayValue(tag);
        payload := Write64Array(qs.value);
      } else {
        var bs := GetUint8ArrayValue(tag);
        payload := if bs.None? then [] else bs.value;
      }
    }

    /** A length is written in 32 bits, whatever the size of the value. */
    method PackToBuffer(tag: u32, buffer: seq<byte>) returns (r: seq<byte>)
      requires Valid() && TableType(tag) != NOTYPE && (tag in View().values || tag == AUTH_SIGNATURE)
      ensures var payload := PayloadAt(View().values, tag); r == buffer + U32Bytes(Truncated(|payload|)) + payload
    {
      var payload := PayloadBytes(tag);
      r := buffer + U32Bytes(Truncated(|payload|)) + payload;
    }

    /** Appends the record of an attribute, unless it is packed elsewhere. */
    method PackAttribute(tag: u32, buffer: seq<byte>, ghost tags: seq<u32>) returns (r: seq<byte>)
      requires Valid() && tag in View().values && (forall t :: t in tags ==> t in View().values)
      requires PlainWritten(View().values, tags, buffer)
      ensures PlainWritten(View().values, tags + [tag], r)
    {
      PlainStep(View().values, tags, tag, buffer);
      r := buffer;
      if !Special(tag) {
        r := PackToBuffer(tag, buffer + U32Bytes(tag));
      }
    }

    method PackAttributes() returns (buffer: seq<byte>)
      requires Valid() && Sorted(existAttributes)
      ensures PayloadsFit(View().values) ==> buffer == DataBytes(View())
    {
      buffer := [];
      ghost var a := View();
      for i := 0 to |existAttributes|
        invariant PlainWritten(a.values, existAttributes[..i], buffer)
      {
        assert existAttributes[..i + 1] == existAttributes[..i] + [existAttributes[i]];
        buffer := PackAttribute(existAttributes[i], buffer, existAttributes[..i]);
      }
      assert existAttributes[..|existAttributes|] == existAttributes;
      AllWritten(a, buffer);
    }

    /** Packs the sorted tags; below 4 GB the result is PackBytes of the object. */
    method Pack() returns (buffer: seq<byte>)
      requires Valid()
      modifies this`existAttributes
      ensures Valid() && View() == old(View().(exist := Sort(View().exist)))
      ensures PackBytes(View()) == old(PackBytes(View()))
      ensures PackedSize(View()) <= 0xFFFF_FFFF ==> buffer == PackBytes(View())
    {
      SortedView(View());
      existAttributes := Sort(existAttributes);
      ghost var a := View();
      SortSorted(old(existAttributes));
      buffer := PackAttributes();
      if PackedSize(a) <= 0xFFFF_FFFF {
        SizeFits(a);
      }
      buffer := Enclose(buffer);
    }

    /** The data and the signature become the two records of the root. */
    method Enclose(data: seq<byte>) returns (buffer: seq<byte>)
      requires Valid()
      ensures var sign := PayloadAt(View().values, AUTH_SIGNATURE);
              |ExecutorMessage.MessageOf(data, sign)| <= 0xFFFF_FFFF ==> buffer == ExecutorMessage.MessageOf(data, sign)
    {
      ghost var sign := PayloadAt(View().values, AUTH_SIGNATURE);
      buffer := U32Bytes(AUTH_DATA) + (U32Bytes(Truncated(|data|)) + data);
      buffer := PackToBuffer(AUTH_SIGNATURE, buffer + U32Bytes(AUTH_SIGNATURE));
      buffer := U32Bytes(AUTH_ROOT) + (U32Bytes(Truncated(|buffer|)) + buffer);
      if |ExecutorMessage.MessageOf(data, sign)| <= 0xFFFF_FFFF {
        Assembled(data, sign, buffer);
      }
    }

    // ----- unpacking -------------------------------------------------------------------------------

    /** The cases of the switch of Unpack, for a length that passed. */
    method StoreOne(tag: u32, payload: seq<byte>)
      requires Valid() && TableType(tag) != NOTYPE && LengthPasses(TableType(tag), |payload|)
      modifies this
      ensures Valid() && View() == old(Store(View(), tag, payload))
    {
      var t := positions[tag];
      var stored;
      if t == BOOLTYPE {
        stored := SetBoolValue(tag, payload[0] != 0);
      } else if t == UINT32TYPE {
        stored := SetUint32Value(tag, U32Of(payload));
      } else if t == UINT64TYPE {
        stored := SetUint64Value(tag, U64Of(payload));
      } else if t == UINT64ARRAYTYPE {
        var qs := GetUint64ArrayFromUint8(payload);
        stored := SetUint64ArrayValue(tag, qs);
      } else if payload != [] {
        stored := SetUint8ArrayValue(tag, payload);
      }
    }

    /** One round of the loop of Unpack over the bytes s at offset i. */
    method UnpackOne(s: seq<byte>, i: nat) returns (r: Outcome, taken: nat)
      requires Valid() && |s| > 0
      modifies this
      ensures Valid() && (r, View(), taken) == old(Round(View(), s, i))
    {
      var tag, n := Word(s, 0), Word(s, 4);
      if tag !in positions || i + 8 + n > 0xFFFF_FFFF {
        return Undetermined, 0;
      }
      var t := positions[tag];
      if 8 + n > |s| || !LengthPasses(t, n) {
        return Null, 0;
      }
      if t == NOTYPE {
        return Self, 8;
      }
      StoreOne(tag, s[8..8 + n]);
      return Self, 8 + n;
    }

    /** Unpack, stopped where the code reads the type of a tag the table does not have or an offset passes 32
        bits. After nullptr, exactly the records before the fault have been stored. */
    method Unpack(buffer: seq<byte>) returns (r: Outcome)
      requires Valid()
      modifies this
      ensures Valid()
      ensures match AttributeCodec.Unpack(old(View()), buffer)
              case Done(a) => r == Self && View() == a
              case Rejected(a) => r == Null && View() == a
              case Unmodelled => r == Undetermined
    {
      if |buffer| == 0 {
        return Null;
      }
      r := UnpackRecordsOf(buffer, LoopOf(Judge, Store));
    }

    /** The loop of Unpack, behind the two headers. */
    method UnpackRecordsOf(buffer: seq<byte>, ghost loop: Loop<Attrs, Unpacked<Attrs>>) returns (r: Outcome)
      requires Valid() && loop == LoopOf(Judge, Store)
      modifies this
      ensures Valid()
      ensures match old(Remaining(loop, View(), buffer, 16))
              case Done(a) => r == Self && View() == a
              case Rejected(a) => r == Null && View() == a
              case Unmodelled => r == Undetermined
    {
      var offset := 16;
      while offset < |buffer|
        invariant Valid() && old(Remaining(loop, View(), buffer, 16)) == Remaining(loop, View(), buffer, offset)
        decreases |buffer| - offset
      {
        UnpackLeads(View(), buffer, offset);
        var outcome;
        outcome, offset := UnpackNext(buffer, offset, loop);
        if outcome != Self {
          return outcome;
        }
      }
      return Self;
    }

    /** The record at an offset, and the offset of the next. */
    method UnpackNext(buffer: seq<byte>, offset: nat, ghost loop: Loop<Attrs, Unpacked<Attrs>>)
      returns (r: Outcome, next: nat)
      requires Valid() && offset < |buffer|
      requires Leads(loop, Remaining(loop, View(), buffer, offset), Round(View(), buffer[offset..], offset), buffer,
                     offset)
      modifies this
      ensures Valid() && (r == Self ==> offset < next)
      ensures old(Remaining(loop, View(), buffer, offset)) ==
              match r
              case Undetermined => Unmodelled
              case Null => Rejected(View())
              case Self => Remaining(loop, View(), buffer, next)
    {
      ghost var from := Remaining(loop, View(), buffer, offset);
      var taken;
      r, taken := UnpackOne(buffer[offset..], offset);
      next := offset + taken;
      LeadsTo(loop, from, r, View(), taken, buffer, offset);
    }
  }

  const INITIAL: map<u32, ValueType> :=
    map[AUTH_RESULT_CODE := UINT32TYPE, AUTH_SIGNATURE := UINT8ARRAYTYPE, AUTH_IDENTIFY_MODE := UINT32TYPE,
        AUTH_TEMPLATE_ID := UINT64TYPE, AUTH_TEMPLATE_ID_LIST := UINT64ARRAYTYPE, AUTH_REMAIN_COUNT := UINT32TYPE,
        AUTH_REMAIN_TIME := UINT32TYPE, AUTH_SCHEDULE_ID := UINT64TYPE, AUTH_CALLER_NAME := UINT8ARRAYTYPE,
        AUTH_SCHEDULE_VERSION := UINT32TYPE, AUTH_LOCK_OUT_TEMPLATE := UINT64TYPE, AUTH_UNLOCK_TEMPLATE := UINT64TYPE,
        AUTH_SUBTYPE := UINT64TYPE, AUTH_SCHEDULE_MODE := UINT32TYPE, AUTH_PROPERTY_MODE := UINT32TYPE,
        AUTH_TYPE := UINT32TYPE, AUTH_CREDENTIAL_ID := UINT64TYPE, AUTH_CONTROLLER := BOOLTYPE,
        AUTH_CALLER_UID := UINT64TYPE, AUTH_RESULT := UINT8ARRAYTYPE, ALGORITHM_INFO := UINT8ARRAYTYPE]

  /** The constructor's table is TableType. */
  lemma InitialTable()
    ensures TableOk(INITIAL) && Untyped(INITIAL) == {}
  {
    forall t | t in INITIAL ensures INITIAL[t] == TableType(t) && INITIAL[t] != NOTYPE {}
  }

  // ----- helpers ---------------------------------------------------------------------------------

  function PayloadAt(values: map<u32, Value>, tag: u32): seq<byte> {
    if tag in values then Payload(values[tag]) else []
  }

  function Truncated(n: nat): u32 {
    n % 0x1_0000_0000
  }

  predicate PayloadsFit(values: map<u32, Value>) {
    forall t :: t in values ==> |Payload(values[t])| <= 0xFFFF_FFFF
  }

  method Write64Array(qs: seq<u64>) returns (b: seq<byte>)
    ensures b == Records(qs, U64Bytes)
  {
    b := [];
    for i := 0 to |qs|
      invariant b == Records(qs[..i], U64Bytes)
    {
      assert qs[..i + 1] == qs[..i] + [qs[i]];
      RecordsSnoc(qs[..i], qs[i], U64Bytes);
      b := b + U64Bytes(qs[i]);
    }
    assert qs[..|qs|] == qs;
  }

  lemma NextU64(data: seq<byte>, i: nat, done: seq<u64>)
    requires 8 * i + 8 <= |data|
    ensures done + U64sOf(data[8 * i..]) == (done + [U64Of(data[8 * i..8 * i + 8])]) + U64sOf(data[8 * (i + 1)..])
  {
    var rest := data[8 * i..];
    assert rest[..8] == data[8 * i..8 * i + 8] && rest[8..] == data[8 * (i + 1)..];
  }

  method GetUint64ArrayFromUint8(data: seq<byte>) returns (r: seq<u64>)
    ensures r == U64sOf(data)
  {
    r := [];
    assert data[0..] == data && [] + U64sOf(data) == U64sOf(data);
    for i := 0 to |data| / 8
      invariant r + U64sOf(data[8 * i..]) == U64sOf(data)
    {
      NextU64(data, i, r);
      r := r + [U64Of(data[8 * i..8 * i + 8])];
    }
  }

  /** buffer holds the attributes of tags, if every value is short enough for its length field. */
  predicate PlainWritten(values: map<u32, Value>, tags: seq<u32>, buffer: seq<byte>) {
    PayloadsFit(values) && (forall t :: t in Plain(tags) ==> t in values) ==>
    buffer == Records(RecordsOf(values, Plain(tags)), RecordBytes)
  }

  lemma AllWritten(a: Attrs, buffer: seq<byte>)
    requires WellFormed(a) && Sorted(a.exist) && PlainWritten(a.values, a.exist, buffer)
    ensures PayloadsFit(a.values) ==> buffer == DataBytes(a)
  {
    SortOfSorted(a.exist);
  }

  lemma PlainStep(values: map<u32, Value>, tags: seq<u32>, tag: u32, buffer: seq<byte>)
    requires PlainWritten(values, tags, buffer)
    requires tag in values && forall t :: t in tags ==> t in values
    ensures var p := Payload(values[tag]);
            PlainWritten(values, tags + [tag],
                         if Special(tag) then buffer else (buffer + U32Bytes(tag)) + U32Bytes(Truncated(|p|)) + p)
  {
    PlainAppend(tags, [tag]);
    assert Plain([tag]) == if Special(tag) then [] else [tag];
    assert Plain(tags) + [] == Plain(tags);
    forall t | t in Plain(tags) ensures t in values {
      PlainIn(tags, t);
    }
    if !Special(tag) && PayloadsFit(values) {
      RecordsOfSnoc(values, Plain(tags), tag);
      RecordsSnoc(RecordsOf(values, Plain(tags)), RecordOf(tag, Payload(values[tag])), RecordBytes);
      OneRecord(tag, Payload(values[tag]), buffer);
    }
  }

  /** A record's bytes in three pieces. */
  lemma RecordPieces(tag: u32, p: seq<byte>)
    requires |p| <= 0xFFFF_FFFF
    ensures RecordBytes(RecordOf(tag, p)) == (U32Bytes(tag) + U32Bytes(Truncated(|p|))) + p
  {}

  lemma Glue(buffer: seq<byte>, tag: seq<byte>, length: seq<byte>, p: seq<byte>)
    ensures (buffer + tag) + length + p == buffer + ((tag + length) + p)
    ensures tag + (length + p) == (tag + length) + p
  {}

  lemma OneRecord(tag: u32, p: seq<byte>, buffer: seq<byte>)
    requires |p| <= 0xFFFF_FFFF
    ensures (buffer + U32Bytes(tag)) + U32Bytes(Truncated(|p|)) + p == buffer + RecordBytes(RecordOf(tag, p))
  {
    RecordPieces(tag, p);
    Glue(buffer, U32Bytes(tag), U32Bytes(Truncated(|p|)), p);
  }

  lemma SortedView(a: Attrs)
    requires WellFormed(a)
    ensures var b := a.(exist := Sort(a.exist)); WellFormed(b) && PackBytes(b) == PackBytes(a)
  {
    forall t ensures t in Sort(a.exist) <==> t in a.exist {
      SortIn(a.exist, t);
    }
    SortSorted(a.exist);
    SortOfSorted(Sort(a.exist));
  }

  lemma {:induction false} PayloadWithin(values: map<u32, Value>, tags: seq<u32>, t: u32)
    requires (forall x :: x in tags ==> x in values) && t in tags
    ensures |Payload(values[t])| <= |Records(RecordsOf(values, tags), RecordBytes)|
  {
    assert RecordsOf(values, tags)[1..] == RecordsOf(values, tags[1..]);
    if t != tags[0] {
      PayloadWithin(values, tags[1..], t);
    }
  }

  lemma SizeFits(a: Attrs)
    requires WellFormed(a) && PackedSize(a) <= 0xFFFF_FFFF
    ensures PayloadsFit(a.values)
  {
    SkipHeaders(DataBytes(a), Signature(a.values));
    forall t | t in a.values ensures |Payload(a.values[t])| <= 0xFFFF_FFFF {
      SizeHolds(a, t);
    }
  }

  lemma SizeHolds(a: Attrs, t: u32)
    requires WellFormed(a) && t in a.values
    ensures |Payload(a.values[t])| <= |DataBytes(a)| || |Payload(a.values[t])| <= |Signature(a.values)|
  {
    NotUntyped(a.values[t]);
    if t != AUTH_SIGNATURE {
      assert t in PackedTags(a);
      PayloadWithin(a.values, PackedTags(a), t);
    }
  }

  lemma Assembled(data: seq<byte>, sign: seq<byte>, buffer: seq<byte>)
    requires |ExecutorMessage.MessageOf(data, sign)| <= 0xFFFF_FFFF
    requires var d := U32Bytes(AUTH_DATA) + (U32Bytes(Truncated(|data|)) + data);
             var r := d + U32Bytes(AUTH_SIGNATURE) + U32Bytes(Truncated(|sign|)) + sign;
             buffer == U32Bytes(AUTH_ROOT) + (U32Bytes(Truncated(|r|)) + r)
    ensures buffer == ExecutorMessage.MessageOf(data, sign)
  {
    var d := U32Bytes(AUTH_DATA) + (U32Bytes(Truncated(|data|)) + data);
    var r := d + U32Bytes(AUTH_SIGNATURE) + U32Bytes(Truncated(|sign|)) + sign;
    FrontRecord(AUTH_DATA, data);
    OneRecord(AUTH_SIGNATURE, sign, d);
    FrontRecord(AUTH_ROOT, r);
  }

  lemma FrontRecord(tag: u32, p: seq<byte>)
    requires |p| <= 0xFFFF_FFFF
    ensures U32Bytes(tag) + (U32Bytes(Truncated(|p|)) + p) == RecordBytes(RecordOf(tag, p))
  {
    RecordPieces(tag, p);
    Glue([], U32Bytes(tag), U32Bytes(Truncated(|p|)), p);
  }

  /** One round of the loop: its outcome, the object after it, and the bytes taken. The value of a tag without a
      type is not skipped. */
  function Round(a: Attrs, s: seq<byte>, i: nat): (r: (Outcome, Attrs, nat))
    requires |s| > 0
    ensures r.0 == Self ==> 0 < r.2 <= |s|
  {
    var tag, n := Word(s, 0), Word(s, 4);
    if !Known(a, tag) || i + 8 + n > 0xFFFF_FFFF then (Undetermined, a, 0)
    else if 8 + n > |s| || !LengthPasses(TableType(tag), n) then (Null, a, 0)
    else if TableType(tag) == NOTYPE then (Self, a, 8)
    else (Self, Store(a, tag, s[8..8 + n]), 8 + n)
  }

  /** What the loop comes to from an offset on. */
  function Remaining<A>(loop: Loop<A, Unpacked<A>>, a: A, buffer: seq<byte>, offset: nat): Unpacked<A> {
    if offset >= |buffer| then Done(a) else loop(a, buffer[offset..], offset)
  }

  /** From an offset the loop goes through the round, and from there on. */
  ghost predicate Leads<A>(loop: Loop<A, Unpacked<A>>, from: Unpacked<A>, round: (Outcome, A, nat), buffer: seq<byte>,
                           offset: nat) {
    from == match round.0
            case Undetermined => Unmodelled
            case Null => Rejected(round.1)
            case Self => Remaining(loop, round.1, buffer, offset + round.2)
  }

  lemma LeadsTo<A>(loop: Loop<A, Unpacked<A>>, from: Unpacked<A>, outcome: Outcome, a: A, taken: nat, buffer: seq<byte>,
                   offset: nat)
    requires Leads(loop, from, (outcome, a, taken), buffer, offset)
    ensures from == match outcome
                    case Undetermined => Unmodelled
                    case Null => Rejected(a)
                    case Self => Remaining(loop, a, buffer, offset + taken)
  {}

  lemma LeadsOn<A>(loop: Loop<A, Unpacked<A>>, a: A, round: (Outcome, A, nat), buffer: seq<byte>, offset: nat)
    requires offset < |buffer| && OneRound(loop, a, buffer[offset..], offset, round)
    ensures Leads(loop, Remaining(loop, a, buffer, offset), round, buffer, offset)
  {
    if round.0 == Self {
      assert buffer[offset..][round.2..] == buffer[offset + round.2..];
    }
  }

  /** The loop over s at offset i goes through round. */
  ghost predicate OneRound<A>(loop: Loop<A, Unpacked<A>>, a: A, s: seq<byte>, i: nat, round: (Outcome, A, nat)) {
    && (round.0 == Self ==> round.2 <= |s|)
    && (round.0 == Self && round.2 == |s| ==> loop(round.1, [], i + round.2) == Done(round.1))
    && loop(a, s, i) ==
       match round.0
       case Undetermined => Unmodelled
       case Null => Rejected(round.1)
       case Self => loop(round.1, s[round.2..], i + round.2)
  }

  lemma RoundMeans(a: Attrs, s: seq<byte>, i: nat)
    requires |s| > 0
    ensures OneRound(LoopOf(Judge, Store), a, s, i, Round(a, s, i))
  {}

  lemma UnpackLeads(a: Attrs, buffer: seq<byte>, offset: nat)
    requires offset < |buffer|
    ensures Leads(LoopOf(Judge, Store), Remaining(LoopOf(Judge, Store), a, buffer, offset),
                  Round(a, buffer[offset..], offset),
                  buffer, offset)
  {
    RoundMeans(a, buffer[offset..], offset);
    LeadsOn(LoopOf(Judge, Store), a, Round(a, buffer[offset..], offset), buffer, offset);
  }
}
