/** auth_attributes.cpp: typed attributes, packed into nested records and unpacked again. */
module AttributeValues {
  import opened Base
  import opened Tlv
  import ExecutorMessage

  const AUTH_ROOT: u32 := 100000
  const AUTH_RESULT_CODE: u32 := 100001
  const AUTH_SIGNATURE: u32 := 100004
  const AUTH_IDENTIFY_MODE: u32 := 100005
  const AUTH_TEMPLATE_ID: u32 := 100006
  const AUTH_TEMPLATE_ID_LIST: u32 := 100007
  const AUTH_REMAIN_COUNT: u32 := 100009
  const AUTH_REMAIN_TIME: u32 := 100010
  const AUTH_SCHEDULE_ID: u32 := 100014
  const AUTH_CALLER_NAME: u32 := 100015
  const AUTH_SCHEDULE_VERSION: u32 := 100016
  const AUTH_LOCK_OUT_TEMPLATE: u32 := 100018
  const AUTH_UNLOCK_TEMPLATE: u32 := 100019
  const AUTH_DATA: u32 := 100020
  const AUTH_SUBTYPE: u32 := 100021
  const AUTH_SCHEDULE_MODE: u32 := 100022
  const AUTH_PROPERTY_MODE: u32 := 100023
  const AUTH_TYPE: u32 := 100024
  const AUTH_CREDENTIAL_ID: u32 := 100025
  const AUTH_CONTROLLER: u32 := 100026
  const AUTH_CALLER_UID: u32 := 100027
  const AUTH_RESULT: u32 := 100028
  const AUTH_CAPABILITY_LEVEL: u32 := 100029
  const ALGORITHM_INFO: u32 := 100030

  /** NOTYPE is the zero a map lookup inserts for an unknown tag. */
  datatype ValueType = NOTYPE | BOOLTYPE | UINT32TYPE | UINT64TYPE | UINT32ARRAYTYPE | UINT8ARRAYTYPE | UINT64ARRAYTYPE

  predicate IsUint32Tag(tag: u32) {
    || tag == AUTH_RESULT_CODE || tag == AUTH_IDENTIFY_MODE || tag == AUTH_REMAIN_COUNT || tag == AUTH_REMAIN_TIME
    || tag == AUTH_SCHEDULE_VERSION || tag == AUTH_SCHEDULE_MODE || tag == AUTH_PROPERTY_MODE || tag == AUTH_TYPE
  }

  predicate IsUint64Tag(tag: u32) {
    || tag == AUTH_TEMPLATE_ID || tag == AUTH_SCHEDULE_ID || tag == AUTH_LOCK_OUT_TEMPLATE
    || tag == AUTH_UNLOCK_TEMPLATE || tag == AUTH_SUBTYPE || tag == AUTH_CREDENTIAL_ID || tag == AUTH_CALLER_UID
  }

  predicate IsUint8ArrayTag(tag: u32) {
    tag == AUTH_SIGNATURE || tag == AUTH_CALLER_NAME || tag == AUTH_RESULT || tag == ALGORITHM_INFO
  }

  /** The type of each tag of the constructor's table; the others have none. */
  function TableType(tag: u32): ValueType {
    if tag == AUTH_CONTROLLER then BOOLTYPE
    else if IsUint32Tag(tag) then UINT32TYPE
    else if IsUint64Tag(tag) then UINT64TYPE
    else if tag == AUTH_TEMPLATE_ID_LIST then UINT64ARRAYTYPE
    else if IsUint8ArrayTag(tag) then UINT8ARRAYTYPE
    else NOTYPE
  }

  datatype Value =
    | BoolValue(b: bool)
    | Uint32Value(w: u32)
    | Uint64Value(q: u64)
    | Uint32Array(ws: seq<u32>)
    | Uint8Array(bs: seq<byte>)
    | Uint64Array(qs: seq<u64>)
  {
    function Type(): ValueType {
      match this
      case BoolValue(_) => BOOLTYPE
      case Uint32Value(_) => UINT32TYPE
      case Uint64Value(_) => UINT64TYPE
      case Uint32Array(_) => UINT32ARRAYTYPE
      case Uint8Array(_) => UINT8ARRAYTYPE
      case Uint64Array(_) => UINT64ARRAYTYPE
    }
  }

  /** What an object holds. seen lists the tags without a type that a setter looked up. */
  datatype Attrs = Attrs(values: map<u32, Value>, seen: set<u32>, exist: seq<u32>)

  const FRESH := Attrs(map[], {}, [])

  function Known(a: Attrs, tag: u32): bool {
    TableType(tag) != NOTYPE || tag in a.seen
  }

  /** A setter: fails on a tag of another type, which it may leave in the type table. */
  function Set(a: Attrs, tag: u32, v: Value): (bool, Attrs) {
    if TableType(tag) != v.Type() then
      (false, if TableType(tag) == NOTYPE then a.(seen := a.seen + {tag}) else a)
    else (true, a.(values := a.values[tag := v], exist := a.exist + [tag]))
  }

  /** Every attribute was set under a tag of its type, and exist lists exactly the attributes. */
  ghost predicate WellFormed(a: Attrs) {
    && (forall t :: t in a.values ==> a.values[t].Type() == TableType(t))
    && (forall t :: t in a.exist <==> t in a.values)
  }

  lemma SetWellFormed(a: Attrs, tag: u32, v: Value)
    requires WellFormed(a)
    ensures WellFormed(Set(a, tag, v).1)
  {}

  // ----- values as bytes -------------------------------------------------------------------------

  function Payload(v: Value): seq<byte> {
    match v
    case BoolValue(b) => [if b then 1 else 0]
    case Uint32Value(w) => U32Bytes(w)
    case Uint64Value(q) => U64Bytes(q)
    case Uint32Array(ws) => Records(ws, U32Bytes)
    case Uint8Array(bs) => bs
    case Uint64Array(qs) => Records(qs, U64Bytes)
  }

  function U32sOf(b: seq<byte>): seq<u32> {
    if |b| < 4 then [] else [U32Of(b[..4])] + U32sOf(b[4..])
  }

  function U64sOf(b: seq<byte>): seq<u64> {
    if |b| < 8 then [] else [U64Of(b[..8])] + U64sOf(b[8..])
  }

  /** CheckLengthPass on the length alone. */
  predicate LengthPasses(t: ValueType, n: nat) {
    match t
    case BOOLTYPE => n == 1
    case UINT32TYPE => n == 4
    case UINT64TYPE => n == 8
    case _ => true
  }

  function ValueOf(t: ValueType, b: seq<byte>): Value
    requires t != NOTYPE && LengthPasses(t, |b|)
  {
    match t
    case BOOLTYPE => BoolValue(b[0] != 0)
    case UINT32TYPE => Uint32Value(U32Of(b))
    case UINT64TYPE => Uint64Value(U64Of(b))
    case UINT32ARRAYTYPE => Uint32Array(U32sOf(b))
    case UINT8ARRAYTYPE => Uint8Array(b)
    case UINT64ARRAYTYPE => Uint64Array(U64sOf(b))
  }

  lemma {:induction false} U32sBack(ws: seq<u32>)
    ensures U32sOf(Records(ws, U32Bytes)) == ws
  {
    if |ws| > 0 {
      U32sBack(ws[1..]);
      var b := Records(ws, U32Bytes);
      assert b[..4] == U32Bytes(ws[0]) && b[4..] == Records(ws[1..], U32Bytes);
    }
  }

  lemma {:induction false} U64sBack(qs: seq<u64>)
    ensures U64sOf(Records(qs, U64Bytes)) == qs
  {
    if |qs| > 0 {
      U64sBack(qs[1..]);
      var b := Records(qs, U64Bytes);
      assert b[..8] == U64Bytes(qs[0]) && b[8..] == Records(qs[1..], U64Bytes);
    }
  }

  /** Every value reads back from its bytes. */
  lemma ValueBack(v: Value)
    ensures LengthPasses(v.Type(), |Payload(v)|)
    ensures ValueOf(v.Type(), Payload(v)) == v
  {
    match v
    case Uint32Array(ws) => U32sBack(ws);
    case Uint64Array(qs) => U64sBack(qs);
    case _ =>
  }

  // ----- packing ---------------------------------------------------------------------------------

  function Insert(x: u32, s: seq<u32>): seq<u32> {
    if |s| == 0 then [x] else if x <= s[0] then [x] + s else [s[0]] + Insert(x, s[1..])
  }

  /** std::sort on the tags. */
  function Sort(s: seq<u32>): seq<u32> {
    if |s| == 0 then [] else Insert(s[0], Sort(s[1..]))
  }

  predicate Sorted(s: seq<u32>) {
    forall i, j :: 0 <= i < j < |s| ==> s[i] <= s[j]
  }

  predicate Special(t: u32) {
    t == AUTH_ROOT || t == AUTH_DATA || t == AUTH_SIGNATURE
  }

  function Plain(s: seq<u32>): seq<u32> {
    if |s| == 0 then [] else if Special(s[0]) then Plain(s[1..]) else [s[0]] + Plain(s[1..])
  }

  /** The record an attribute is packed as. */
  function RecordOf(tag: u32, payload: seq<byte>): Record {
    Record(I32OfU32(tag), payload)
  }

  function RecordsOf(values: map<u32, Value>, tags: seq<u32>): (rs: seq<Record>)
    requires forall t :: t in tags ==> t in values
    ensures |rs| == |tags|
  {
    if |tags| == 0 then [] else [RecordOf(tags[0], Payload(values[tags[0]]))] + RecordsOf(values, tags[1..])
  }

  function Signature(values: map<u32, Value>): seq<byte> {
    if AUTH_SIGNATURE in values then Payload(values[AUTH_SIGNATURE]) else []
  }

  lemma {:induction false} PlainIn(s: seq<u32>, t: u32)
    ensures t in Plain(s) <==> t in s && !Special(t)
  {
    if |s| > 0 {
      PlainIn(s[1..], t);
      assert t in s <==> t == s[0] || t in s[1..];
    }
  }

  lemma {:induction false} InsertIn(x: u32, s: seq<u32>, t: u32)
    ensures t in Insert(x, s) <==> t == x || t in s
  {
    if |s| > 0 && x > s[0] {
      InsertIn(x, s[1..], t);
      assert t in s <==> t == s[0] || t in s[1..];
    }
  }

  lemma {:induction false} SortIn(s: seq<u32>, t: u32)
    ensures t in Sort(s) <==> t in s
  {
    if |s| > 0 {
      SortIn(s[1..], t);
      InsertIn(s[0], Sort(s[1..]), t);
      assert t in s <==> t == s[0] || t in s[1..];
    }
  }

  /** The tags Pack writes before the signature, each as often as it was set. */
  function PackedTags(a: Attrs): (r: seq<u32>)
    requires WellFormed(a)
    ensures forall t :: t in r <==> t in a.values && !Special(t)
  {
    assert forall t :: t in Plain(Sort(a.exist)) <==> t in a.values && !Special(t) by {
      forall t ensures t in Plain(Sort(a.exist)) <==> t in a.values && !Special(t) {
        PlainIn(Sort(a.exist), t);
        SortIn(a.exist, t);
      }
    }
    Plain(Sort(a.exist))
  }

  function PackedRecords(a: Attrs): seq<Record>
    requires WellFormed(a)
  {
    RecordsOf(a.values, PackedTags(a))
  }

  function DataBytes(a: Attrs): seq<byte>
    requires WellFormed(a)
  {
    Records(PackedRecords(a), RecordBytes)
  }

  /** AUTH_ROOT { AUTH_DATA { the attributes }, AUTH_SIGNATURE }. */
  function PackBytes(a: Attrs): seq<byte>
    requires WellFormed(a)
  {
    ExecutorMessage.MessageOf(DataBytes(a), Signature(a.values))
  }

  /** A setter succeeds exactly under a tag of the value's type; otherwise it changes no value, but the tag is known
      from then on. */
  lemma SetMeans(a: Attrs, tag: u32, v: Value)
    ensures var (ok, a1) := Set(a, tag, v);
            && (ok <==> TableType(tag) == v.Type())
            && (ok ==> a1.values == a.values[tag := v] && a1.exist == a.exist + [tag] && a1.seen == a.seen)
            && (!ok ==> a1.values == a.values && a1.exist == a.exist)
            && Known(a1, tag) && forall t :: t != tag ==> (Known(a1, t) <==> Known(a, t))
  {}

  /** Truth is one byte, 1 or 0; numbers are little-endian. */
  lemma PayloadLayout(b: bool, w: u32, q: u64)
    ensures Payload(BoolValue(b)) == (if b then [1] else [0])
    ensures Payload(Uint32Value(w)) == LeBytes(w, 4) && Payload(Uint64Value(q)) == LeBytes(q, 8)
  {}
}
