/** What the C decoder makes of the bytes the C++ encoder writes. */
module CodecAgreement {
  import opened Base
  import opened Tlv
  import opened AttributeValues
  import ExecutorMessage
  import AttributeCodec

  lemma {:induction false} RecordsOfShort(values: map<u32, Value>, tags: seq<u32>, n: nat)
    requires (forall t :: t in tags ==> t in values) && |Records(RecordsOf(values, tags), RecordBytes)| <= n
    ensures forall r :: r in RecordsOf(values, tags) ==> |r.value| <= n
  {
    if |tags| > 0 {
      var rs := RecordsOf(values, tags);
      assert rs[1..] == RecordsOf(values, tags[1..]);
      RecordsOfShort(values, tags[1..], n);
      forall r | r in rs ensures |r.value| <= n {
        assert r == rs[0] || r in rs[1..];
      }
    }
  }

  /** The first record of a tag holds the value of the tag, however often the tag was set. */
  lemma {:induction false} LookupPacked(values: map<u32, Value>, tags: seq<u32>, tag: u32)
    requires forall t :: t in tags ==> t in values
    ensures FirstOfType(RecordsOf(values, tags), I32OfU32(tag)) ==
            if tag in tags then Some(RecordOf(tag, Payload(values[tag]))) else None
  {
    if |tags| > 0 {
      assert RecordsOf(values, tags)[1..] == RecordsOf(values, tags[1..]);
      LookupPacked(values, tags[1..], tag);
      assert tag in tags <==> tag == tags[0] || tag in tags[1..];
    }
  }

  /** ParseTlvWrapper finds one AUTH_ROOT and in it AUTH_DATA and AUTH_SIGNATURE. */
  lemma PackedParses(a: Attrs)
    requires WellFormed(a) && |PackBytes(a)| <= MAX_BUFFER_SIZE
    ensures var data, sign := Record(ExecutorMessage.AUTH_DATA, DataBytes(a)),
                Record(ExecutorMessage.AUTH_SIGNATURE, Signature(a.values));
            var root := RecordBytes(data) + RecordBytes(sign);
            && ExecutorMessage.ParseBuffer(PackBytes(a)) == Some([Record(ExecutorMessage.AUTH_ROOT, root)])
            && ExecutorMessage.ParseBuffer(root) == Some([data, sign])
  {
    AttributeCodec.SkipHeaders(DataBytes(a), Signature(a.values));
    ExecutorMessage.MessageParts(DataBytes(a), Signature(a.values));
  }

  /** The data parses to the attributes in ascending order of their tags, or not at all when there is none but
      the signature. */
  lemma PackedDataParses(a: Attrs)
    requires WellFormed(a) && |DataBytes(a)| <= MAX_BUFFER_SIZE
    ensures ExecutorMessage.ParseBuffer(DataBytes(a)) == if PackedTags(a) == [] then None else Some(PackedRecords(a))
  {
    RecordsOfShort(a.values, PackedTags(a), MAX_BUFFER_SIZE);
    DataParses(PackedRecords(a), DataBytes(a));
  }

  lemma DataParses(rs: seq<Record>, data: seq<byte>)
    requires data == Records(rs, RecordBytes) && Short(rs) && |data| <= MAX_BUFFER_SIZE
    ensures ExecutorMessage.ParseBuffer(data) == if rs == [] then None else Some(rs)
  {
    if rs != [] {
      ExecutorMessage.ParseBufferIff(data, rs);
    }
  }

  /** GetUint32Para and GetUint64Para on the parsed data return exactly the values that were set. */
  lemma LookupsAgree(a: Attrs, tag: u32)
    requires WellFormed(a)
    ensures TableType(tag) == UINT32TYPE ==>
              forall w: u32 :: Uint32Of(PackedRecords(a), I32OfU32(tag)) == Some(w) <==>
                  tag in a.values && a.values[tag] == Uint32Value(w)
    ensures TableType(tag) == UINT64TYPE ==>
              forall q: u64 :: Uint64Of(PackedRecords(a), I32OfU32(tag)) == Some(q) <==>
                  tag in a.values && a.values[tag] == Uint64Value(q)
    ensures TableType(tag) == NOTYPE ==> FirstOfType(PackedRecords(a), I32OfU32(tag)) == None
  {
    LookupPacked(a.values, PackedTags(a), tag);
    if tag in a.values {
      LookedUp(PackedRecords(a), tag, a.values[tag]);
    }
  }

  lemma LookedUp(rs: seq<Record>, tag: u32, v: Value)
    requires !Special(tag) ==> FirstOfType(rs, I32OfU32(tag)) == Some(RecordOf(tag, Payload(v)))
    requires v.Type() == TableType(tag)
    ensures v.Type() != NOTYPE
    ensures v.Uint32Value? ==> Uint32Of(rs, I32OfU32(tag)) == Some(v.w)
    ensures v.Uint64Value? ==> Uint64Of(rs, I32OfU32(tag)) == Some(v.q)
  {
    ValueBack(v);
  }

  /** The C++ table has no type for AUTH_CAPABILITY_LEVEL, which the C decoder demands: GetExecutorResultInfo accepts no
      packed object, but that it accepts each that fits, has an attribute and a signature when the list for the records
      of the data could not be created. */
  lemma PackedNeverDecodes(a: Attrs, listed: bool)
    requires WellFormed(a)
    ensures ExecutorMessage.Decode(PackBytes(a), listed).Some? <==>
            !listed && |PackBytes(a)| <= MAX_BUFFER_SIZE && PackedRecords(a) != [] && Signature(a.values) != []
  {
    if |PackBytes(a)| <= MAX_BUFFER_SIZE {
      AttributeCodec.SkipHeaders(DataBytes(a), Signature(a.values));
      PackedDataParses(a);
      ExecutorMessage.MessageDecodes(DataBytes(a), Signature(a.values), listed);
      NoCapabilityLevel(a);
    }
  }

  lemma NoCapabilityLevel(a: Attrs)
    requires WellFormed(a)
    ensures ExecutorMessage.FieldsOf(PackedRecords(a)) == None
  {
    LookupsAgree(a, AUTH_CAPABILITY_LEVEL);
  }
}
