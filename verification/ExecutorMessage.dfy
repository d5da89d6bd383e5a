/** executor_message.c: the result message of an executor, three levels of records deep. */
module ExecutorMessage {
  import opened Base
  import opened Tlv

  const AUTH_ROOT: i32 := 100000
  const AUTH_RESULT_CODE: i32 := 100001
  const AUTH_SIGNATURE: i32 := 100004
  const AUTH_TEMPLATE_ID: i32 := 100006
  const AUTH_SCHEDULE_ID: i32 := 100014
  const AUTH_DATA: i32 := 100020
  const AUTH_SUBTYPE: i32 := 100021
  const AUTH_CAPABILITY_LEVEL: i32 := 100029

  datatype ExecutorResultInfo = ExecutorResultInfo(data: seq<byte>, sign: seq<byte>, result: i32, scheduleId: u64,
                                                   templateId: u64, authSubType: u64, capabilityLevel: u32)

  /** The five fields of the signed part; its data and sign are left empty. */
  function FieldsOf(rs: seq<Record>): Option<ExecutorResultInfo> {
    var acl, template := Uint32Of(rs, AUTH_CAPABILITY_LEVEL), Uint64Of(rs, AUTH_TEMPLATE_ID);
    var subType, code := Uint64Of(rs, AUTH_SUBTYPE), Int32Of(rs, AUTH_RESULT_CODE);
    var schedule := Uint64Of(rs, AUTH_SCHEDULE_ID);
    if acl.None? || template.None? || subType.None? || code.None? || schedule.None? then None
    else Some(ExecutorResultInfo([], [], code.value, schedule.value, template.value, subType.value, acl.value))
  }

  /** The records of a buffer ParseTlvWrapper accepts. */
  function ParseBuffer(b: seq<byte>): Option<seq<Record>> {
    if 0 < |b| <= MAX_BUFFER_SIZE then ParseRecords(b) else None
  }

  function DecodeData(data: seq<byte>): Option<ExecutorResultInfo> {
    var fields := ParseBuffer(data);
    if fields.None? then None else FieldsOf(fields.value)
  }

  const NO_FIELDS := ExecutorResultInfo([], [], 0, 0, 0, 0, 0)

  /** What ParseExecutorResultData gives. When the list for the records of the data could not be created it reports
      success and leaves every field zero. */
  function DataFields(data: seq<byte>, listed: bool): Option<ExecutorResultInfo> {
    if listed then DecodeData(data) else Some(NO_FIELDS)
  }

  function DecodeInner(inner: seq<Record>, listed: bool): Option<ExecutorResultInfo> {
    var data, sign := BuffOf(inner, AUTH_DATA), BuffOf(inner, AUTH_SIGNATURE);
    if data.None? || sign.None? || DataFields(data.value, listed).None? then None
    else Some(DataFields(data.value, listed).value.(data := data.value, sign := sign.value))
  }

  function DecodeRoot(root: seq<byte>, listed: bool): Option<ExecutorResultInfo> {
    var inner := ParseBuffer(root);
    if inner.None? then None else DecodeInner(inner.value, listed)
  }

  function Decode(msg: seq<byte>, listed: bool): Option<ExecutorResultInfo> {
    var outer := ParseBuffer(msg);
    if outer.None? then None else
    var root := BuffOf(outer.value, AUTH_ROOT);
    if root.None? then None else DecodeRoot(root.value, listed)
  }

  // ----- the parser ------------------------------------------------------------------------------

  /** Parses a buffer into a fresh list. */
  method Parse(b: seq<byte>) returns (ok: bool, list: TlvList)
    ensures list.Valid() && fresh(list)
    ensures ok <==> ParseBuffer(b).Some?
    ensures ok ==> list.contents == ParseBuffer(b).value
  {
    list := new TlvList();
    var r := list.ParseTlvWrapper(b);
    ok := r == OPERA_SUCC;
    assert ok ==> [] + ParseRecords(b).value == ParseRecords(b).value;
  }

  /** The lookups of the five fields, in the order of the source. */
  method ReadFields(body: TlvList) returns (r: Option<ExecutorResultInfo>)
    requires body.Valid()
    ensures r == FieldsOf(body.contents)
  {
    var acl, template, ok := ReadLevelAndTemplate(body);
    if !ok {
      return None;
    }
    var subType, code, schedule;
    subType, code, schedule, ok := ReadOthers(body);
    if !ok {
      return None;
    }
    return Some(ExecutorResultInfo([], [], code, schedule, template, subType, acl));
  }

  method ReadOthers(body: TlvList) returns (subType: u64, code: i32, schedule: u64, ok: bool)
    requires body.Valid()
    ensures ok <==> && Uint64Of(body.contents, AUTH_SUBTYPE).Some? && Int32Of(body.contents, AUTH_RESULT_CODE).Some?
                    && Uint64Of(body.contents, AUTH_SCHEDULE_ID).Some?
    ensures ok ==> Uint64Of(body.contents, AUTH_SUBTYPE) == Some(subType)
    ensures ok ==> Int32Of(body.contents, AUTH_RESULT_CODE) == Some(code)
    ensures ok ==> Uint64Of(body.contents, AUTH_SCHEDULE_ID) == Some(schedule)
  {
    var sub := body.GetUint64Para(AUTH_SUBTYPE);
    if sub.None? {
      return 0, 0, 0, false;
    }
    var result := body.GetInt32Para(AUTH_RESULT_CODE);
    if result.None? {
      return 0, 0, 0, false;
    }
    var id := body.GetUint64Para(AUTH_SCHEDULE_ID);
    if id.None? {
      return 0, 0, 0, false;
    }
    return sub.value, result.value, id.value, true;
  }

  method ReadLevelAndTemplate(body: TlvList) returns (acl: u32, template: u64, ok: bool)
    requires body.Valid()
    ensures ok <==> && Uint32Of(body.contents, AUTH_CAPABILITY_LEVEL).Some?
                    && Uint64Of(body.contents, AUTH_TEMPLATE_ID).Some?
    ensures ok ==> Uint32Of(body.contents, AUTH_CAPABILITY_LEVEL) == Some(acl)
    ensures ok ==> Uint64Of(body.contents, AUTH_TEMPLATE_ID) == Some(template)
  {
    var level := body.GetUint32Para(AUTH_CAPABILITY_LEVEL);
    if level.None? {
      return 0, 0, false;
    }
    var id := body.GetUint64Para(AUTH_TEMPLATE_ID);
    if id.None? {
      return 0, 0, false;
    }
    return level.value, id.value, true;
  }

  method ParseExecutorResultData(data: seq<byte>, listed: bool) returns (r: Option<ExecutorResultInfo>)
    ensures r == DataFields(data, listed)
  {
    if !listed {
      return Some(NO_FIELDS);
    }
    var ok, body := Parse(data);
    if !ok {
      return None;
    }
    r := ReadFields(body);
  }

  /** The data of a root with the fields decoded from it, and its signature. */
  method ReadDataAndSign(body: TlvList, listed: bool) returns (r: Option<ExecutorResultInfo>)
    requires body.Valid()
    ensures r == DecodeInner(body.contents, listed)
  {
    var data := body.GetBuffPara(AUTH_DATA);
    if data.None? {
      return None;
    }
    var fields := ParseExecutorResultData(data.value, listed);
    if fields.None? {
      return None;
    }
    var sign := body.GetBuffPara(AUTH_SIGNATURE);
    if sign.None? {
      return None;
    }
    return Some(fields.value.(data := data.value, sign := sign.value));
  }

  method ParseRoot(root: seq<byte>, listed: bool) returns (r: Option<ExecutorResultInfo>)
    ensures r == DecodeRoot(root, listed)
  {
    var ok, body := Parse(root);
    if !ok {
      return None;
    }
    r := ReadDataAndSign(body, listed);
  }

  /** listed: whether the list for the records of the data can be created. */
  method GetExecutorResultInfo(msg: seq<byte>, listed: bool) returns (r: Option<ExecutorResultInfo>)
    ensures r == Decode(msg, listed)
  {
    var ok, body := Parse(msg);
    if !ok {
      return None;
    }
    var root := body.GetBuffPara(AUTH_ROOT);
    if root.None? {
      return None;
    }
    r := ParseRoot(root.value, listed);
  }

  // ----- what a decoded message is ---------------------------------------------------------------

  /** b is the non-empty concatenation of the records rs. */
  predicate Prints(b: seq<byte>, rs: seq<Record>) {
    0 < |b| <= MAX_BUFFER_SIZE && Short(rs) && b == Records(rs, RecordBytes)
  }

  /** The five fields of info are the first records of their tags. */
  predicate FirstFields(fields: seq<Record>, info: ExecutorResultInfo) {
    && Uint32Of(fields, AUTH_CAPABILITY_LEVEL) == Some(info.capabilityLevel)
    && Uint64Of(fields, AUTH_TEMPLATE_ID) == Some(info.templateId)
    && Uint64Of(fields, AUTH_SUBTYPE) == Some(info.authSubType)
    && Int32Of(fields, AUTH_RESULT_CODE) == Some(info.result)
    && Uint64Of(fields, AUTH_SCHEDULE_ID) == Some(info.scheduleId)
  }

  /** The message holds, inside its first AUTH_ROOT, first AUTH_DATA and AUTH_SIGNATURE records with the data and
      signature of info. */
  predicate Frames(msg: seq<byte>, outer: seq<Record>, root: seq<byte>, inner: seq<Record>, info: ExecutorResultInfo) {
    && Prints(msg, outer) && BuffOf(outer, AUTH_ROOT) == Some(root)
    && Prints(root, inner) && BuffOf(inner, AUTH_DATA) == Some(info.data)
       && BuffOf(inner, AUTH_SIGNATURE) == Some(info.sign)
  }

  /** The five fields of info are the first of their tags in its data. */
  ghost predicate FieldsFromData(info: ExecutorResultInfo) {
    exists fields :: Prints(info.data, fields) && FirstFields(fields, info)
  }

  /** ... or zero, when the list for their records could not be created. */
  ghost predicate Fielded(info: ExecutorResultInfo, listed: bool) {
    if listed then FieldsFromData(info) else info.(data := [], sign := []) == NO_FIELDS
  }

  lemma ParseBufferIff(b: seq<byte>, rs: seq<Record>)
    ensures ParseBuffer(b) == Some(rs) <==> Prints(b, rs)
  {
    if |b| <= MAX_BUFFER_SIZE {
      ParsesIff(b, rs);
    }
  }

  lemma FieldsIff(fields: seq<Record>, info: ExecutorResultInfo)
    ensures FieldsOf(fields) == Some(info.(data := [], sign := [])) <==> FirstFields(fields, info)
  {}

  lemma DecodeDataIff(info: ExecutorResultInfo)
    ensures DecodeData(info.data) == Some(info.(data := [], sign := [])) <==> FieldsFromData(info)
  {
    if ParseBuffer(info.data).Some? {
      var fields := ParseBuffer(info.data).value;
      ParseBufferIff(info.data, fields);
      FieldsIff(fields, info);
    }
    forall fields | Prints(info.data, fields) ensures ParseBuffer(info.data) == Some(fields) {
      ParseBufferIff(info.data, fields);
    }
  }

  lemma DecodeInnerIff(inner: seq<Record>, listed: bool, info: ExecutorResultInfo)
    ensures DecodeInner(inner, listed) == Some(info) <==>
            && BuffOf(inner, AUTH_DATA) == Some(info.data) && BuffOf(inner, AUTH_SIGNATURE) == Some(info.sign)
            && DataFields(info.data, listed) == Some(info.(data := [], sign := []))
  {
    var data := BuffOf(inner, AUTH_DATA);
    if data.Some? && DecodeData(data.value).Some? {
      DecodeDataBare(data.value);
    }
  }

  lemma DecodeDataBare(data: seq<byte>)
    requires DecodeData(data).Some?
    ensures DecodeData(data).value.data == [] && DecodeData(data).value.sign == []
  {}

  /** A message decodes to info exactly when it frames the data and signature of info, and the fields of info are those
      of the data, or zero when the list for their records could not be created. */
  lemma DecodeIff(msg: seq<byte>, listed: bool, info: ExecutorResultInfo)
    ensures Decode(msg, listed) == Some(info) <==>
            (exists outer, root, inner :: Frames(msg, outer, root, inner, info)) && Fielded(info, listed)
  {
    DecodeDataIff(info);
    if Decode(msg, listed) == Some(info) {
      DecodedFrames(msg, listed, info);
    }
    if outer, root, inner :| Frames(msg, outer, root, inner, info) {
      ParseBufferIff(msg, outer);
      ParseBufferIff(root, inner);
      DecodeInnerIff(inner, listed, info);
    }
  }

  lemma DecodedFrames(msg: seq<byte>, listed: bool, info: ExecutorResultInfo)
    requires Decode(msg, listed) == Some(info)
    ensures exists outer, root, inner :: Frames(msg, outer, root, inner, info)
    ensures Fielded(info, listed)
  {
    var outer := ParseBuffer(msg).value;
    var root := BuffOf(outer, AUTH_ROOT).value;
    var inner := ParseBuffer(root).value;
    ParseBufferIff(msg, outer);
    ParseBufferIff(root, inner);
    DecodeInnerIff(inner, listed, info);
    DecodeDataIff(info);
    assert Frames(msg, outer, root, inner, info);
  }

  /** The fields of a decoded message are a function of its signed bytes, and of whether the list could be created. */
  lemma FieldsComeFromData(msg1: seq<byte>, msg2: seq<byte>, listed: bool)
    ensures var a, b := Decode(msg1, listed), Decode(msg2, listed);
            a.Some? && b.Some? && a.value.data == b.value.data ==> a.value.(sign := []) == b.value.(sign := [])
  {}

  /** The fields of a decoded message are those of its signed bytes exactly when the list for their records was
      created, or they are zero there too. */
  lemma FieldsComeFromDataIff(msg: seq<byte>, listed: bool)
    requires Decode(msg, listed).Some?
    ensures var info := Decode(msg, listed).value;
            FieldsFromData(info) <==> listed || FieldsFromData(NO_FIELDS.(data := info.data))
  {
    var info := Decode(msg, listed).value;
    DecodedFrames(msg, listed, info);
    if !listed {
      assert forall fields :: FirstFields(fields, info) <==> FirstFields(fields, NO_FIELDS.(data := info.data));
    }
  }

  /** The message an executor sends for signed data: AUTH_ROOT { AUTH_DATA, AUTH_SIGNATURE }. */
  function MessageOf(data: seq<byte>, sign: seq<byte>): seq<byte> {
    RecordBytes(Record(AUTH_ROOT, RecordBytes(Record(AUTH_DATA, data)) + RecordBytes(Record(AUTH_SIGNATURE, sign))))
  }

  lemma TwoRecords(a: Record, b: Record, encode: Record -> seq<byte>)
    ensures Records([a], encode) == encode(a)
    ensures Records([a, b], encode) == encode(a) + encode(b)
  {
    assert [a, b][1..] == [b] && [a][1..] == [] && [b][1..] == [];
    assert Records([b], encode) == encode(b) + Records([], encode) == encode(b);
    assert Records([a], encode) == encode(a) + Records([], encode) == encode(a);
  }

  lemma LookupTwo(a: Record, b: Record)
    requires a.typ != b.typ
    ensures FirstOfType([a, b], a.typ) == Some(a) && FirstOfType([a, b], b.typ) == Some(b)
    ensures FirstOfType([a], a.typ) == Some(a)
    ensures forall t :: t != a.typ && t != b.typ ==> FirstOfType([a, b], t) == None
  {
    assert [a, b][1..] == [b] && [b][1..] == [];
  }

  lemma MessageParts(data: seq<byte>, sign: seq<byte>)
    requires 24 + |data| + |sign| <= MAX_BUFFER_SIZE
    ensures var d, s := Record(AUTH_DATA, data), Record(AUTH_SIGNATURE, sign);
            var root := RecordBytes(d) + RecordBytes(s);
            && ParseBuffer(MessageOf(data, sign)) == Some([Record(AUTH_ROOT, root)])
            && ParseBuffer(root) == Some([d, s]) && |root| <= MAX_BUFFER_SIZE
  {
    var d, s := Record(AUTH_DATA, data), Record(AUTH_SIGNATURE, sign);
    var r := Record(AUTH_ROOT, RecordBytes(d) + RecordBytes(s));
    TwoRecords(d, s, RecordBytes);
    TwoRecords(r, r, RecordBytes);
    ParseBufferIff(r.value, [d, s]);
    ParseBufferIff(MessageOf(data, sign), [r]);
  }

  /** Such a message decodes exactly when its data does and it has a signature, to those fields, that data and
      that signature; without a list for the records of the data, when both are not empty. */
  lemma MessageDecodes(data: seq<byte>, sign: seq<byte>, listed: bool)
    requires 24 + |data| + |sign| <= MAX_BUFFER_SIZE
    ensures Decode(MessageOf(data, sign), listed) ==
            if data == [] || sign == [] || DataFields(data, listed).None? then None
            else Some(DataFields(data, listed).value.(data := data, sign := sign))
  {
    MessageParts(data, sign);
    RootLookup(Record(AUTH_ROOT, RecordBytes(Record(AUTH_DATA, data)) + RecordBytes(Record(AUTH_SIGNATURE, sign))));
    InnerLookup(Record(AUTH_DATA, data), Record(AUTH_SIGNATURE, sign), listed);
  }

  lemma RootLookup(r: Record)
    requires r.typ == AUTH_ROOT && 0 < |r.value| <= MAX_BUFFER_SIZE
    ensures BuffOf([r], AUTH_ROOT) == Some(r.value)
  {
    LookupTwo(r, Record(AUTH_DATA, []));
  }

  lemma InnerLookup(d: Record, s: Record, listed: bool)
    requires d.typ == AUTH_DATA && s.typ == AUTH_SIGNATURE && |d.value| <= MAX_BUFFER_SIZE
             && |s.value| <= MAX_BUFFER_SIZE
    ensures DecodeInner([d, s], listed) ==
            if d.value == [] || s.value == [] || DataFields(d.value, listed).None? then None
            else Some(DataFields(d.value, listed).value.(data := d.value, sign := s.value))
  {
    LookupTwo(d, s);
  }

  // ----- writing a report ------------------------------------------------------------------------

  /** The five fields as an executor sends them. */
  function ReportRecords(info: ExecutorResultInfo): seq<Record> {
    [Record(AUTH_CAPABILITY_LEVEL, U32Bytes(info.capabilityLevel)), Record(AUTH_TEMPLATE_ID, U64Bytes(info.templateId)),
     Record(AUTH_SUBTYPE, U64Bytes(info.authSubType)), Record(AUTH_RESULT_CODE, U32Bytes(U32OfI32(info.result))),
     Record(AUTH_SCHEDULE_ID, U64Bytes(info.scheduleId))]
  }

  function ReportData(info: ExecutorResultInfo): seq<byte> {
    Records(ReportRecords(info), RecordBytes)
  }

  const REPORT_SIZE := 72

  lemma {:induction false} LookupAt(rs: seq<Record>, k: nat, t: i32)
    requires k < |rs| && rs[k].typ == t && forall j :: 0 <= j < k ==> rs[j].typ != t
    ensures FirstOfType(rs, t) == Some(rs[k])
  {
    if k > 0 {
      forall j | 0 <= j < k - 1 ensures rs[1..][j].typ != t {
        assert rs[1..][j] == rs[j + 1];
      }
      LookupAt(rs[1..], k - 1, t);
    }
  }

  lemma LongAt(rs: seq<Record>, k: nat, t: i32, q: u64)
    requires k < |rs| && rs[k] == Record(t, U64Bytes(q)) && forall j :: 0 <= j < k ==> rs[j].typ != t
    ensures Uint64Of(rs, t) == Some(q)
  {
    LookupAt(rs, k, t);
  }

  lemma WordAt(rs: seq<Record>, k: nat, t: i32, w: u32)
    requires k < |rs| && rs[k] == Record(t, U32Bytes(w)) && forall j :: 0 <= j < k ==> rs[j].typ != t
    ensures Uint32Of(rs, t) == Some(w) && Int32Of(rs, t) == Some(I32OfU32(w))
  {
    LookupAt(rs, k, t);
  }

  lemma ReportWords(info: ExecutorResultInfo)
    ensures Uint32Of(ReportRecords(info), AUTH_CAPABILITY_LEVEL) == Some(info.capabilityLevel)
    ensures Int32Of(ReportRecords(info), AUTH_RESULT_CODE) == Some(info.result)
  {
    var rs := ReportRecords(info);
    WordAt(rs, 0, AUTH_CAPABILITY_LEVEL, info.capabilityLevel);
    WordAt(rs, 3, AUTH_RESULT_CODE, U32OfI32(info.result));
  }

  lemma ReportFields(info: ExecutorResultInfo)
    ensures FirstFields(ReportRecords(info), info)
  {
    ReportWords(info);
    ReportLongs(info);
  }

  lemma ReportLongs(info: ExecutorResultInfo)
    ensures Uint64Of(ReportRecords(info), AUTH_TEMPLATE_ID) == Some(info.templateId)
    ensures Uint64Of(ReportRecords(info), AUTH_SUBTYPE) == Some(info.authSubType)
    ensures Uint64Of(ReportRecords(info), AUTH_SCHEDULE_ID) == Some(info.scheduleId)
  {
    var rs := ReportRecords(info);
    LongAt(rs, 1, AUTH_TEMPLATE_ID, info.templateId);
    LongAt(rs, 2, AUTH_SUBTYPE, info.authSubType);
    LongAt(rs, 4, AUTH_SCHEDULE_ID, info.scheduleId);
  }

  lemma {:induction false} RecordsSize(rs: seq<Record>, k: nat)
    requires k <= |rs|
    ensures |Records(rs[k..], RecordBytes)| == if k == |rs| then 0
            else 8 + |rs[k].value| + |Records(rs[k + 1..], RecordBytes)|
  {
    if k < |rs| {
      assert rs[k..][1..] == rs[k + 1..];
    }
  }

  lemma ReportPrints(info: ExecutorResultInfo)
    ensures Prints(ReportData(info), ReportRecords(info)) && |ReportData(info)| == REPORT_SIZE
  {
    var rs := ReportRecords(info);
    assert rs[0..] == rs;
    RecordsSize(rs, 0);
    RecordsSize(rs, 1);
    RecordsSize(rs, 2);
    RecordsSize(rs, 3);
    RecordsSize(rs, 4);
    RecordsSize(rs, 5);
  }

  /** Every report written this way decodes to the fields it was written from. */
  lemma ReportDecodes(info: ExecutorResultInfo, sign: seq<byte>)
    requires 0 < |sign| && 24 + REPORT_SIZE + |sign| <= MAX_BUFFER_SIZE
    ensures var msg := MessageOf(ReportData(info), sign);
            && |msg| == 24 + REPORT_SIZE + |sign|
            && Decode(msg, true) == Some(info.(data := ReportData(info), sign := sign))
  {
    var report := info.(data := ReportData(info), sign := sign);
    ReportFields(report);
    ReportPrints(info);
    DecodeDataIff(report);
    MessageDecodes(ReportData(info), sign, true);
  }
}
