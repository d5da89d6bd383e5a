/** coauth.c, coauth_funcs.c and coauth_sign_centre.c: ongoing schedules and the tokens that end them. */
module CoAuth {
  import opened Base
  import opened LinkedLists
  import opened Pool
  import opened ExecutorMessage
  import Tlv
  import AuthLevel

  const MAX_EXECUTOR_SIZE := 2
  const TOKEN_VALIDITY_PERIOD := 600_000
  const TOKEN_VERSION: u32 := 0

  datatype ScheduleMode = SCHEDULE_MODE_ENROLL | SCHEDULE_MODE_AUTH

  /** associateId is the context id of an authentication and the challenge of an enrolment. */
  datatype CoAuthSchedule = CoAuthSchedule(scheduleId: u64, scheduleMode: ScheduleMode, associateId: u64,
                                           templateId: u64, authSubType: u64, executors: seq<ExecutorInfo>)

  function HasScheduleId(id: u64): CoAuthSchedule -> bool {
    (s: CoAuthSchedule) => s.scheduleId == id
  }

  function ScheduleIds(ss: seq<CoAuthSchedule>): set<u64> {
    set s | s in ss :: s.scheduleId
  }

  // ----- generating, storing and removing schedules ----------------------------------------------

  datatype GenerateEnv = GenerateEnv(malloced: bool, draws: Draws)
  datatype InsertEnv = InsertEnv(copied: bool, inserted: bool)

  /** MountExecutor: all executors of the type, if there are one or two. */
  function Mount(pool: Option<seq<ExecutorInfo>>, authType: u32): Option<seq<ExecutorInfo>> {
    if pool.None? then None
    else
      var es := Reverse(OfAuthType(pool.value, authType));
      if 1 <= |es| <= MAX_EXECUTOR_SIZE then Some(es) else None
  }

  /** The blank schedule with a fresh id and the executors of the type. */
  function Generate(ss: Option<seq<CoAuthSchedule>>, pool: Option<seq<ExecutorInfo>>, authType: u32,
                    blank: CoAuthSchedule, env: GenerateEnv): Option<CoAuthSchedule> {
    if !env.malloced || ss.None? then None
    else
      var id, es := FirstFresh(env.draws, ScheduleIds(ss.value)), Mount(pool, authType);
      if id.None? || es.None? then None else Some(blank.(scheduleId := id.value, executors := es.value))
  }

  function AuthBlank(contextId: u64, authSubType: u64, templateId: u64): CoAuthSchedule {
    CoAuthSchedule(0, SCHEDULE_MODE_AUTH, contextId, templateId, authSubType, [])
  }

  function IdmBlank(challenge: u64, authSubType: u64): CoAuthSchedule {
    CoAuthSchedule(0, SCHEDULE_MODE_ENROLL, challenge, 0, authSubType, [])
  }

  function Add(ss: Option<seq<CoAuthSchedule>>, s: CoAuthSchedule, env: InsertEnv)
    : (ResultCode, Option<seq<CoAuthSchedule>>) {
    if ss.None? then (RESULT_NEED_INIT, ss)
    else if !env.copied then (RESULT_NO_MEMORY, ss)
    else if |ss.value| >= UINT32_MAX then (RESULT_REACH_LIMIT, ss)
    else if !env.inserted then (RESULT_NO_MEMORY, ss)
    else (RESULT_SUCCESS, Some([s] + ss.value))
  }

  /** There is a list with room, and memory for a schedule. */
  predicate Insertable(ss: Option<seq<CoAuthSchedule>>, env: InsertEnv) {
    ss.Some? && env.copied && |ss.value| < UINT32_MAX && env.inserted
  }

  /** The list changes exactly on success, which takes room and memory. */
  lemma AddIff(ss: Option<seq<CoAuthSchedule>>, s: CoAuthSchedule, env: InsertEnv)
    ensures Add(ss, s, env).0 == RESULT_SUCCESS <==> Insertable(ss, env)
    ensures Add(ss, s, env).1 != ss <==> Insertable(ss, env)
    ensures Insertable(ss, env) ==> Add(ss, s, env).1 == Some([s] + ss.value)
    ensures Add(ss, s, env).0 == RESULT_NEED_INIT <==> ss.None?
    ensures Add(ss, s, env).0 == RESULT_REACH_LIMIT <==> ss.Some? && env.copied && |ss.value| >= 0xFFFF_FFFF
    ensures ss.Some? && |ss.value| < 0xFFFF_FFFF && !(env.copied && env.inserted) ==>
              Add(ss, s, env).0 == RESULT_NO_MEMORY
  {
    if ss.Some? {
      assert |[s] + ss.value| == |ss.value| + 1;
    }
  }

  function Remove(ss: Option<seq<CoAuthSchedule>>, id: u64): Option<seq<CoAuthSchedule>> {
    if ss.None? then ss else Some(RemoveFirst(ss.value, HasScheduleId(id)))
  }

  function Lookup(ss: seq<CoAuthSchedule>, id: u64): Option<CoAuthSchedule> {
    var i := FirstIndex(ss, HasScheduleId(id));
    if i < |ss| then Some(ss[i]) else None
  }

  lemma OneExecutor(e: ExecutorInfo)
    ensures Mount(Some([e]), e.authType) == Some([e])
  {
    assert |[e][1..]| == 0;
    assert OfAuthType([e], e.authType) == [e] + OfAuthType([e][1..], e.authType) == [e];
    assert Reverse([e]) == Reverse([e][1..]) + [e] == [e];
  }

  // ----- tokens ----------------------------------------------------------------------------------

  /** scheduleResult is a ResultCode's number; sign is the MAC of the fields before it. */
  datatype ScheduleToken = ScheduleToken(scheduleResult: u32, scheduleId: u64, authType: u32, authSubType: u64,
                                         templateId: u64, scheduleMode: u32, capabilityLevel: u32, version: u32,
                                         time: u64, sign: seq<byte>)

  /** The keyed MAC of a token whose sign is blank; None when no key or no memory is at hand. */
  type Mac<!T> = T -> Option<seq<byte>>

  /** A token is fresh for ten minutes. */
  predicate IsTimeValid(time: u64, now: u64) {
    now >= time && now - time <= TOKEN_VALIDITY_PERIOD
  }

  /** CoAuthTokenSign. */
  function TokenSign(t: ScheduleToken, mac: Mac<ScheduleToken>): (ResultCode, ScheduleToken) {
    var t1 := t.(version := TOKEN_VERSION);
    var sign := mac(t1.(sign := []));
    if sign.None? then (RESULT_GENERAL_ERROR, t1) else (RESULT_SUCCESS, t1.(sign := sign.value))
  }

  /** CoAuthTokenVerify. */
  function TokenVerify(t: ScheduleToken, now: u64, mac: Mac<ScheduleToken>): ResultCode {
    if !IsTimeValid(t.time, now) then RESULT_TOKEN_TIMEOUT
    else
      var sign := mac(t.(sign := []));
      if sign.None? then RESULT_GENERAL_ERROR else if sign.value != t.sign then RESULT_BAD_SIGN else RESULT_SUCCESS
  }

  /** Signing makes exactly the token that verifies from its time on, for the validity period. */
  lemma SignThenVerify(t: ScheduleToken, now: u64, mac: Mac<ScheduleToken>)
    requires TokenSign(t, mac).0 == RESULT_SUCCESS
    ensures TokenVerify(TokenSign(t, mac).1, now, mac) == RESULT_SUCCESS <==>
            t.time <= now <= t.time + TOKEN_VALIDITY_PERIOD
    ensures forall t2: ScheduleToken ::
              t2.(sign := []) == TokenSign(t, mac).1.(sign := []) && TokenVerify(t2, now, mac) == RESULT_SUCCESS
              ==> t2 == TokenSign(t, mac).1
  {
    var t1 := TokenSign(t, mac).1;
    assert t1.(sign := []) == t.(version := TOKEN_VERSION, sign := []);
  }

  // ----- finishing a schedule --------------------------------------------------------------------

  /** What ScheduleFinish asks its surroundings: the clock, the MAC, Ed25519, a buffer for the key and a list for the
      records of the signed data. */
  datatype FinishEnv = FinishEnv(now: u64, mac: Mac<ScheduleToken>,
                                 ed25519: (seq<byte>, seq<byte>, seq<byte>) -> ResultCode,
                                 keyCopied: bool, listed: bool)

  predicate Verifies(e: ExecutorInfo) {
    e.executorType == VERIFIER || e.executorType == ALL_IN_ONE
  }

  /** The key of the first executor that verifies. */
  function VerifierKey(es: seq<ExecutorInfo>): Option<seq<byte>> {
    if |es| == 0 then None else if Verifies(es[0]) then Some(es[0].pubKey) else VerifierKey(es[1..])
  }

  /** TokenDataGetAndSign before the signature; the mode of the token is not touched. */
  function TokenData(authType: u32, info: ExecutorResultInfo, t: ScheduleToken, now: u64): ScheduleToken {
    t.(scheduleResult := 0, scheduleId := info.scheduleId, authType := authType, authSubType := info.authSubType,
       templateId := info.templateId, capabilityLevel := info.capabilityLevel, time := now)
  }

  /** The token of a decoded message. Without a verifier among the executors it stays unsigned, with success. */
  function TokenOfMessage(ss: Option<seq<CoAuthSchedule>>, msg: seq<byte>, t: ScheduleToken, env: FinishEnv)
    : (ResultCode, ScheduleToken)
  {
    var info := Decode(msg, env.listed);
    if info.None? || t.scheduleId != info.value.scheduleId || info.value.result != 0 then (RESULT_GENERAL_ERROR, t)
    else if ss.None? then (RESULT_NEED_INIT, t)
    else
      var s := Lookup(ss.value, info.value.scheduleId);
      if s.None? then (RESULT_BAD_MATCH, t) else TokenOfSchedule(s.value, info.value, t, env)
  }

  function TokenOfSchedule(s: CoAuthSchedule, info: ExecutorResultInfo, t: ScheduleToken, env: FinishEnv)
    : (ResultCode, ScheduleToken)
  {
    var key := VerifierKey(s.executors);
    if key.None? || !env.keyCopied then (RESULT_SUCCESS, t)
    else
      var verified := env.ed25519(key.value, info.data, info.sign);
      if verified != RESULT_SUCCESS then (verified, t)
      else TokenSign(TokenData(s.executors[0].authType, info, t, env.now), env.mac)
  }

  predicate ValidMessage(msg: seq<byte>) {
    0 < |msg| <= Tlv.MAX_BUFFER_SIZE
  }

  /** ScheduleFinish: whatever the outcome, the schedule the token names is removed. */
  function ScheduleFinish(ss: Option<seq<CoAuthSchedule>>, msg: seq<byte>, t: ScheduleToken, env: FinishEnv)
    : (ResultCode, Option<seq<CoAuthSchedule>>, ScheduleToken)
  {
    if !ValidMessage(msg) then (RESULT_BAD_PARAM, ss, t)
    else
      var (r, t1) := TokenOfMessage(ss, msg, t.(scheduleResult := 1), env);
      (r, Remove(ss, t.scheduleId), t1)
  }

  /** The message is a success report for the schedule the token names, which is live. */
  ghost predicate Reports(ss: Option<seq<CoAuthSchedule>>, msg: seq<byte>, t: ScheduleToken, env: FinishEnv,
                          s: CoAuthSchedule, info: ExecutorResultInfo) {
    && ValidMessage(msg) && ss.Some? && Decode(msg, env.listed) == Some(info)
    && info.scheduleId == t.scheduleId && info.result == 0 && Lookup(ss.value, t.scheduleId) == Some(s)
  }

  predicate IsVerifier(e: ExecutorInfo) {
    e.executorType == 2 || e.executorType == 3
  }

  /** Executor k is the first of type VERIFIER or ALL_IN_ONE. */
  predicate FirstVerifier(es: seq<ExecutorInfo>, k: nat) {
    k < |es| && IsVerifier(es[k]) && forall j :: 0 <= j < k ==> !IsVerifier(es[j])
  }

  predicate NoVerifier(es: seq<ExecutorInfo>) {
    forall k :: 0 <= k < |es| ==> !IsVerifier(es[k])
  }

  lemma {:induction false} KeyOfFirst(es: seq<ExecutorInfo>, k: nat)
    requires FirstVerifier(es, k)
    ensures VerifierKey(es) == Some(es[k].pubKey)
  {
    if k > 0 {
      assert !IsVerifier(es[0]);
      assert forall j :: 0 <= j < k ==> es[1..][j] == es[j + 1];
      KeyOfFirst(es[1..], k - 1);
    }
  }

  lemma {:induction false} KeyOfNone(es: seq<ExecutorInfo>)
    requires NoVerifier(es)
    ensures VerifierKey(es) == None
  {
    if |es| > 0 {
      assert !IsVerifier(es[0]);
      assert forall j :: 0 <= j < |es[1..]| ==> es[1..][j] == es[j + 1];
      KeyOfNone(es[1..]);
    }
  }

  /** The key that is checked is that of the first verifier, if there is one. */
  lemma VerifierKeyIff(es: seq<ExecutorInfo>)
    ensures VerifierKey(es).None? <==> NoVerifier(es)
    ensures forall k: nat :: FirstVerifier(es, k) ==> VerifierKey(es) == Some(es[k].pubKey)
    ensures NoVerifier(es) || exists k: nat :: FirstVerifier(es, k)
  {
    var k := FirstIndex(es, IsVerifier);
    if k < |es| {
      assert FirstVerifier(es, k);
      KeyOfFirst(es, k);
    } else {
      KeyOfNone(es);
    }
    forall j: nat | FirstVerifier(es, j) ensures VerifierKey(es) == Some(es[j].pubKey) {
      KeyOfFirst(es, j);
    }
  }

  /** The report is signed with the key of the first verifier of the schedule. */
  ghost predicate Verified(s: CoAuthSchedule, info: ExecutorResultInfo, env: FinishEnv) {
    && env.keyCopied
    && exists k: nat :: FirstVerifier(s.executors, k)
         && env.ed25519(s.executors[k].pubKey, info.data, info.sign) == RESULT_SUCCESS
  }

  /** t1 is the token of the schedule, the report and the time, with the MAC; only the mode is the caller's. */
  predicate SignedToken(t1: ScheduleToken, t: ScheduleToken, s: CoAuthSchedule, info: ExecutorResultInfo,
                        env: FinishEnv) {
    && |s.executors| > 0
    && t1.scheduleResult == 0 && t1.scheduleId == info.scheduleId && t1.authType == s.executors[0].authType
    && t1.authSubType == info.authSubType && t1.templateId == info.templateId
    && t1.capabilityLevel == info.capabilityLevel && t1.scheduleMode == t.scheduleMode && t1.version == 0
    && t1.time == env.now && env.mac(t1.(sign := [])) == Some(t1.sign)
  }

  lemma TokenSignIff(t: ScheduleToken, s: CoAuthSchedule, info: ExecutorResultInfo, env: FinishEnv)
    requires |s.executors| > 0
    ensures var (r, t1) := TokenSign(TokenData(s.executors[0].authType, info, t, env.now), env.mac);
            && (r == RESULT_SUCCESS <==> SignedToken(t1, t, s, info, env))
            && t1.scheduleResult == 0
            && (r == RESULT_SUCCESS ==> VerifiesFor(t1, env.now, env.mac))
  {
    var d := TokenData(s.executors[0].authType, info, t, env.now);
    var (r, t1) := TokenSign(d, env.mac);
    assert t1.(sign := []) == d.(version := TOKEN_VERSION, sign := []);
  }

  /** The token verifies for ten minutes from the time, and at no other time. */
  ghost predicate VerifiesFor(t: ScheduleToken, time: u64, mac: Mac<ScheduleToken>) {
    forall now: u64 :: TokenVerify(t, now, mac) == RESULT_SUCCESS <==> time <= now <= time + 600_000
  }

  /** Success with a result of zero means signed, and is reached exactly on a success report for a live schedule that is
      signed with the key of its first verifier, with a MAC at hand; each claim of the token is then that of the report,
      the schedule and the clock, and it verifies for ten minutes from then. */
  lemma FinishSignsIff(ss: Option<seq<CoAuthSchedule>>, msg: seq<byte>, t: ScheduleToken, env: FinishEnv)
    ensures var (r, _, t1) := ScheduleFinish(ss, msg, t, env);
            && (r == RESULT_SUCCESS && t1.scheduleResult == 0 <==>
                exists s, info :: Reports(ss, msg, t, env, s, info) && Verified(s, info, env)
                  && SignedToken(t1, t, s, info, env))
            && (r == RESULT_SUCCESS && t1.scheduleResult == 0 ==> VerifiesFor(t1, env.now, env.mac))
  {
    if ss.Some? && Decode(msg, env.listed).Some? && Lookup(ss.value, t.scheduleId).Some? {
      var s, info := Lookup(ss.value, t.scheduleId).value, Decode(msg, env.listed).value;
      FinishOfSchedule(ss, msg, t, env, s, info);
    }
  }

  lemma FinishOfSchedule(ss: Option<seq<CoAuthSchedule>>, msg: seq<byte>, t: ScheduleToken, env: FinishEnv,
                         s: CoAuthSchedule, info: ExecutorResultInfo)
    requires ss.Some? && Decode(msg, env.listed) == Some(info) && Lookup(ss.value, t.scheduleId) == Some(s)
    ensures var (r, _, t1) := ScheduleFinish(ss, msg, t, env);
            && (r == RESULT_SUCCESS && t1.scheduleResult == 0 <==>
                Reports(ss, msg, t, env, s, info) && Verified(s, info, env) && SignedToken(t1, t, s, info, env))
            && (r == RESULT_SUCCESS && t1.scheduleResult == 0 ==> VerifiesFor(t1, env.now, env.mac))
  {
    VerifierKeyIff(s.executors);
    if |s.executors| > 0 {
      TokenSignIff(t.(scheduleResult := 1), s, info, env);
    }
  }

  /** What a success report for the token's schedule is refused with: no list, no live schedule, or the answer of the
      verification. */
  lemma FinishRefused(ss: Option<seq<CoAuthSchedule>>, msg: seq<byte>, t: ScheduleToken, env: FinishEnv,
                      info: ExecutorResultInfo)
    requires ValidMessage(msg) && Decode(msg, env.listed) == Some(info)
    requires info.scheduleId == t.scheduleId && info.result == 0
    ensures var r := ScheduleFinish(ss, msg, t, env).0;
            && (ss.None? ==> r == RESULT_NEED_INIT)
            && (ss.Some? && (forall s :: s in ss.value ==> s.scheduleId != t.scheduleId) ==> r == RESULT_BAD_MATCH)
            && (ss.Some? && env.keyCopied ==>
                  forall s, k: nat | Lookup(ss.value, t.scheduleId) == Some(s) && FirstVerifier(s.executors, k) ::
                    var verified := env.ed25519(s.executors[k].pubKey, info.data, info.sign);
                    verified != RESULT_SUCCESS ==> r == verified)
  {
    if ss.Some? && Lookup(ss.value, t.scheduleId).Some? {
      var i := FirstIndex(ss.value, HasScheduleId(t.scheduleId));
      assert ss.value[i] in ss.value && HasScheduleId(t.scheduleId)(ss.value[i]);
      VerifierKeyIff(Lookup(ss.value, t.scheduleId).value.executors);
    }
  }

  /** The claims of the token about the report. */
  predicate ClaimsOf(t: ScheduleToken, info: ExecutorResultInfo) {
    && t.scheduleId == info.scheduleId && t.authSubType == info.authSubType && t.templateId == info.templateId
    && t.capabilityLevel == info.capabilityLevel
  }

  /** The claims of a signed token are the first records of their tags in the verified bytes if and only if the list
      for the records could be created, or the bytes hold a success report of zeros. */
  lemma SignedClaimsIff(ss: Option<seq<CoAuthSchedule>>, msg: seq<byte>, t: ScheduleToken, env: FinishEnv)
    requires var (r, _, t1) := ScheduleFinish(ss, msg, t, env); r == RESULT_SUCCESS && t1.scheduleResult == 0
    ensures Decode(msg, env.listed).Some?
    ensures var t1, data := ScheduleFinish(ss, msg, t, env).2, Decode(msg, env.listed).value.data;
            && ClaimsOf(t1, Decode(msg, env.listed).value)
            && (!env.listed ==> ClaimsOf(t1, NO_FIELDS))
            && (FieldsFromData(Decode(msg, env.listed).value) <==>
                env.listed || FieldsFromData(NO_FIELDS.(data := data)))
  {
    FinishSignsIff(ss, msg, t, env);
    FieldsComeFromDataIff(msg, env.listed);
    DecodedFrames(msg, env.listed, Decode(msg, env.listed).value);
  }

  /** Success without a signature is reached exactly when a live schedule without a verifier, or without memory for
      its key, gets a success report: no signature is checked then, and nothing but the result is set. */
  lemma FinishUnsignedIff(ss: Option<seq<CoAuthSchedule>>, msg: seq<byte>, t: ScheduleToken, env: FinishEnv)
    ensures var (r, _, t1) := ScheduleFinish(ss, msg, t, env);
            && (r == RESULT_SUCCESS && t1.scheduleResult != 0 <==>
                exists s, info :: Reports(ss, msg, t, env, s, info) && (NoVerifier(s.executors) || !env.keyCopied))
            && (r == RESULT_SUCCESS && t1.scheduleResult != 0 ==> t1 == t.(scheduleResult := 1))
  {
    if ValidMessage(msg) && ss.Some? && Decode(msg, env.listed).Some? && Lookup(ss.value, t.scheduleId).Some? {
      var s, info := Lookup(ss.value, t.scheduleId).value, Decode(msg, env.listed).value;
      UnsignedOfSchedule(ss, msg, t, env, s, info);
    }
  }

  lemma UnsignedOfSchedule(ss: Option<seq<CoAuthSchedule>>, msg: seq<byte>, t: ScheduleToken, env: FinishEnv,
                           s: CoAuthSchedule, info: ExecutorResultInfo)
    requires ValidMessage(msg) && ss.Some? && Decode(msg, env.listed) == Some(info)
             && Lookup(ss.value, t.scheduleId) == Some(s)
    ensures var (r, _, t1) := ScheduleFinish(ss, msg, t, env);
            && (r == RESULT_SUCCESS && t1.scheduleResult != 0 <==>
                Reports(ss, msg, t, env, s, info) && (NoVerifier(s.executors) || !env.keyCopied))
            && (r == RESULT_SUCCESS && t1.scheduleResult != 0 ==> t1 == t.(scheduleResult := 1))
  {
    VerifierKeyIff(s.executors);
  }

  lemma UnsignedWithoutKey(ss: seq<CoAuthSchedule>, msg: seq<byte>, t: ScheduleToken, env: FinishEnv, s: CoAuthSchedule,
                           info: ExecutorResultInfo)
    requires Reports(Some(ss), msg, t, env, s, info) && VerifierKey(s.executors).None?
    ensures var (r, _, t1) := ScheduleFinish(Some(ss), msg, t, env);
            r == RESULT_SUCCESS && t1 == t.(scheduleResult := 1)
  {}

  lemma LoneCollector(e: ExecutorInfo, s: CoAuthSchedule)
    requires e.executorType == COLLECTOR && s.executors == [e]
    ensures VerifierKey(s.executors) == None && Lookup([s], s.scheduleId) == Some(s)
  {
    assert |[e][1..]| == 0 && VerifierKey([e]) == VerifierKey([e][1..]) == None;
    assert HasScheduleId(s.scheduleId)(s);
  }

  /** Such a report: for a schedule mounted from a pool with one collector, with a signature nobody checks. */
  lemma UnsignedFinish(e: ExecutorInfo, info: ExecutorResultInfo, t: ScheduleToken, sign: seq<byte>,
                       generate: GenerateEnv, env: FinishEnv)
    requires e.executorType == COLLECTOR && generate.malloced && generate.draws[0] == Some(5)
    requires info.scheduleId == t.scheduleId == 5 && info.result == 0
    requires 0 < |sign| && 24 + REPORT_SIZE + |sign| <= Tlv.MAX_BUFFER_SIZE && env.listed
    ensures var s := IdmBlank(1, 0).(scheduleId := 5, executors := [e]);
            && Generate(Some([]), Some([e]), e.authType, IdmBlank(1, 0), generate) == Some(s)
            && var (r, _, t1) := ScheduleFinish(Some([s]), MessageOf(ReportData(info), sign), t, env);
               r == RESULT_SUCCESS && t1 == t.(scheduleResult := 1)
  {
    OneExecutor(e);
    assert FirstFresh(generate.draws, ScheduleIds([])) == Some(5);
    var s := IdmBlank(1, 0).(scheduleId := 5, executors := [e]);
    LoneCollector(e, s);
    ReportDecodes(info, sign);
    UnsignedWithoutKey([s], MessageOf(ReportData(info), sign), t, env, s,
                       info.(data := ReportData(info), sign := sign));
  }

  lemma LoneVerifier(e: ExecutorInfo, s: CoAuthSchedule)
    requires e.executorType == VERIFIER && s.executors == [e]
    ensures FirstVerifier(s.executors, 0) && Lookup([s], s.scheduleId) == Some(s)
  {
    assert HasScheduleId(s.scheduleId)(s);
  }

  lemma ZeroReport(s: CoAuthSchedule, msg: seq<byte>, data: seq<byte>, sign: seq<byte>, t: ScheduleToken,
                   env: FinishEnv)
    requires ValidMessage(msg) && !env.listed && Decode(msg, false) == Some(NO_FIELDS.(data := data, sign := sign))
    requires t.scheduleId == 0 && Lookup([s], 0) == Some(s) && FirstVerifier(s.executors, 0) && env.keyCopied
    requires env.ed25519(s.executors[0].pubKey, data, sign) == RESULT_SUCCESS
    requires TokenSign(TokenData(s.executors[0].authType, NO_FIELDS, t, env.now), env.mac).0 == RESULT_SUCCESS
    ensures var (r, _, t1) := ScheduleFinish(Some([s]), msg, t, env);
            r == RESULT_SUCCESS && t1.scheduleResult == 0 && ClaimsOf(t1, NO_FIELDS)
  {
    var t1, info := t.(scheduleResult := 1), NO_FIELDS.(data := data, sign := sign);
    KeyOfFirst(s.executors, 0);
    assert TokenData(s.executors[0].authType, info, t1, env.now) ==
           TokenData(s.executors[0].authType, NO_FIELDS, t, env.now);
  }

  lemma FailureReport(ss: Option<seq<CoAuthSchedule>>, msg: seq<byte>, t: ScheduleToken, env: FinishEnv)
    requires ValidMessage(msg) && Decode(msg, env.listed).Some? && Decode(msg, env.listed).value.result != 0
    ensures ScheduleFinish(ss, msg, t, env).0 == RESULT_GENERAL_ERROR
  {}

  /** A failure report whose token claims success: for the schedule with id 0, when there is no memory for the list of
      the records of the verified data. */
  lemma ZeroClaims(e: ExecutorInfo, info: ExecutorResultInfo, t: ScheduleToken, sign: seq<byte>, generate: GenerateEnv,
                   env: FinishEnv)
    requires e.executorType == VERIFIER && generate.malloced && generate.draws[0] == Some(0)
    requires t.scheduleId == 0 && info.result != 0
    requires 0 < |sign| && 24 + REPORT_SIZE + |sign| <= Tlv.MAX_BUFFER_SIZE && !env.listed && env.keyCopied
    requires env.ed25519(e.pubKey, ReportData(info), sign) == RESULT_SUCCESS
    requires TokenSign(TokenData(e.authType, NO_FIELDS, t, env.now), env.mac).0 == RESULT_SUCCESS
    ensures var s, msg := IdmBlank(1, 0).(executors := [e]), MessageOf(ReportData(info), sign);
            && Generate(Some([]), Some([e]), e.authType, IdmBlank(1, 0), generate) == Some(s)
            && var (r, _, t1) := ScheduleFinish(Some([s]), msg, t, env);
               r == RESULT_SUCCESS && t1.scheduleResult == 0 && ClaimsOf(t1, NO_FIELDS)
               && ScheduleFinish(Some([s]), msg, t, env.(listed := true)).0 == RESULT_GENERAL_ERROR
  {
    var s, data := IdmBlank(1, 0).(executors := [e]), ReportData(info);
    OneExecutor(e);
    assert FirstFresh(generate.draws, ScheduleIds([])) == Some(0);
    LoneVerifier(e, s);
    ReportDecodes(info, sign);
    MessageDecodes(data, sign, false);
    ZeroReport(s, MessageOf(data, sign), data, sign, t, env);
    FailureReport(Some([s]), MessageOf(data, sign), t, env.(listed := true));
  }

  // ----- what every reachable list of schedules satisfies ----------------------------------------

  predicate ScheduleOk(s: CoAuthSchedule) {
    && 1 <= |s.executors| <= MAX_EXECUTOR_SIZE
    && forall k :: 0 <= k < |s.executors| ==> s.executors[k].authType == s.executors[0].authType
  }

  predicate OtherId(a: CoAuthSchedule, b: CoAuthSchedule) {
    a.scheduleId != b.scheduleId
  }

  predicate SchedulesOk(ss: seq<CoAuthSchedule>) {
    && (forall i, j :: 0 <= i < j < |ss| ==> OtherId(ss[i], ss[j]))
    && (forall k :: 0 <= k < |ss| ==> ScheduleOk(ss[k]))
  }

  /** A generated schedule has an id no live one has, and one or two executors, all of the requested type: every
      executor of the pool of that type. */
  lemma GenerateOk(ss: Option<seq<CoAuthSchedule>>, pool: Option<seq<ExecutorInfo>>, authType: u32,
                   blank: CoAuthSchedule, env: GenerateEnv)
    requires Generate(ss, pool, authType, blank, env).Some?
    ensures var s := Generate(ss, pool, authType, blank, env).value;
            && s.scheduleId !in ScheduleIds(ss.value) && ScheduleOk(s) && s.executors[0].authType == authType
            && (forall e :: e in s.executors <==> e in pool.value && e.authType == authType)
            && s == blank.(scheduleId := s.scheduleId, executors := s.executors)
  {
    var s := Generate(ss, pool, authType, blank, env).value;
    forall e ensures e in s.executors <==> e in pool.value && e.authType == authType {
      ReverseIn(OfAuthType(pool.value, authType), e);
      AuthLevel.OfAuthTypeIn(pool.value, authType, e);
    }
    forall k | 0 <= k < |s.executors| ensures s.executors[k].authType == authType {
      assert s.executors[k] in s.executors;
    }
  }

  function OfType(t: u32): ExecutorInfo -> bool {
    (e: ExecutorInfo) => e.authType == t
  }

  lemma {:induction false} CountOfType(pool: seq<ExecutorInfo>, t: u32)
    ensures |OfAuthType(pool, t)| == Occurrences(pool, OfType(t))
  {
    if |pool| > 0 {
      CountOfType(pool[1..], t);
    }
  }

  /** A schedule is generated exactly with memory, an id that is not live, and one or two executors of the type. */
  lemma GenerateIff(ss: Option<seq<CoAuthSchedule>>, pool: Option<seq<ExecutorInfo>>, authType: u32,
                    blank: CoAuthSchedule, env: GenerateEnv)
    ensures Generate(ss, pool, authType, blank, env).Some? <==>
            && env.malloced && ss.Some? && FirstFresh(env.draws, ScheduleIds(ss.value)).Some?
            && pool.Some? && 1 <= Occurrences(pool.value, OfType(authType)) <= 2
  {
    if pool.Some? {
      CountOfType(pool.value, authType);
      ReverseLength(OfAuthType(pool.value, authType));
    }
  }

  lemma {:induction false} ReverseLength<T>(s: seq<T>)
    ensures |Reverse(s)| == |s|
  {
    if |s| > 0 {
      ReverseLength(s[1..]);
    }
  }

  /** Removing an id leaves no schedule with it and keeps the others. */
  lemma RemoveOk(ss: seq<CoAuthSchedule>, id: u64)
    requires SchedulesOk(ss)
    ensures var r := RemoveFirst(ss, HasScheduleId(id));
            && SchedulesOk(r) && id !in ScheduleIds(r)
            && (forall s :: s in r <==> s in ss && s.scheduleId != id)
  {
    var p := HasScheduleId(id);
    RemoveKeepsPairwise(ss, p, OtherId);
    forall i, j | 0 <= i < j < |ss| ensures !(p(ss[i]) && p(ss[j])) {
      assert OtherId(ss[i], ss[j]);
    }
    forall s ensures s in RemoveFirst(ss, p) <==> s in ss && !p(s) {
      RemoveOnly(ss, p, s);
    }
  }

  /** After ScheduleFinish on a valid message no schedule with the id is live, whatever the result. */
  lemma FinishRemoves(ss: seq<CoAuthSchedule>, msg: seq<byte>, t: ScheduleToken, env: FinishEnv)
    requires SchedulesOk(ss) && ValidMessage(msg)
    ensures var ss1 := ScheduleFinish(Some(ss), msg, t, env).1;
            ss1.Some? && t.scheduleId !in ScheduleIds(ss1.value) && SchedulesOk(ss1.value)
  {
    RemoveOk(ss, t.scheduleId);
  }
}
