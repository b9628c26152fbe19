/** Remote invocation at one executor: the gate, the local execution it wraps, and the answer. */
module RemoteInvocation {
  import opened Json
  import opened JsValue
  import opened CanonicalJson
  import opened Wrappers

  const MAX_KEYS := 10
  const MAX_KEY := 64
  const MAX_STRING := 160

  datatype Code =
    | InvalidPayload | InvalidKind | InvalidInvocationRequest | InvalidFriendship
    | HandlerNotFound | HandlerExecutionFailed | InvalidResult | InvalidInput

  function CodeText(code: Code): Text {
    match code
    case InvalidPayload => Ascii("INVALID_PAYLOAD")
    case InvalidKind => Ascii("INVALID_KIND")
    case InvalidInvocationRequest => Ascii("INVALID_INVOCATION_REQUEST")
    case InvalidFriendship => Ascii("INVALID_FRIENDSHIP")
    case HandlerNotFound => Ascii("HANDLER_NOT_FOUND")
    case HandlerExecutionFailed => Ascii("HANDLER_EXECUTION_FAILED")
    case InvalidResult => Ascii("INVALID_RESULT")
    case InvalidInput => Ascii("INVALID_INPUT")
  }

  const KIND: Text := Ascii("kind")
  const REQUEST: Text := Ascii("invocation_request")
  const RESULT: Text := Ascii("invocation_result")
  const INVOCATION_ID: Text := Ascii("invocation_id")
  const REQUEST_KIND: Text := Ascii("REMOTE_INVOCATION_REQUEST")
  const RESULT_KIND: Text := Ascii("REMOTE_INVOCATION_RESULT")

  /** The fields of a request as they arrived; an absent field is null. */
  datatype Request = Request(invocationId: Json, capabilityRefId: Json, friendshipId: Json, capabilityId: Json,
      payload: Json)

  function RequestOf(q: Json): Request {
    Request(Field(q, INVOCATION_ID), Field(q, Ascii("capability_ref_id")), Field(q, Ascii("friendship_id")),
            Field(q, Ascii("capability_id")), Field(q, Ascii("payload")))
  }

  datatype FriendshipRecord = NoRecord | FriendshipRecord(established: Json, friendshipId: Json)

  /** A handler returns a value or throws. What is no JSON at all is refused like null. */
  type Handler = Json -> Option<Value>
  type Registry = map<Text, Handler>

  datatype Outcome = Success(result: Json) | Failure(code: Text)
  datatype InvocationResult = InvocationResult(invocationId: Text, outcome: Outcome)

  predicate Blank(t: Text) { Trim(t) == [] }
  predicate Named(j: Json) { j.String? && !Blank(j.s) }

  /** A name is a string with something besides white space in it. */
  lemma NamedExactly(j: Json)
    ensures Named(j) <==> j.String? && exists i :: 0 <= i < |j.s| && !IsTrimmed(j.s[i])
  {
    if j.String? { TrimNothing(j.s); }
  }

  // ---------------------------------------------------------- local execution

  predicate ValidRequest(r: Request) {
    && Named(r.invocationId) && Named(r.capabilityRefId) && Named(r.friendshipId) && Named(r.capabilityId)
    && r.payload.Object?
  }

  function Execute(registry: Registry, r: Request): Result<Json, Code>
    requires ValidRequest(r)
  {
    if r.capabilityId.s !in registry then Err(HandlerNotFound)
    else
      var raw := registry[r.capabilityId.s](r.payload);
      if raw.None? then Err(HandlerExecutionFailed) else Ok(raw.value)
  }

  /** The type test for numbers, which NaN and the infinities pass. */
  predicate IsNumber(v: Json) { v.Number? || v.NotFinite? }

  function MemberFault(m: Member): Option<Code> {
    if Blank(m.key) then Some(InvalidInput)
    else if |m.key| > MAX_KEY then Some(InvalidResult)
    else if m.value.String? then (if |m.value.s| > MAX_STRING then Some(InvalidResult) else None)
    else if IsNumber(m.value) || m.value.Bool? then None
    else Some(InvalidResult)
  }

  /** Members are checked in order; the first fault decides the code. */
  function FirstFault(ms: seq<Member>): Option<Code> {
    if ms == [] then None
    else if MemberFault(ms[0]).Some? then MemberFault(ms[0])
    else FirstFault(ms[1..])
  }

  function Adapt(raw: Json): Result<Json, Code> {
    if !raw.Object? || |raw.members| > MAX_KEYS then Err(InvalidResult)
    else if FirstFault(raw.members).Some? then Err(FirstFault(raw.members).value)
    else Ok(Norm(Stable, raw))
  }

  /** Registry, executor and adapter: what a local invocation of the request gives. */
  function Local(registry: Registry, r: Request): Result<Json, Code>
    requires ValidRequest(r)
  {
    var raw := Execute(registry, r);
    if raw.Err? then Err(raw.error) else Adapt(raw.value)
  }

  // ------------------------------------------------------------- the remote entry

  predicate Gate(record: FriendshipRecord, r: Request) {
    && record.FriendshipRecord? && record.established == Bool(true) && Named(record.friendshipId)
    && record.friendshipId == r.friendshipId
  }

  /** The entry: a payload is any JSON value. */
  function Handle(registry: Registry, record: FriendshipRecord, p: Json): Result<InvocationResult, Code> {
    if !p.Object? then Err(InvalidPayload)
    else if Field(p, KIND) != String(REQUEST_KIND) then Err(InvalidKind)
    else if !Field(p, REQUEST).Object? then Err(InvalidPayload)
    else
      var r := RequestOf(Field(p, REQUEST));
      if !ValidRequest(r) then Err(InvalidInvocationRequest)
      else if !Gate(record, r) then Err(InvalidFriendship)
      else
        var local := Local(registry, r);
        if local.Err? then Err(local.error) else Ok(InvocationResult(r.invocationId.s, Success(local.value)))
  }

  /** A payload that holds a request with a non-blank id, whatever else is wrong with it. */
  predicate HasRequest(p: Json) { Field(p, REQUEST).Object? && Named(Field(Field(p, REQUEST), INVOCATION_ID)) }

  /** The answer sent back. A failure is answered by a result made from the request, which
      throws, and so leaves the message unanswered, when the request has no proper id. */
  function Answer(registry: Registry, record: FriendshipRecord, p: Json): Option<InvocationResult> {
    match Handle(registry, record, p)
    case Ok(r) => Some(r)
    case Err(code) =>
      if HasRequest(p) then
        Some(InvocationResult(Field(Field(p, REQUEST), INVOCATION_ID).s, Failure(CodeText(code))))
      else None
  }

  // -------------------------------------------------------------- results on the wire

  const OK: Text := Ascii("ok")
  const VALUE: Text := Ascii("result")
  const ERROR: Text := Ascii("error")
  const CODE: Text := Ascii("code")

  function ErrorMembers(code: Text): seq<Member> { [Member(CODE, String(code))] }

  function ResultMembers(r: InvocationResult): seq<Member> {
    [Member(INVOCATION_ID, String(r.invocationId)),
     Member(OK, Bool(r.outcome.Success?)),
     Member(VALUE, if r.outcome.Success? then r.outcome.result else Null),
     Member(ERROR, if r.outcome.Success? then Null else Object(ErrorMembers(r.outcome.code))),
     Member(Ascii("created_at"), String(Ascii("1970-01-01T00:00:00.000Z")))]
  }

  function WireMembers(r: InvocationResult): seq<Member> {
    [Member(KIND, String(RESULT_KIND)), Member(RESULT, Object(ResultMembers(r)))]
  }

  /** The text that travels. */
  function Wire(r: InvocationResult): Text { Print(Object(WireMembers(r))) }

  /** A field that is there and is null. */
  predicate IsNull(v: Json, k: Text) { v.Object? && HasKey(v.members, k) && Field(v, k).Null? }

  /** The receiving side's check, and what it reads off. */
  function Accept(p: Json): Option<InvocationResult> {
    if Field(p, KIND) != String(RESULT_KIND) then None else AcceptFields(Field(p, RESULT))
  }

  function AcceptFields(f: Json): Option<InvocationResult> {
    if !Named(Field(f, INVOCATION_ID)) || !Field(f, OK).Bool? then None
    else
      var id := Field(f, INVOCATION_ID).s;
      if Field(f, OK).b then
        if Field(f, VALUE).Object? && IsNull(f, ERROR) then
          Some(InvocationResult(id, Success(Field(f, VALUE))))
        else None
      else
        if IsNull(f, VALUE) && Named(Field(Field(f, ERROR), CODE)) then
          Some(InvocationResult(id, Failure(Field(Field(f, ERROR), CODE).s)))
        else None
  }

  // -------------------------------------------------------------------- the executor

  /** Handlers by capability id; registering again replaces. */
  class MachineB {
    const record: FriendshipRecord
    var registry: Registry
    var outbox: seq<Text>

    constructor (record: FriendshipRecord)
      ensures this.record == record && registry == map[] && outbox == []
    {
      this.record, registry, outbox := record, map[], [];
    }

    method RegisterHandler(id: Json, handler: Handler) returns (ok: bool)
      modifies this`registry
      ensures ok == Named(id)
      ensures registry == if Named(id) then old(registry)[id.s := handler] else old(registry)
    {
      ok := Named(id);
      if ok {
        registry := registry[id.s := handler];
      }
    }

    /** One result per answered payload, none otherwise. */
    method OnInbound(p: Json) returns (answered: bool)
      modifies this`outbox
      ensures answered == Answer(registry, record, p).Some?
      ensures outbox == old(outbox) + (if answered then [Wire(Answer(registry, record, p).value)] else [])
    {
      var entry := Handle(registry, record, p);
      var result;
      if entry.Ok? {
        result := entry.value;
      } else {
        var request := Field(p, REQUEST);
        if !request.Object? || !Named(Field(request, INVOCATION_ID)) {
          return false;
        }
        result := InvocationResult(Field(request, INVOCATION_ID).s, Failure(CodeText(entry.error)));
      }
      outbox := outbox + [Wire(result)];
      answered := true;
    }
  }

  // ------------------------------------------------------------------------ theorems

  /** A member that a result may have: a key that is not blank nor longer than 64 units, with a
      truth value, a number, or a string of at most 160 units. */
  ghost predicate Fits(m: Member) {
    && !Blank(m.key) && |m.key| <= 64
    && (m.value.Number? || m.value.NotFinite? || m.value.Bool? || (m.value.String? && |m.value.s| <= 160))
  }

  /** Machine-safe results: at most ten members, each of which fits. */
  ghost predicate Bounded(raw: Json) {
    raw.Object? && |raw.members| <= 10 && forall m :: m in raw.members ==> Fits(m)
  }

  lemma {:induction false} FirstFaultNone(ms: seq<Member>)
    ensures FirstFault(ms).None? <==> forall m :: m in ms ==> MemberFault(m).None?
  {
    if ms != [] {
      FirstFaultNone(ms[1..]);
      assert ms == [ms[0]] + ms[1..];
    }
  }

  /** A raw result is accepted exactly when it is bounded. */
  lemma AdaptExact(raw: Json)
    ensures Adapt(raw).Ok? <==> Bounded(raw)
  {
    if raw.Object? { FirstFaultNone(raw.members); }
  }

  lemma {:induction false} NormMembersShort(ms: seq<Member>)
    ensures |NormMembers(Stable, ms)| <= |ms|
  {
    if ms != [] { NormMembersShort(ms[1..]); }
  }

  lemma {:induction false} SortLength(ms: seq<Member>)
    ensures |Sort(Stable, ms)| == |ms|
  {
    if ms != [] {
      SortLength(ms[1..]);
      InsertLength(ms[0], Sort(Stable, ms[1..]));
    }
  }

  lemma {:induction false} InsertLength(m: Member, ms: seq<Member>)
    ensures |Insert(Stable, m, ms)| == |ms| + 1
  {
    if ms != [] { InsertLength(m, ms[1..]); }
  }

  /** What is accepted stays accepted, and goes over the wire with its members as they were,
      apart from a `__proto__` member. */
  lemma AdaptedIsBounded(raw: Json)
    requires Adapt(raw).Ok?
    ensures Bounded(Adapt(raw).value)
    ensures forall m :: m in Adapt(raw).value.members <==> m in raw.members && m.key != PROTO
  {
    AdaptExact(raw);
    NormMembersShort(raw.members);
    SortLength(NormMembers(Stable, raw.members));
    NormMembersIn(Stable, raw.members);
    var out := Adapt(raw).value.members;
    forall m ensures m in out <==> m in raw.members && m.key != PROTO {
      if m in raw.members { assert Norm(Stable, m.value) == m.value; }
      if m in out {
        var x :| x in raw.members && Keep(Stable, x.key) && m == Member(x.key, Norm(Stable, x.value));
        assert Norm(Stable, x.value) == x.value;
      }
    }
  }

  /** At the executor, remote is local: the answer is a success exactly for a well-formed
      request of the right kind under the agreed friendship whose local invocation succeeds, and
      then it is that invocation's result under the request's own id. */
  lemma SuccessIsLocal(registry: Registry, record: FriendshipRecord, p: Json)
    ensures var a, r := Answer(registry, record, p), RequestOf(Field(p, REQUEST));
            && ((a.Some? && a.value.outcome.Success?) <==>
                (Field(p, KIND) == String(REQUEST_KIND) && Field(p, REQUEST).Object? && ValidRequest(r)
                 && Gate(record, r) && Local(registry, r).Ok?))
            && (a.Some? && a.value.outcome.Success? ==>
                a.value == InvocationResult(r.invocationId.s, Success(Local(registry, r).value)))
  {
  }

  /** Whatever holds a request with a proper id is answered under that id, a failure by its code. */
  lemma AnswerFacts(registry: Registry, record: FriendshipRecord, p: Json)
    ensures var a, h := Answer(registry, record, p), Handle(registry, record, p);
            && (a.Some? <==> HasRequest(p))
            && (a.Some? ==>
                  && String(a.value.invocationId) == Field(Field(p, REQUEST), INVOCATION_ID)
                  && (if h.Ok? then a.value == h.value && a.value.outcome.Success?
                      else a.value.outcome == Failure(CodeText(h.error))))
  {
  }

  // -------------------------------------- what an answer means, from the fields alone

  /** A request with everything that it must have. */
  ghost predicate Complete(q: Json) {
    && Named(Field(q, Ascii("invocation_id"))) && Named(Field(q, Ascii("capability_ref_id")))
    && Named(Field(q, Ascii("friendship_id"))) && Named(Field(q, Ascii("capability_id")))
    && Field(q, Ascii("payload")).Object?
  }

  /** The friendship on record is established, and is the one that the request names. */
  ghost predicate Agreed(record: FriendshipRecord, q: Json) {
    && record.FriendshipRecord? && record.established == Bool(true) && Named(record.friendshipId)
    && record.friendshipId == Field(q, Ascii("friendship_id"))
  }

  /** Whether the capability that is asked for has a handler. */
  ghost predicate Handled(registry: Registry, q: Json) {
    Field(q, Ascii("capability_id")).String? && Field(q, Ascii("capability_id")).s in registry
  }

  /** What that handler makes of the payload. */
  ghost function Returned(registry: Registry, q: Json): Option<Value>
    requires Handled(registry, q)
  {
    registry[Field(q, Ascii("capability_id")).s](Field(q, Ascii("payload")))
  }

  /** The payload is a complete request of the right kind, under the agreed friendship, whose
      handler returned something bounded: this result, with its members sorted and none named
      `__proto__`. */
  ghost predicate Grants(registry: Registry, record: FriendshipRecord, p: Json, result: Json) {
    var q := Field(p, Ascii("invocation_request"));
    && Field(p, Ascii("kind")) == String(Ascii("REMOTE_INVOCATION_REQUEST"))
    && Complete(q) && Agreed(record, q) && Handled(registry, q)
    && Returned(registry, q).Some? && Bounded(Returned(registry, q).value)
    && result.Object? && InKeyOrder(Stable, result)
    && forall m :: m in result.members <==> m in Returned(registry, q).value.members && m.key != Ascii("__proto__")
  }

  /** A member with a blank key comes first among those that do not fit. */
  ghost predicate BlankFirst(ms: seq<Member>) {
    exists i :: 0 <= i < |ms| && Blank(ms[i].key) && forall j :: 0 <= j < i ==> Fits(ms[j])
  }

  /** There is no handler, it threw, or it returned something that is not bounded. */
  ghost predicate Fails(registry: Registry, q: Json, code: Text) {
    if !Handled(registry, q) then code == Ascii("HANDLER_NOT_FOUND")
    else if Returned(registry, q).None? then code == Ascii("HANDLER_EXECUTION_FAILED")
    else
      var raw := Returned(registry, q).value;
      && !Bounded(raw)
      && code == if raw.Object? && |raw.members| <= 10 && BlankFirst(raw.members) then Ascii("INVALID_INPUT")
                 else Ascii("INVALID_RESULT")
  }

  /** The payload is none of that, and the text says at what it failed first. */
  ghost predicate Refuses(registry: Registry, record: FriendshipRecord, p: Json, code: Text) {
    var q := Field(p, Ascii("invocation_request"));
    if Field(p, Ascii("kind")) != String(Ascii("REMOTE_INVOCATION_REQUEST")) then code == Ascii("INVALID_KIND")
    else if !Complete(q) then code == Ascii("INVALID_INVOCATION_REQUEST")
    else if !Agreed(record, q) then code == Ascii("INVALID_FRIENDSHIP")
    else Fails(registry, q, code)
  }

  lemma MemberSays(m: Member)
    ensures MemberFault(m) == if Fits(m) then None else if Blank(m.key) then Some(InvalidInput) else Some(InvalidResult)
  {
  }

  lemma BlankLater(ms: seq<Member>)
    requires ms != []
    ensures BlankFirst(ms) <==> Blank(ms[0].key) || (Fits(ms[0]) && BlankFirst(ms[1..]))
  {
    if Fits(ms[0]) && BlankFirst(ms[1..]) {
      var i :| 0 <= i < |ms| - 1 && Blank(ms[1..][i].key) && forall j :: 0 <= j < i ==> Fits(ms[1..][j]);
      assert Blank(ms[i + 1].key) && forall j :: 0 < j < i + 1 ==> ms[j] == ms[1..][j - 1];
    }
    if BlankFirst(ms) && !Blank(ms[0].key) {
      var i :| 0 <= i < |ms| && Blank(ms[i].key) && forall j :: 0 <= j < i ==> Fits(ms[j]);
      assert Blank(ms[1..][i - 1].key) && forall j :: 0 <= j < i - 1 ==> ms[1..][j] == ms[j + 1];
    }
  }

  lemma {:induction false} FaultSays(ms: seq<Member>)
    requires FirstFault(ms).Some?
    ensures FirstFault(ms).value == if BlankFirst(ms) then InvalidInput else InvalidResult
  {
    MemberSays(ms[0]);
    BlankLater(ms);
    if Fits(ms[0]) { FaultSays(ms[1..]); }
  }

  lemma AdaptGrants(raw: Value, result: Json)
    requires Adapt(raw) == Ok(result)
    ensures Bounded(raw) && result.Object? && InKeyOrder(Stable, result)
    ensures forall m :: m in result.members <==> m in raw.members && m.key != Ascii("__proto__")
  {
    AdaptExact(raw);
    AdaptedIsBounded(raw);
    NormInKeyOrder(Stable, raw);
    ProtoText();
  }

  lemma AdaptRefuses(raw: Json)
    requires Adapt(raw).Err?
    ensures !Bounded(raw)
    ensures Adapt(raw).error == if raw.Object? && |raw.members| <= 10 && BlankFirst(raw.members) then InvalidInput
                                else InvalidResult
  {
    AdaptExact(raw);
    if raw.Object? && |raw.members| <= MAX_KEYS { FaultSays(raw.members); }
  }

  /** Answers, in full: every payload that holds a request with a proper id is answered under
      that id, with the result it grants or the text of what it failed at. */
  lemma AnswerSays(registry: Registry, record: FriendshipRecord, p: Json)
    ensures var a, q := Answer(registry, record, p), Field(p, Ascii("invocation_request"));
            && (a.Some? <==> q.Object? && Named(Field(q, Ascii("invocation_id"))))
            && (a.Some? ==>
                  && String(a.value.invocationId) == Field(q, Ascii("invocation_id"))
                  && match a.value.outcome
                     case Success(v) => Grants(registry, record, p, v)
                     case Failure(code) => Refuses(registry, record, p, code))
  {
    AnswerFacts(registry, record, p);
    if Handle(registry, record, p).Ok? {
      SuccessGrants(registry, record, p);
    } else if HasRequest(p) {
      FailureRefuses(registry, record, p);
    }
  }

  lemma SuccessGrants(registry: Registry, record: FriendshipRecord, p: Json)
    requires Handle(registry, record, p).Ok?
    ensures Grants(registry, record, p, Handle(registry, record, p).value.outcome.result)
  {
    AdaptGrants(Returned(registry, Field(p, REQUEST)).value, Handle(registry, record, p).value.outcome.result);
  }

  lemma FailureRefuses(registry: Registry, record: FriendshipRecord, p: Json)
    requires Handle(registry, record, p).Err? && HasRequest(p)
    ensures Refuses(registry, record, p, CodeText(Handle(registry, record, p).error))
  {
    var q := Field(p, REQUEST);
    if Field(p, KIND) == String(REQUEST_KIND) && Complete(q) && Agreed(record, q) {
      HandleLate(registry, record, p, q);
      LocalFails(registry, q, Handle(registry, record, p).error);
    } else {
      EarlyRefuses(registry, record, p, q, Handle(registry, record, p).error);
    }
  }

  lemma EarlyRefuses(registry: Registry, record: FriendshipRecord, p: Json, q: Json, code: Code)
    requires HasRequest(p) && Handle(registry, record, p) == Err(code) && q == Field(p, REQUEST)
    requires !(Field(p, KIND) == String(REQUEST_KIND) && Complete(q) && Agreed(record, q))
    ensures Refuses(registry, record, p, CodeText(code))
  {
  }

  lemma HandleLate(registry: Registry, record: FriendshipRecord, p: Json, q: Json)
    requires HasRequest(p) && Handle(registry, record, p).Err? && q == Field(p, REQUEST)
    requires Field(p, KIND) == String(REQUEST_KIND) && Complete(q) && Agreed(record, q)
    ensures Local(registry, RequestOf(q)) == Err(Handle(registry, record, p).error)
  {
  }

  lemma LocalFails(registry: Registry, q: Json, code: Code)
    requires Complete(q) && Local(registry, RequestOf(q)) == Err(code)
    ensures Fails(registry, q, CodeText(code))
  {
    if Handled(registry, q) && Returned(registry, q).Some? { AdaptRefuses(Returned(registry, q).value); }
  }

  // ------------------------------------------------------------------ over the wire

  /** What can be read off a text that is accepted. */
  predicate Sendable(r: InvocationResult) {
    Named(String(r.invocationId)) &&
    match r.outcome
    case Success(v) => v.Object?
    case Failure(code) => Named(String(code))
  }

  lemma AcceptWire(r: InvocationResult)
    requires Sendable(r)
    ensures Accept(Object(WireMembers(r))) == Some(r)
  {
    var ms, fs := WireMembers(r), ResultMembers(r);
    assert |KIND| == 4 && |RESULT| == 17;
    FieldAt(ms, 0, KIND);
    FieldAt(ms, 1, RESULT);
    ResultFields(r, fs);
    if r.outcome.Failure? { FieldAt(ErrorMembers(r.outcome.code), 0, CODE); }
  }

  lemma ResultKeys(r: InvocationResult)
    ensures DistinctKeys(ResultMembers(r))
  {
    assert |INVOCATION_ID| == 13 && |OK| == 2 && |VALUE| == 6 && |ERROR| == 5;
  }

  lemma ResultFields(r: InvocationResult, fs: seq<Member>)
    requires fs == ResultMembers(r)
    ensures Field(Object(fs), INVOCATION_ID) == fs[0].value && Field(Object(fs), OK) == fs[1].value
    ensures Field(Object(fs), VALUE) == fs[2].value && Field(Object(fs), ERROR) == fs[3].value
    ensures HasKey(fs, VALUE) && HasKey(fs, ERROR)
  {
    ResultKeys(r);
    FieldOf(fs, 0);
    FieldOf(fs, 1);
    FieldOf(fs, 2);
    FieldOf(fs, 3);
  }

  /** Exactly the sendable results can be accepted, each from its own wire form. */
  lemma AcceptExactly(r: InvocationResult)
    ensures (exists p :: Accept(p) == Some(r)) <==> Sendable(r)
  {
    if Sendable(r) { AcceptWire(r); }
  }

  /** The result as it arrives: null stands where a number was not finite. */
  function Arrived(r: InvocationResult): InvocationResult {
    match r.outcome
    case Success(v) => r.(outcome := Success(Nulled(v)))
    case Failure(_) => r
  }

  lemma NulledResult(r: InvocationResult)
    ensures Nulled(Object(ResultMembers(r))) == Object(ResultMembers(Arrived(r)))
  {
    if r.outcome.Failure? {
      assert NulledMembers(ErrorMembers(r.outcome.code)) == ErrorMembers(r.outcome.code);
    }
    assert NulledMembers(ResultMembers(r)) == ResultMembers(Arrived(r));
  }

  lemma NulledWire(r: InvocationResult)
    ensures Nulled(Object(WireMembers(r))) == Object(WireMembers(Arrived(r)))
  {
    NulledResult(r);
    var ms, ns := WireMembers(r), NulledMembers(WireMembers(r));
    assert ns[0] == Member(KIND, String(RESULT_KIND));
    assert ns[1] == Member(RESULT, Nulled(Object(ResultMembers(r))));
    assert ns == WireMembers(Arrived(r));
  }

  lemma ProperResult(r: InvocationResult)
    requires r.outcome.Success? ==> Proper(r.outcome.result)
    ensures Proper(Object(ResultMembers(r)))
  {
    if r.outcome.Failure? { ProperObject(ErrorMembers(r.outcome.code)); }
    ResultKeys(r);
    ProperObject(ResultMembers(r));
  }

  lemma ProperWire(r: InvocationResult)
    requires r.outcome.Success? ==> Proper(r.outcome.result)
    ensures Proper(Object(WireMembers(r)))
  {
    assert |KIND| == 4 && |RESULT| == 17;
    ProperResult(r);
    ProperObject(WireMembers(r));
  }

  /** What a parsed payload reports, by the names of its fields: an id, and either a result beside
      no error, or the code of an error beside no result. */
  ghost predicate Carries(p: Json, r: InvocationResult) {
    var f := Field(p, Ascii("invocation_result"));
    && Field(p, Ascii("kind")) == String(Ascii("REMOTE_INVOCATION_RESULT"))
    && Field(f, Ascii("invocation_id")) == String(r.invocationId)
    && match r.outcome
       case Success(v) =>
         && Field(f, Ascii("ok")) == Bool(true) && Field(f, Ascii("result")) == v
         && HasKey(f.members, Ascii("error")) && Field(f, Ascii("error")) == Null
       case Failure(code) =>
         && Field(f, Ascii("ok")) == Bool(false)
         && HasKey(f.members, Ascii("result")) && Field(f, Ascii("result")) == Null
         && Field(Field(f, Ascii("error")), Ascii("code")) == String(code)
  }

  /** The receiving side's check passes exactly what is sendable and carried so. */
  lemma AcceptsExactly(p: Json, r: InvocationResult)
    ensures Accept(p) == Some(r) <==> Sendable(r) && Carries(p, r)
  {
    var f := Field(p, Ascii("invocation_result"));
    assert RESULT == Ascii("invocation_result") && Accept(p) == Some(r) ==> AcceptFields(f) == Some(r);
  }

  /** The text of a result carries it as it arrives. */
  lemma WireCarries(r: InvocationResult)
    requires r.outcome.Success? ==> Proper(r.outcome.result)
    ensures Carries(Read(Wire(r)), Arrived(r))
    ensures Field(Field(Read(Wire(r)), Ascii("invocation_result")), Ascii("created_at")) ==
            String(Ascii("1970-01-01T00:00:00.000Z"))
  {
    var fs := ResultMembers(Arrived(r));
    ProperWire(r);
    ReadSent(Object(WireMembers(r)));
    NulledWire(r);
    FieldsOfWire(Arrived(r));
    ResultFields(Arrived(r), fs);
    ResultKeys(Arrived(r));
    FieldOf(fs, 4);
    if r.outcome.Failure? { FieldAt(ErrorMembers(r.outcome.code), 0, CODE); }
  }

  lemma FieldsOfWire(r: InvocationResult)
    ensures Field(Object(WireMembers(r)), KIND) == String(RESULT_KIND)
    ensures Field(Object(WireMembers(r)), RESULT) == Object(ResultMembers(r))
  {
    assert |KIND| == 4 && |RESULT| == 17;
    FieldAt(WireMembers(r), 0, KIND);
    FieldAt(WireMembers(r), 1, RESULT);
  }

  /** Any sendable result that can be printed arrives. */
  lemma ResultArrives(r: InvocationResult)
    requires Sendable(r) && (r.outcome.Success? ==> Proper(r.outcome.result))
    ensures Accept(Read(Wire(r))) == Some(Arrived(r))
  {
    ProperWire(r);
    ReadSent(Object(WireMembers(r)));
    NulledWire(r);
    AcceptWire(Arrived(r));
  }

  /** What a local invocation gives can be printed. */
  lemma LocalProper(registry: Registry, r: Request)
    requires ValidRequest(r) && Local(registry, r).Ok?
    ensures Proper(Local(registry, r).value)
  {
    var raw := Execute(registry, r).value;
    AdaptedIsProper(raw);
  }

  lemma AdaptedIsProper(raw: Json)
    requires Adapt(raw).Ok? && Proper(raw)
    ensures Proper(Adapt(raw).value)
  {
    NormPrintable(Stable, raw);
    NormInRange(Stable, raw);
  }

  /** Every answer passes the receiving side's check and is read back with null for the numbers
      that are not finite: as it was sent, exactly when there are none. */
  lemma WireRoundTrip(registry: Registry, record: FriendshipRecord, p: Json)
    requires Answer(registry, record, p).Some?
    ensures var a := Answer(registry, record, p).value;
            && Accept(Read(Wire(a))) == Some(Arrived(a))
            && (Accept(Read(Wire(a))) == Some(a) <==> (a.outcome.Success? ==> Finite(a.outcome.result)))
  {
    AnswerSendable(registry, record, p);
    var a := Answer(registry, record, p).value;
    if a.outcome.Success? { NulledExactly(a.outcome.result); }
    ResultArrives(a);
  }

  lemma AnswerSendable(registry: Registry, record: FriendshipRecord, p: Json)
    requires Answer(registry, record, p).Some?
    ensures var a := Answer(registry, record, p).value;
            Sendable(a) && (a.outcome.Success? ==> Proper(a.outcome.result))
  {
    AnswerFacts(registry, record, p);
    match Handle(registry, record, p)
    case Ok(_) => SuccessSendable(registry, record, p);
    case Err(code) => CodeIsNamed(code);
  }

  lemma SuccessSendable(registry: Registry, record: FriendshipRecord, p: Json)
    requires Handle(registry, record, p).Ok?
    ensures var a := Handle(registry, record, p).value;
            a.outcome.Success? && Sendable(a) && Proper(a.outcome.result)
  {
    LocalProper(registry, RequestOf(Field(p, REQUEST)));
  }

  lemma {:induction false} StaysNamed(t: Text)
    requires t != [] && !IsTrimmed(t[0])
    ensures TrimRight(t) != []
  {
    if IsTrimmed(t[|t| - 1]) { StaysNamed(t[..|t| - 1]); }
  }

  lemma CodeIsNamed(code: Code)
    ensures Named(String(CodeText(code)))
  {
    var t := CodeText(code);
    assert t[0] == 0x48 || t[0] == 0x49;
    StaysNamed(t);
  }

  /** A bounded result is bounded as it arrives exactly when its numbers are finite. */
  lemma BoundedArrival(v: Json)
    requires Bounded(v)
    ensures Bounded(Nulled(v)) <==> Finite(v)
  {
    if Finite(v) {
      NulledExactly(v);
    } else {
      var m :| m in v.members && !Finite(m.value);
      NullIsUnbounded(v.members, m);
    }
  }

  lemma NullIsUnbounded(ms: seq<Member>, m: Member)
    requires m in ms && m.value.NotFinite?
    ensures !Bounded(Object(NulledMembers(ms)))
  {
    var i :| 0 <= i < |ms| && ms[i] == m;
    assert NulledMembers(ms)[i] in NulledMembers(ms);
  }

  const NAN_RESULT := Object([Member([0x78], NotFinite(Ascii("NaN")))])
  const NULL_RESULT := Object([Member([0x78], Null)])

  lemma NulledNaN()
    ensures Nulled(NAN_RESULT) == NULL_RESULT && Proper(NAN_RESULT) && !Bounded(NULL_RESULT)
  {
    var m := Member([0x78], NotFinite(Ascii("NaN")));
    assert NulledMembers([m]) == NULL_RESULT.members;
    NullIsUnbounded([m], m);
  }

  lemma AdaptNaN()
    ensures Adapt(NAN_RESULT) == Ok(NAN_RESULT)
  {
    assert !IsTrimmed(0x78);
  }

  /** A handler result {x: NaN} passes the executor's check; the caller accepts {x: null}, which
      is neither that result nor bounded. */
  lemma NotANumberIsLost(r: InvocationResult)
    requires Named(String(r.invocationId)) && r.outcome == Success(NAN_RESULT)
    ensures Adapt(NAN_RESULT) == Ok(NAN_RESULT)
    ensures Accept(Read(Wire(r))) == Some(r.(outcome := Success(NULL_RESULT)))
    ensures NULL_RESULT != NAN_RESULT && !Bounded(NULL_RESULT)
  {
    AdaptNaN();
    NulledNaN();
    ResultArrives(r);
  }
}
