/** What travels over a relay socket: the messages a client sends and the frames the server
    answers with, as JSON texts whose length in bytes decides whether they are written. */
module RelayFrames {
  import opened Json
  import opened JsValue
  import opened Wrappers

  datatype Ids = Ids(node: Text, session: Text)

  datatype Status = StatusForwarded | StatusNoTarget | StatusInvalid
  datatype Reason = NoReason | NoTarget | NotRegistered | InvalidTo
  datatype IdField = NodeId | SessionId
  datatype Defect = Required | TooLong

  datatype Frame =
    | Replaced(ids: Ids)
    | Registered(ids: Ids)
    | RegisterRejected(field: IdField, defect: Defect)
    | RelayRejected(reason: Reason)
    | Forwarded(from: Text, payload: Json)
    | DroppedNote(to: Text)
    | RelayedNote(to: Text)
    | Ack(traceId: Json, status: Status, reason: Reason)

  /** What a client sends; an absent field is null. */
  datatype Message =
    | Register(nodeId: Json, sessionId: Json)
    | RelayTo(to: Json, payload: Json, traceId: Json)
    | Other

  // ------------------------------------------------------------------ messages

  const TYPE: Text := Ascii("type")
  const TO: Text := Ascii("to")
  const PAYLOAD: Text := Ascii("payload")
  const TRACE_ID: Text := Ascii("trace_id")
  const KIND: Text := Ascii("kind")
  const FROM: Text := Ascii("from")
  const REGISTER: Text := Ascii("register")
  const RELAY: Text := Ascii("relay")

  /** The message a parsed text is. */
  function MessageOf(j: Json): Message {
    if Field(j, TYPE) == String(REGISTER) then Register(Field(j, Ascii("node_id")), Field(j, Ascii("session_id")))
    else if Field(j, TYPE) == String(RELAY) then RelayTo(Field(j, TO), Field(j, PAYLOAD), Field(j, TRACE_ID))
    else Other
  }

  /** The kind a relay frame's payload names, null when it names none. */
  function KindOf(payload: Json): Json { Field(payload, KIND) }

  /** How a value is shown in the trace; null is shown as null. */
  function Shown(j: Json): Option<Text> { if j.Null? then None else Rendered(j) }

  /** Whether everything a relay frame puts into the trace converts to a string. Of a
      registered sender's frame the target is shown only once it is a text. */
  predicate Traceable(registered: bool, m: Message)
    requires m.RelayTo?
  {
    Renders(m.traceId) && Renders(KindOf(m.payload)) && (registered || Renders(m.to))
  }

  // -------------------------------------------------------------------- frames

  function StatusText(status: Status): Text {
    match status
    case StatusForwarded => Ascii("forwarded")
    case StatusNoTarget => Ascii("dropped_no_target")
    case StatusInvalid => Ascii("dropped_invalid")
  }

  function ReasonText(reason: Reason): Json {
    match reason
    case NoReason => Null
    case NoTarget => String(Ascii("NO_TARGET"))
    case NotRegistered => String(Ascii("NOT_REGISTERED"))
    case InvalidTo => String(Ascii("INVALID_TO"))
  }

  function ErrorJson(code: string, reason: string): Json {
    Object([Member(Ascii("ok"), Bool(false)),
            Member(Ascii("error"), Object([Member(Ascii("code"), String(Ascii(code))),
                                           Member(Ascii("reason"), String(Ascii(reason)))]))])
  }

  function SessionJson(ok: bool, kind: string, ids: Ids): Json {
    Object([Member(Ascii("ok"), Bool(ok)), Member(TYPE, String(Ascii(kind))),
            Member(Ascii("node_id"), String(ids.node)), Member(Ascii("session_id"), String(ids.session))])
  }

  function NoteJson(kind: string, to: Text): Json {
    Object([Member(Ascii("ok"), Bool(true)), Member(TYPE, String(Ascii(kind))), Member(TO, String(to))])
  }

  function FrameJson(f: Frame): Json {
    match f
    case Replaced(ids) => SessionJson(false, "replaced", ids)
    case Registered(ids) => SessionJson(true, "registered", ids)
    case RegisterRejected(field, defect) =>
      ErrorJson(if field == NodeId then "INVALID_NODE_ID" else "INVALID_SESSION_ID",
                if defect == Required then "required" else "too_long")
    case RelayRejected(reason) =>
      if reason == NotRegistered then ErrorJson("NOT_REGISTERED", "must register first")
      else ErrorJson("INVALID_TO", "to required")
    case Forwarded(from, payload) => Object([Member(FROM, String(from)), Member(PAYLOAD, payload)])
    case DroppedNote(to) => NoteJson("dropped", to)
    case RelayedNote(to) => NoteJson("relayed", to)
    case Ack(id, status, reason) =>
      Object([Member(TYPE, String(Ascii("ack"))), Member(TRACE_ID, id),
              Member(Ascii("status"), String(StatusText(status))), Member(Ascii("reason"), ReasonText(reason))])
  }

  // ---------------------------------------------------------- lengths in bytes

  const LIMIT: nat := 65536

  /** The bytes of a text in UTF-8; a surrogate without its partner is replaced by three. */
  function Utf8Length(t: Text): (n: nat)
    ensures n >= |t|
  {
    if t == [] then 0
    else if StartsWithPair(t) then 4 + Utf8Length(t[2..])
    else (if t[0] < 0x80 then 1 else if t[0] < 0x800 then 2 else 3) + Utf8Length(t[1..])
  }

  function FrameText(f: Frame): Text { Print(FrameJson(f)) }

  /** Longer frames are not written, without notice. */
  predicate Fits(f: Frame) { Utf8Length(FrameText(f)) < LIMIT }
}
