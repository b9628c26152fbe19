/** The relay as its clients see it: what the texts of messages and frames say, field by field,
    and what a relay frame brings its sender, its target and the trace. */
module RelayTexts {
  import opened Json
  import opened JsValue
  import opened Relay
  import opened RelayAnswers
  import opened RelayFrames
  import opened Wrappers

  /** What a text parsed to says under a name; an absent field is null. */
  predicate Says(v: Json, name: string, x: Json) { Field(v, Ascii(name)) == x }

  // ------------------------------------------------------------------ messages

  /** The kind of a message is what its type says, and its parts are the fields of those names. */
  lemma MessageSays(v: Json)
    ensures match MessageOf(v)
            case Register(n, s) =>
              && Says(v, "type", String(Ascii("register")))
              && Says(v, "node_id", n) && Says(v, "session_id", s)
            case RelayTo(to, p, id) =>
              && Says(v, "type", String(Ascii("relay")))
              && Says(v, "to", to) && Says(v, "payload", p) && Says(v, "trace_id", id)
            case Other => !Says(v, "type", String(Ascii("register"))) && !Says(v, "type", String(Ascii("relay")))
  {
    assert |REGISTER| == 8 && |RELAY| == 5;
  }

  // -------------------------------------------------------------------- frames

  ghost predicate SaysError(v: Json, code: string, reason: string) {
    && Says(v, "ok", Bool(false))
    && Says(Field(v, Ascii("error")), "code", String(Ascii(code)))
    && Says(Field(v, Ascii("error")), "reason", String(Ascii(reason)))
  }

  ghost predicate SaysSession(v: Json, ok: bool, kind: string, ids: Ids) {
    && Says(v, "ok", Bool(ok)) && Says(v, "type", String(Ascii(kind)))
    && Says(v, "node_id", String(ids.node)) && Says(v, "session_id", String(ids.session))
  }

  ghost predicate SaysNote(v: Json, kind: string, to: Text) {
    Says(v, "ok", Bool(true)) && Says(v, "type", String(Ascii(kind))) && Says(v, "to", String(to))
  }

  ghost predicate SaysAck(v: Json, traceId: Json, status: string, reason: Json) {
    && Says(v, "type", String(Ascii("ack"))) && Says(v, "trace_id", Nulled(traceId))
    && Says(v, "status", String(Ascii(status))) && Says(v, "reason", reason)
  }

  /** What the receiver of a frame reads off its text. */
  ghost predicate SaysFrame(v: Json, f: Frame) {
    match f
    case Replaced(ids) => SaysSession(v, false, "replaced", ids)
    case Registered(ids) => SaysSession(v, true, "registered", ids)
    case RegisterRejected(NodeId, Required) => SaysError(v, "INVALID_NODE_ID", "required")
    case RegisterRejected(NodeId, TooLong) => SaysError(v, "INVALID_NODE_ID", "too_long")
    case RegisterRejected(SessionId, Required) => SaysError(v, "INVALID_SESSION_ID", "required")
    case RegisterRejected(SessionId, TooLong) => SaysError(v, "INVALID_SESSION_ID", "too_long")
    case RelayRejected(reason) =>
      if reason == NotRegistered then SaysError(v, "NOT_REGISTERED", "must register first")
      else SaysError(v, "INVALID_TO", "to required")
    case Forwarded(from, payload) => Says(v, "from", String(from)) && Says(v, "payload", Nulled(payload))
    case DroppedNote(to) => SaysNote(v, "dropped", to)
    case RelayedNote(to) => SaysNote(v, "relayed", to)
    case Ack(id, status, reason) =>
      SaysAck(v, id,
              match status
              case StatusForwarded => "forwarded"
              case StatusNoTarget => "dropped_no_target"
              case StatusInvalid => "dropped_invalid",
              match reason
              case NoReason => Null
              case NoTarget => String(Ascii("NO_TARGET"))
              case NotRegistered => String(Ascii("NOT_REGISTERED"))
              case InvalidTo => String(Ascii("INVALID_TO")))
  }

  /** An object of values a program can hold, as it is read off its text. */
  lemma ObjectRead(ms: seq<Member>)
    requires DistinctKeys(ms) && forall m :: m in ms ==> Proper(m.value)
    ensures Parse(Print(Object(ms))).Some?
    ensures forall i :: 0 <= i < |ms| ==> Field(Parse(Print(Object(ms))).value, ms[i].key) == Nulled(ms[i].value)
  {
    ProperObject(ms);
    SentAndRead(Object(ms), []);
    assert Print(Object(ms)) + [] == Print(Object(ms));
    forall i | 0 <= i < |ms| ensures Field(Nulled(Object(ms)), ms[i].key) == Nulled(ms[i].value) {
      FieldOf(ms, i);
      FieldNulled(Object(ms), ms[i].key);
    }
  }

  lemma ReasonRead(es: seq<Member>, code: string, reason: string)
    requires es == [Member(Ascii("code"), String(Ascii(code))), Member(Ascii("reason"), String(Ascii(reason)))]
    ensures Proper(Object(es))
    ensures Says(Nulled(Object(es)), "code", String(Ascii(code)))
    ensures Says(Nulled(Object(es)), "reason", String(Ascii(reason)))
  {
    assert |es[0].key| == 4 && |es[1].key| == 6;
    ProperObject(es);
    FieldOf(es, 0);
    FieldOf(es, 1);
    FieldNulled(Object(es), es[0].key);
    FieldNulled(Object(es), es[1].key);
  }

  lemma ErrorRead(code: string, reason: string)
    ensures var v := Parse(Print(ErrorJson(code, reason))); v.Some? && SaysError(v.value, code, reason)
  {
    var ms := ErrorJson(code, reason).members;
    assert |ms[0].key| == 2 && |ms[1].key| == 5;
    ReasonRead(ms[1].value.members, code, reason);
    ObjectRead(ms);
    assert ms[0].key == Ascii("ok") && ms[1].key == Ascii("error");
  }

  lemma SessionRead(ok: bool, kind: string, ids: Ids)
    ensures var v := Parse(Print(SessionJson(ok, kind, ids))); v.Some? && SaysSession(v.value, ok, kind, ids)
  {
    var ms := SessionJson(ok, kind, ids).members;
    assert |ms[0].key| == 2 && |ms[1].key| == 4 && |ms[2].key| == 7 && |ms[3].key| == 10;
    ObjectRead(ms);
    assert ms[0].key == Ascii("ok") && ms[1].key == Ascii("type");
    assert ms[2].key == Ascii("node_id") && ms[3].key == Ascii("session_id");
  }

  lemma NoteRead(kind: string, to: Text)
    ensures var v := Parse(Print(NoteJson(kind, to))); v.Some? && SaysNote(v.value, kind, to)
  {
    var ms := NoteJson(kind, to).members;
    assert Ascii("ok")[0] == 0x6f && Ascii("to")[0] == 0x74 && |ms[1].key| == 4;
    ObjectRead(ms);
    assert ms[0].key == Ascii("ok") && ms[1].key == Ascii("type") && ms[2].key == Ascii("to");
  }

  lemma ForwardedRead(f: Frame)
    requires f.Forwarded? && Proper(f.payload)
    ensures var v := Parse(FrameText(f)); v.Some? && SaysFrame(v.value, f)
  {
    var ms := FrameJson(f).members;
    assert |ms[0].key| == 4 && |ms[1].key| == 7;
    ObjectRead(ms);
    assert ms[0].key == Ascii("from") && ms[1].key == Ascii("payload");
  }

  lemma AckRead(f: Frame)
    requires f.Ack? && Proper(f.traceId)
    ensures var v := Parse(FrameText(f)); v.Some? && SaysFrame(v.value, f)
  {
    var ms := FrameJson(f).members;
    assert |ms[0].key| == 4 && |ms[1].key| == 8 && |ms[2].key| == 6 && |ms[3].key| == 6;
    assert ms[2].key[0] == 0x73 && ms[3].key[0] == 0x72;
    ObjectRead(ms);
    assert ms[0].key == Ascii("type") && ms[1].key == Ascii("trace_id");
    assert ms[2].key == Ascii("status") && ms[3].key == Ascii("reason");
  }

  /** Every frame says on the wire what it stands for. */
  lemma FrameSays(f: Frame)
    requires f.Forwarded? ==> Proper(f.payload)
    requires f.Ack? ==> Proper(f.traceId)
    ensures var v := Parse(FrameText(f)); v.Some? && SaysFrame(v.value, f)
  {
    match f
    case Replaced(ids) => SessionRead(false, "replaced", ids);
    case Registered(ids) => SessionRead(true, "registered", ids);
    case RegisterRejected(field, defect) =>
      ErrorRead(if field == NodeId then "INVALID_NODE_ID" else "INVALID_SESSION_ID",
                if defect == Required then "required" else "too_long");
    case RelayRejected(reason) =>
      ErrorRead("NOT_REGISTERED", "must register first");
      ErrorRead("INVALID_TO", "to required");
    case Forwarded(_, _) => ForwardedRead(f);
    case DroppedNote(to) => NoteRead("dropped", to);
    case RelayedNote(to) => NoteRead("relayed", to);
    case Ack(_, _, _) => AckRead(f);
  }

  // ----------------------------------------------- what one relay frame brings about

  /** The node a frame is addressed to, empty when it names none. */
  function Addressee(m: Message): Text
    requires m.RelayTo?
  {
    if m.to.String? then Trim(m.to.s) else []
  }

  /** What is to be told of a relay frame, in words: an unregistered sender and a frame without
      an address are invalid, a node without a live session is no target, all else is forwarded. */
  function Word(st: State, s: SocketId, m: Message): string
    requires m.RelayTo?
  {
    if s !in st.regs || Addressee(m) == [] then "dropped_invalid"
    else if Target(st, Addressee(m)).None? then "dropped_no_target"
    else "forwarded"
  }

  lemma WordsDiffer()
    ensures "dropped_invalid" != "dropped_no_target" && "dropped_invalid" != "forwarded"
    ensures "dropped_no_target" != "forwarded"
  {
    assert "dropped_invalid"[0] == 'd' && "dropped_invalid"[8] == 'i';
    assert "dropped_no_target"[0] == 'd' && "dropped_no_target"[8] == 'n' && "forwarded"[0] == 'f';
  }

  function Because(st: State, s: SocketId, m: Message): Json
    requires m.RelayTo?
  {
    if s !in st.regs then String(Ascii("NOT_REGISTERED"))
    else if Addressee(m) == [] then String(Ascii("INVALID_TO"))
    else if Target(st, Addressee(m)).None? then String(Ascii("NO_TARGET"))
    else Null
  }

  /** The texts of acks among the frames, with the sockets they go to. */
  function AckTextOf(w: Write): seq<(SocketId, Text)> { if w.frame.Ack? then [(w.socket, FrameText(w.frame))] else [] }

  function AckTexts(ws: seq<Write>): seq<(SocketId, Text)> { Collect(AckTextOf, ws) }

  /** The forwarded frames among them. */
  function ForwardTextOf(w: Write): seq<(SocketId, Text)> {
    if w.frame.Forwarded? then [(w.socket, FrameText(w.frame))] else []
  }

  function ForwardTexts(ws: seq<Write>): seq<(SocketId, Text)> { Collect(ForwardTextOf, ws) }

  /** The writes of a relay frame: perhaps a forward, then a note or an error, then the ack. */
  lemma WritesOf(st: State, s: SocketId, m: Message, ws: seq<Write>)
    requires m.RelayTo? && ws == RelayOutput(st, s, m).writes
    ensures AckTexts(ws) == [(s, FrameText(ws[|ws| - 1].frame))] && ws[|ws| - 1].frame.Ack?
    ensures ForwardTexts(ws) ==
            if |ws| == 3 then [(ws[0].socket, FrameText(ws[0].frame))] else []
  {
    if |ws| == 2 {
      assert ws == [ws[0], ws[1]];
      CollectTwo(AckTextOf, ws[0], ws[1]);
      CollectTwo(ForwardTextOf, ws[0], ws[1]);
    } else {
      assert ws == [ws[0], ws[1], ws[2]];
      CollectThree(AckTextOf, ws[0], ws[1], ws[2]);
      CollectThree(ForwardTextOf, ws[0], ws[1], ws[2]);
    }
  }

  /** The sender of a relay frame that gets through reads, in one ack, its own trace id and what
      became of the frame, and why. */
  lemma AckTells(st: State, s: SocketId, m: Message, now: nat)
    requires m.RelayTo? && st.up && Traceable(s in st.regs, m) && Proper(m.traceId)
    ensures var acks := AckTexts(StepOutput(st, Receive(s, m, now)).writes);
            && |acks| == 1 && acks[0].0 == s && Parse(acks[0].1).Some?
            && SaysAck(Parse(acks[0].1).value, m.traceId, Word(st, s, m), Because(st, s, m))
  {
    var ws := RelayOutput(st, s, m).writes;
    WritesOf(st, s, m, ws);
    FrameSays(ws[|ws| - 1].frame);
  }

  /** The frame reaches a socket exactly when the ack says forwarded, and then only the socket of
      the live session of the node it is addressed to, which reads sender and payload. */
  lemma ForwardTells(st: State, s: SocketId, m: Message, now: nat)
    requires m.RelayTo? && st.up && Traceable(s in st.regs, m) && Proper(m.payload)
    ensures var sent := ForwardTexts(StepOutput(st, Receive(s, m, now)).writes);
            && (sent != [] <==> Word(st, s, m) == "forwarded")
            && (sent != [] ==>
                  && |sent| == 1 && sent[0].0 == Target(st, Addressee(m)).value.live.socket
                  && Parse(sent[0].1).Some? && Says(Parse(sent[0].1).value, "from", String(st.regs[s].node))
                  && Says(Parse(sent[0].1).value, "payload", Nulled(m.payload)))
  {
    var ws := RelayOutput(st, s, m).writes;
    WritesOf(st, s, m, ws);
    ForwardShape(st, s, m, ws);
    if |ws| == 3 { FrameSays(ws[0].frame); }
  }

  lemma ForwardShape(st: State, s: SocketId, m: Message, ws: seq<Write>)
    requires m.RelayTo? && ws == RelayOutput(st, s, m).writes
    ensures |ws| == 3 <==> Word(st, s, m) == "forwarded"
    ensures |ws| == 3 ==>
              && s in st.regs && Target(st, Addressee(m)).Some?
              && ws[0] == Write(Target(st, Addressee(m)).value.live.socket, Forwarded(st.regs[s].node, m.payload))
  {
    WordsDiffer();
  }

  /** A field that is absent or null is shown as nothing, any other as the string it converts to. */
  ghost predicate ShownAs(j: Json, shown: Option<Text>) {
    if j.Null? then shown == None else shown == Rendered(j) && shown.Some?
  }

  /** What the trace shows of it: whether it got as far as routing, what became of it, and the
      ack; each with trace id, sender and address, the ack with the word the sender reads, the
      others with the kind that the payload names. */
  lemma TraceTells(st: State, s: SocketId, m: Message, now: nat)
    requires m.RelayTo? && st.up && Traceable(s in st.regs, m)
    ensures var ts := StepOutput(st, Receive(s, m, now)).events;
            && |ts| == (if Word(st, s, m) == "dropped_invalid" then 2 else 3)
            && (|ts| == 3 ==> ts[0].event == RelayReceived)
            && ts[|ts| - 2].event == (if Word(st, s, m) == "forwarded" then ForwardedEvent
                                      else if Word(st, s, m) == "dropped_no_target" then DroppedNoTarget
                                      else DroppedInvalid)
            && ts[|ts| - 1].event == AckEvent && ts[|ts| - 1].kind == Some(Ascii(Word(st, s, m)))
            && (forall i :: 0 <= i < |ts| - 1 ==> ShownAs(Field(m.payload, Ascii("kind")), ts[i].kind))
            && forall i :: 0 <= i < |ts| ==>
                 && ShownAs(m.traceId, ts[i].traceId)
                 && ts[i].from == (if s in st.regs then Some(st.regs[s].node) else None)
                 && if s !in st.regs then ShownAs(m.to, ts[i].to)
                    else ts[i].to == if Addressee(m) == [] then None else Some(Addressee(m))
  {
    WordsDiffer();
    RendersExactly(m.traceId);
    RendersExactly(Field(m.payload, Ascii("kind")));
    RendersExactly(m.to);
  }

  // ----------------------------------------------------- what a registration is told

  /** An id as the relay takes it, empty when the field is no text. */
  function Taken(j: Json): Text { if j.String? then Trim(j.s) else [] }

  /** The last frame of a registration goes to its socket and says what is wrong with the node id,
      or else with the session id, or that both are registered. */
  lemma RegisterTells(st: State, s: SocketId, m: Message, now: nat)
    requires m.Register? && st.up
    ensures var ws := StepOutput(st, Receive(s, m, now)).writes;
            && ws != [] && ws[|ws| - 1].socket == s && Parse(FrameText(ws[|ws| - 1].frame)).Some?
            && var v := Parse(FrameText(ws[|ws| - 1].frame)).value;
               var node, session := Taken(m.nodeId), Taken(m.sessionId);
               if node == [] then SaysError(v, "INVALID_NODE_ID", "required")
               else if |node| > 128 then SaysError(v, "INVALID_NODE_ID", "too_long")
               else if session == [] then SaysError(v, "INVALID_SESSION_ID", "required")
               else if |session| > 128 then SaysError(v, "INVALID_SESSION_ID", "too_long")
               else SaysSession(v, true, "registered", Ids(node, session))
  {
    var ws := RegisterOutput(st, s, m).writes;
    var last := ws[|ws| - 1].frame;
    FrameSays(last);
  }
}
