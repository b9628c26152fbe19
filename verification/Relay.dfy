/** Relay v2: the routing table, the bounded trace and the frames written to sockets. */
module Relay {
  import opened Json
  import opened JsValue
  import opened RelayFrames
  import opened Wrappers

  type SocketId = nat

  const TRACE_CAP: nat := 1000
  const ID_LIMIT: nat := 128

  /** A registration: who, over which socket, since when. */
  datatype Live = Live(ids: Ids, socket: SocketId, at: nat)

  datatype Entry = Entry(live: Live, lastSeen: nat)

  datatype Event =
    | RegisterEvent | UnregisterEvent
    | RelayReceived | ForwardedEvent | DroppedNoTarget | DroppedInvalid | AckEvent

  /** An ack event shows the status of the answer where the others show the payload's kind. */
  datatype Trace = Trace(
    event: Event, traceId: Option<Text>, from: Option<Text>, to: Option<Text>, kind: Option<Text>)

  datatype Write = Write(socket: SocketId, frame: Frame)

  datatype Input =
    | Receive(socket: SocketId, message: Message, now: nat)
    | Cleanup(socket: SocketId)
    | Destroy(socket: SocketId)

  /** The state a step depends on, with the whole history of trace events and of frames
      handed to the sockets. An exception nobody catches takes the server down. */
  datatype State = State(
    up: bool,
    entries: seq<Entry>,
    latest: map<Text, Text>,
    regs: map<SocketId, Ids>,
    destroyed: set<SocketId>,
    history: seq<Trace>,
    sent: seq<Write>)

  const EMPTY := State(true, [], map[], map[], {}, [], [])

  // -------------------------------------------------------------- identifiers

  /** The key of the routing table: both ids around a double colon. */
  function RegKey(ids: Ids): Text { ids.node + [COLON, COLON] + ids.session }

  function ValidateId(raw: Json, field: IdField): (r: Result<Text, Frame>)
    ensures r.Ok? ==> r.value != [] && |r.value| <= 128
  {
    var s := if raw.String? then Trim(raw.s) else [];
    if s == [] then Err(RegisterRejected(field, Required))
    else if |s| > ID_LIMIT then Err(RegisterRejected(field, TooLong))
    else Ok(s)
  }

  // -------------------------------------------- the table as an insertion-ordered map

  function Find(entries: seq<Entry>, key: Text): (r: Option<Entry>)
    ensures r.Some? ==> r.value in entries && RegKey(r.value.live.ids) == key
    ensures r.None? ==> forall e :: e in entries ==> RegKey(e.live.ids) != key
  {
    if entries == [] then None
    else if RegKey(entries[0].live.ids) == key then Some(entries[0])
    else
      assert entries == [entries[0]] + entries[1..];
      Find(entries[1..], key)
  }

  /** Setting a key keeps its place; a new key goes last. */
  function Put(entries: seq<Entry>, e: Entry): seq<Entry> {
    if entries == [] then [e]
    else if RegKey(entries[0].live.ids) == RegKey(e.live.ids) then [e] + entries[1..]
    else [entries[0]] + Put(entries[1..], e)
  }

  function Delete(entries: seq<Entry>, key: Text): seq<Entry> {
    if entries == [] then []
    else if RegKey(entries[0].live.ids) == key then entries[1..]
    else [entries[0]] + Delete(entries[1..], key)
  }

  /** The entry of a node with the greatest connection time, the first of them on a tie. */
  function Best(entries: seq<Entry>, node: Text): (r: Option<Entry>)
    ensures r.Some? ==> r.value in entries && r.value.live.ids.node == node
    ensures r.Some? ==> forall e :: e in entries && e.live.ids.node == node ==> e.live.at <= r.value.live.at
    ensures r.None? ==> forall e :: e in entries ==> e.live.ids.node != node
  {
    if entries == [] then None
    else
      var front, e := entries[..|entries| - 1], entries[|entries| - 1];
      assert entries == front + [e];
      var best := Best(front, node);
      if e.live.ids.node != node then best
      else if best.None? || e.live.at > best.value.live.at then Some(e)
      else best
  }

  function Recompute(latest: map<Text, Text>, entries: seq<Entry>, node: Text): map<Text, Text> {
    var best := Best(entries, node);
    if best.Some? then latest[node := best.value.live.ids.session] else latest - {node}
  }

  /** The entry a relay frame for this node is sent to. */
  function Target(st: State, node: Text): Option<Entry> {
    if node in st.latest && st.latest[node] != [] then
      var found := Find(st.entries, RegKey(Ids(node, st.latest[node])));
      if found.Some? && found.value.live.socket !in st.destroyed then found else None
    else None
  }

  // ------------------------------------------------------- bounded trace, frames

  /** The retained part of a history: its last TRACE_CAP events. */
  function Cap(ts: seq<Trace>): seq<Trace> {
    if |ts| > TRACE_CAP then ts[|ts| - TRACE_CAP..] else ts
  }

  /** The last thousand events, or all of fewer. */
  lemma CapExactly(h: seq<Trace>)
    ensures |Cap(h)| == (if |h| <= 1000 then |h| else 1000) && Cap(h) == h[|h| - |Cap(h)|..]
  {
  }

  /** Pushing an event and then trimming keeps the retained part of the longer history. */
  lemma CapPush(h: seq<Trace>, t: Trace)
    ensures Cap(h + [t]) == Cap(Cap(h) + [t])
  {
    if |h| > TRACE_CAP {
      assert Cap(h) + [t] == (h + [t])[|h| - TRACE_CAP..];
    }
  }

  function FittingIn(w: Write): seq<Write> { if Fits(w.frame) then [w] else [] }

  /** The frames that are written, of those handed to the sockets. */
  function Fitting(ws: seq<Write>): seq<Write> { Collect(FittingIn, ws) }

  // ---------------------------------------------------------- what a step emits

  /** The trace events and the frames of one step, in order. */
  datatype Output = Output(events: seq<Trace>, writes: seq<Write>)

  /** How one relay frame is shown in the trace, apart from the event. */
  datatype Label = Label(traceId: Option<Text>, from: Option<Text>, to: Option<Text>, kind: Option<Text>)

  function Entered(event: Event, l: Label): Trace { Trace(event, l.traceId, l.from, l.to, l.kind) }

  function Acked(l: Label, status: Status): Trace { Trace(AckEvent, l.traceId, l.from, l.to, Some(StatusText(status))) }

  function LabelOf(m: Message, from: Option<Text>, to: Option<Text>): Label
    requires m.RelayTo?
  {
    Label(Shown(m.traceId), from, to, Shown(KindOf(m.payload)))
  }

  function RelayOutput(st: State, s: SocketId, m: Message): Output
    requires m.RelayTo?
  {
    if s !in st.regs then
      var l := LabelOf(m, None, Shown(m.to));
      Output([Entered(DroppedInvalid, l), Acked(l, StatusInvalid)],
             [Write(s, RelayRejected(NotRegistered)), Write(s, Ack(m.traceId, StatusInvalid, NotRegistered))])
    else
      var from := st.regs[s].node;
      var to := if m.to.String? then Trim(m.to.s) else [];
      if to == [] then
        var l := LabelOf(m, Some(from), None);
        Output([Entered(DroppedInvalid, l), Acked(l, StatusInvalid)],
               [Write(s, RelayRejected(InvalidTo)), Write(s, Ack(m.traceId, StatusInvalid, InvalidTo))])
      else RouteOutput(Target(st, to), s, from, to, m)
  }

  function RouteOutput(target: Option<Entry>, s: SocketId, from: Text, to: Text, m: Message): Output
    requires m.RelayTo?
  {
    var l := LabelOf(m, Some(from), Some(to));
    if target.None? then
      Output([Entered(RelayReceived, l), Entered(DroppedNoTarget, l), Acked(l, StatusNoTarget)],
             [Write(s, DroppedNote(to)), Write(s, Ack(m.traceId, StatusNoTarget, NoTarget))])
    else
      Output([Entered(RelayReceived, l), Entered(ForwardedEvent, l), Acked(l, StatusForwarded)],
             [Write(target.value.live.socket, Forwarded(from, m.payload)),
              Write(s, RelayedNote(to)), Write(s, Ack(m.traceId, StatusForwarded, NoReason))])
  }

  function RegisterIds(m: Message): Result<Ids, Frame>
    requires m.Register?
  {
    match (ValidateId(m.nodeId, NodeId), ValidateId(m.sessionId, SessionId))
    case (Err(f), _) => Err(f)
    case (_, Err(f)) => Err(f)
    case (Ok(n), Ok(s)) => Ok(Ids(n, s))
  }

  function RegisterOutput(st: State, s: SocketId, m: Message): Output
    requires m.Register?
  {
    match RegisterIds(m)
    case Err(f) => Output([], [Write(s, f)])
    case Ok(ids) => AcceptOutput(Find(st.entries, RegKey(ids)), s, ids)
  }

  /** The socket that held the key before is told that it was replaced. */
  function NoticeOutput(prev: Option<Entry>, s: SocketId, ids: Ids): seq<Write> {
    if prev.Some? && prev.value.live.socket != s then [Write(prev.value.live.socket, Replaced(ids))] else []
  }

  function RegisterTrace(node: Text): Trace { Trace(RegisterEvent, None, Some(node), None, None) }
  function UnregisterTrace(node: Text): Trace { Trace(UnregisterEvent, None, Some(node), None, None) }

  function AcceptOutput(prev: Option<Entry>, s: SocketId, ids: Ids): Output {
    Output([RegisterTrace(ids.node)],
           NoticeOutput(prev, s, ids) + [Write(s, Registered(ids))])
  }

  /** Whether a cleanup of this socket takes an entry out of the table. */
  predicate Owns(st: State, s: SocketId) {
    s in st.regs && var cur := Find(st.entries, RegKey(st.regs[s])); cur.Some? && cur.value.live.socket == s
  }

  /** Whether a step gets through: the server is up, and everything that a relay frame puts
      into the trace converts to a string. */
  predicate Completes(st: State, input: Input) {
    st.up && (input.Receive? && input.message.RelayTo? ==> Traceable(input.socket in st.regs, input.message))
  }

  function StepOutput(st: State, input: Input): Output {
    if !Completes(st, input) then Output([], []) else
    match input
    case Receive(s, Register(n, ss), _) => RegisterOutput(st, s, input.message)
    case Receive(s, RelayTo(_, _, _), _) => RelayOutput(st, s, input.message)
    case Receive(_, Other, _) => Output([], [])
    case Cleanup(s) =>
      Output(if Owns(st, s) then [UnregisterTrace(st.regs[s].node)] else [], [])
    case Destroy(_) => Output([], [])
  }

  function Emit(st: State, o: Output): State {
    st.(history := st.history + o.events, sent := st.sent + o.writes)
  }

  /** The sender's own entry is stamped with the time of its frame. */
  function Touch(st: State, s: SocketId, now: nat): seq<Entry> {
    if Owns(st, s) then Put(st.entries, Find(st.entries, RegKey(st.regs[s])).value.(lastSeen := now)) else st.entries
  }

  /** A frame that cannot be shown in the trace ends the server before anything is answered. */
  function Step(st: State, input: Input): State {
    var out := Emit(st, StepOutput(st, input));
    if !st.up then st
    else if !Completes(st, input) then st.(up := false, entries := Touch(st, input.socket, input.now))
    else match input
    case Receive(s, m, now) =>
      (match m
       case Register(_, _) =>
         (match RegisterIds(m)
          case Err(_) => out
          case Ok(ids) =>
            out.(entries := Put(st.entries, Entry(Live(ids, s, now), now)),
                 latest := st.latest[ids.node := ids.session],
                 regs := st.regs[s := ids]))
       case RelayTo(_, _, _) => out.(entries := Touch(st, s, now))
       case Other => st)
    case Cleanup(s) =>
      if Owns(st, s) then
        var entries := Delete(st.entries, RegKey(st.regs[s]));
        out.(entries := entries, latest := Recompute(st.latest, entries, st.regs[s].node), regs := st.regs - {s})
      else out.(regs := st.regs - {s})
    case Destroy(s) => st.(destroyed := st.destroyed + {s})
  }

  function Run(inputs: seq<Input>): State {
    if inputs == [] then EMPTY else Step(Run(inputs[..|inputs| - 1]), inputs[|inputs| - 1])
  }

  lemma RelayStep(st: State, s: SocketId, m: Message, now: nat)
    requires st.up && m.RelayTo?
    ensures Step(st, Receive(s, m, now)) == (
      if Traceable(s in st.regs, m) then Emit(st, RelayOutput(st, s, m)).(entries := Touch(st, s, now))
      else st.(up := false, entries := Touch(st, s, now)))
  {
    assert st.history + [] == st.history && st.sent + [] == st.sent;
  }

  // ---------------------------------------------------------------- the server

  class RelayServer {
    var up: bool
    var entries: seq<Entry>
    var latest: map<Text, Text>
    var traces: seq<Trace>
    var regs: map<SocketId, Ids>
    var destroyed: set<SocketId>
    var written: seq<Write>
    ghost var history: seq<Trace>
    ghost var sent: seq<Write>

    ghost function Snapshot(): State
      reads this
    {
      State(up, entries, latest, regs, destroyed, history, sent)
    }

    /** The trace list is the tail of the history, and the sockets got the frames that fit. */
    ghost predicate Valid()
      reads this
    {
      traces == Cap(history) && written == Fitting(sent)
    }

    constructor ()
      ensures Valid() && Snapshot() == EMPTY
    {
      up := true;
      entries, latest, traces, regs, destroyed, written := [], map[], [], map[], {}, [];
      history, sent := [], [];
    }

    method PushTrace(t: Trace)
      requires Valid()
      modifies this`traces, this`history
      ensures Valid() && history == old(history) + [t]
    {
      CapPush(history, t);
      traces := traces + [t];
      if |traces| > TRACE_CAP {
        traces := traces[|traces| - TRACE_CAP..];
      }
      history := history + [t];
    }

    method WriteText(s: SocketId, f: Frame)
      requires Valid()
      modifies this`written, this`sent
      ensures Valid() && sent == old(sent) + [Write(s, f)]
    {
      CollectPush(FittingIn, sent, Write(s, f));
      if Fits(f) {
        written := written + [Write(s, f)];
      } else {
        assert written + [] == written;
      }
      sent := sent + [Write(s, f)];
    }

    method RecomputeLatest(node: Text)
      modifies this`latest
      ensures latest == Recompute(old(latest), entries, node)
    {
      var best: Option<Entry> := None;
      var i := 0;
      while i < |entries|
        invariant 0 <= i <= |entries|
        invariant best == Best(entries[..i], node)
      {
        var e := entries[i];
        assert entries[..i + 1][..i] == entries[..i];
        if e.live.ids.node == node {
          if best.None? || e.live.at > best.value.live.at {
            best := Some(e);
          }
        }
        i := i + 1;
      }
      assert entries[..i] == entries;
      if best.Some? {
        latest := latest[node := best.value.live.ids.session];
      } else {
        latest := latest - {node};
      }
    }

    method OnCleanup(s: SocketId)
      requires Valid() && up
      modifies this
      ensures Valid() && Snapshot() == Step(old(Snapshot()), Cleanup(s))
    {
      assert history + [] == history && sent + [] == sent;
      if s in regs {
        Unregister(s, regs[s]);
      }
      regs := regs - {s};
    }

    method Unregister(s: SocketId, ids: Ids)
      requires Valid() && up && s in regs && regs[s] == ids
      modifies this`entries, this`latest, this`traces, this`history
      ensures Valid()
      ensures entries == if old(Owns(Snapshot(), s)) then Delete(old(entries), RegKey(ids)) else old(entries)
      ensures latest == if old(Owns(Snapshot(), s)) then Recompute(old(latest), entries, ids.node) else old(latest)
      ensures history == old(history) + StepOutput(old(Snapshot()), Cleanup(s)).events
    {
      var cur := Find(entries, RegKey(ids));
      if cur.Some? && cur.value.live.socket == s {
        entries := Delete(entries, RegKey(ids));
        RecomputeLatest(ids.node);
        PushTrace(UnregisterTrace(ids.node));
      }
    }

    method OnDestroyed(s: SocketId)
      requires Valid() && up
      modifies this`destroyed
      ensures Valid() && Snapshot() == Step(old(Snapshot()), Destroy(s))
    {
      destroyed := destroyed + {s};
    }

    method OnRegister(s: SocketId, nodeId: Json, sessionId: Json, now: nat)
      requires Valid() && up
      modifies this
      ensures Valid() && Snapshot() == Step(old(Snapshot()), Receive(s, Register(nodeId, sessionId), now))
    {
      assert history + [] == history;
      var vn := ValidateId(nodeId, NodeId);
      var vs := ValidateId(sessionId, SessionId);
      if vn.Err? {
        WriteText(s, vn.error);
        return;
      }
      if vs.Err? {
        WriteText(s, vs.error);
        return;
      }
      Accept(s, Ids(vn.value, vs.value), now);
    }

    method Accept(s: SocketId, ids: Ids, now: nat)
      requires Valid()
      modifies this
      ensures Valid() && destroyed == old(destroyed) && up == old(up)
      ensures entries == Put(old(entries), Entry(Live(ids, s, now), now))
      ensures latest == old(latest)[ids.node := ids.session] && regs == old(regs)[s := ids]
      ensures var o := AcceptOutput(Find(old(entries), RegKey(ids)), s, ids);
              history == old(history) + o.events && sent == old(sent) + o.writes
    {
      ghost var notice := NoticeOutput(Find(entries, RegKey(ids)), s, ids);
      Assoc(sent, notice, [Write(s, Registered(ids))]);
      TellReplaced(s, ids);
      regs := regs[s := ids];
      entries := Put(entries, Entry(Live(ids, s, now), now));
      latest := latest[ids.node := ids.session];
      PushTrace(RegisterTrace(ids.node));
      WriteText(s, Registered(ids));
    }

    method TellReplaced(s: SocketId, ids: Ids)
      requires Valid()
      modifies this`written, this`sent
      ensures Valid() && sent == old(sent) + NoticeOutput(Find(entries, RegKey(ids)), s, ids)
    {
      var prev := Find(entries, RegKey(ids));
      if prev.Some? && prev.value.live.socket != s {
        WriteText(prev.value.live.socket, Replaced(ids));
      } else {
        assert sent + [] == sent;
      }
    }

    method Tell(s: SocketId, note: Frame, ack: Frame)
      requires Valid()
      modifies this`written, this`sent
      ensures Valid() && sent == old(sent) + [Write(s, note), Write(s, ack)]
    {
      WriteText(s, note);
      WriteText(s, ack);
      Assoc(old(sent), [Write(s, note)], [Write(s, ack)]);
    }

    /** The tail every answered frame shares: an event, two frames to the sender, an ack event. */
    method Answer(s: SocketId, event: Event, l: Label, note: Frame, ack: Frame)
      requires Valid() && ack.Ack?
      modifies this`traces, this`history, this`written, this`sent
      ensures Valid()
      ensures history == old(history) + [Entered(event, l), Acked(l, ack.status)]
      ensures sent == old(sent) + [Write(s, note), Write(s, ack)]
    {
      Assoc(history, [Entered(event, l)], [Acked(l, ack.status)]);
      PushTrace(Entered(event, l));
      Tell(s, note, ack);
      PushTrace(Acked(l, ack.status));
    }

    /** One relay frame. Making its first trace entry throws, and nothing catches it, when a
        part of the entry does not convert to a string. */
    method OnRelay(s: SocketId, to: Json, payload: Json, traceId: Json, now: nat)
      requires Valid() && up
      modifies this
      ensures Valid() && Snapshot() == Step(old(Snapshot()), Receive(s, RelayTo(to, payload, traceId), now))
    {
      var m := RelayTo(to, payload, traceId);
      RelayStep(Snapshot(), s, m, now);
      MarkSeen(s, now);
      if !Renders(traceId) || !Renders(KindOf(payload)) || (s !in regs && !Renders(to)) {
        up := false;
      } else {
        Respond(s, m, old(Snapshot()), now);
      }
    }

    method MarkSeen(s: SocketId, now: nat)
      modifies this`entries
      ensures entries == Touch(old(Snapshot()), s, now)
    {
      if s in regs {
        var cur := Find(entries, RegKey(regs[s]));
        if cur.Some? && cur.value.live.socket == s {
          entries := Put(entries, cur.value.(lastSeen := now));
        }
      }
    }

    method Respond(s: SocketId, m: Message, ghost before: State, now: nat)
      requires Valid() && m.RelayTo?
      requires Snapshot() == before.(entries := Touch(before, s, now))
      modifies this`traces, this`history, this`written, this`sent
      ensures Valid()
      ensures var o := RelayOutput(before, s, m);
              history == old(history) + o.events && sent == old(sent) + o.writes
    {
      if s !in regs {
        Answer(s, DroppedInvalid, LabelOf(m, None, Shown(m.to)), RelayRejected(NotRegistered),
               Ack(m.traceId, StatusInvalid, NotRegistered));
        return;
      }
      var from := regs[s].node;
      var toRaw := if m.to.String? then Trim(m.to.s) else [];
      if toRaw == [] {
        Answer(s, DroppedInvalid, LabelOf(m, Some(from), None), RelayRejected(InvalidTo),
               Ack(m.traceId, StatusInvalid, InvalidTo));
      } else {
        TouchKeepsTarget(before, s, now, toRaw);
        Route(s, from, toRaw, m);
      }
    }

    method FindTarget(to: Text) returns (target: Option<Entry>)
      ensures target == Target(Snapshot(), to)
    {
      target := None;
      if to in latest && latest[to] != [] {
        var found := Find(entries, RegKey(Ids(to, latest[to])));
        if found.Some? && found.value.live.socket !in destroyed {
          target := found;
        }
      }
    }

    method Route(s: SocketId, from: Text, to: Text, m: Message)
      requires Valid() && m.RelayTo?
      modifies this`traces, this`history, this`written, this`sent
      ensures Valid()
      ensures var o := RouteOutput(Target(old(Snapshot()), to), s, from, to, m);
              history == old(history) + o.events && sent == old(sent) + o.writes
    {
      var target := FindTarget(to);
      var l := LabelOf(m, Some(from), Some(to));
      PushTrace(Entered(RelayReceived, l));
      Assoc(old(history), [Entered(RelayReceived, l)], [Entered(if target.None? then DroppedNoTarget else
            ForwardedEvent, l), Acked(l, if target.None? then StatusNoTarget else StatusForwarded)]);
      if target.None? {
        Answer(s, DroppedNoTarget, l, DroppedNote(to), Ack(m.traceId, StatusNoTarget, NoTarget));
      } else {
        Assoc(sent, [Write(target.value.live.socket, Forwarded(from, m.payload))],
              [Write(s, RelayedNote(to)), Write(s, Ack(m.traceId, StatusForwarded, NoReason))]);
        WriteText(target.value.live.socket, Forwarded(from, m.payload));
        Answer(s, ForwardedEvent, l, RelayedNote(to), Ack(m.traceId, StatusForwarded, NoReason));
      }
    }
  }

  lemma {:induction false} FindPut(entries: seq<Entry>, e: Entry, key: Text)
    ensures Find(Put(entries, e), key) == if key == RegKey(e.live.ids) then Some(e) else Find(entries, key)
  {
    if entries != [] && RegKey(entries[0].live.ids) != RegKey(e.live.ids) {
      FindPut(entries[1..], e, key);
      assert Put(entries, e)[1..] == Put(entries[1..], e);
    }
  }

  /** Stamping the sender's entry does not change which socket a frame goes to. */
  lemma TouchKeepsTarget(st: State, s: SocketId, now: nat, node: Text)
    ensures var touched := st.(entries := Touch(st, s, now));
            && Target(touched, node).Some? == Target(st, node).Some?
            && (Target(st, node).Some? ==> Target(touched, node).value.live == Target(st, node).value.live)
  {
    if Owns(st, s) && node in st.latest {
      FindPut(st.entries, Find(st.entries, RegKey(st.regs[s])).value.(lastSeen := now), RegKey(Ids(node,
          st.latest[node])));
    }
  }
}
