/** Many nodes and a network that may lose, repeat, reorder and forge: what a friend record at
    one node says about the humans behind both. */
module Consent {
  import opened Json
  import opened Session
  import opened FriendshipNode
  import opened Transcript
  import opened Wrappers

  /** An envelope an honest node signed, with the messages it held at that moment. */
  datatype Signed = Signed(message: Message, held: seq<Envelope>)

  /** The honest nodes, all they ever signed, the humans that entered a session at their own
      node, and the envelopes each node sent or accepted. */
  datatype World = World(
    nodes: map<Text, Node>, signed: seq<Signed>, humans: set<(Text, Text)>, held: map<Text, seq<Envelope>>)

  datatype Setup = Setup(deps: Deps, hash: Hash, length: Length)

  datatype Act =
    | Human(actor: Text, session: Text, event: Event, circumstance: Circumstance)
    | Send(actor: Text, message: Message)
    | Deliver(actor: Text, message: Message, circumstance: Circumstance)

  function HeldBy(w: World, x: Text): seq<Envelope> { if x in w.held then w.held[x] else [] }

  predicate WasSigned(w: World, m: Message) { exists s :: s in w.signed && s.message == m }

  /** An honest node announces an entry only for its own human, to the peer of the session,
      bound to the transcript it holds. */
  predicate MayAnnounce(u: Setup, w: World, x: Text, m: Message)
    requires x in w.nodes
  {
    var id := m.core.sessionId;
    && id in w.nodes[x].sessions && w.nodes[x].sessions[id].localEntered
    && m.core.toActor == w.nodes[x].sessions[id].peer
    && u.deps.decrypt(m) == Some(EntryBody(id, TranscriptHash(u.hash, u.length, id, HeldBy(w, x))))
  }

  /** Anything may be delivered to anyone at any time, except that a message that verifies
      as from an honest actor was signed by it. */
  predicate Legal(u: Setup, w: World, a: Act) {
    && a.actor in w.nodes
    && match a
       case Human(_, _, e, _) => e.Local?
       case Send(x, m) => m.core.fromActor == x && (m.kind == HumanEntry ==> MayAnnounce(u, w, x, m))
       case Deliver(_, m, _) => m.core.fromActor in w.nodes && u.deps.verified(m) ==> WasSigned(w, m)
  }

  /** The input of the acting node, unless the act is a send. */
  function InputOf(a: Act): Input
    requires !a.Send?
  {
    if a.Human? then Injected(a.session, a.event, a.circumstance) else Inbound(a.message, a.circumstance)
  }

  function Next(u: Setup, w: World, a: Act): World {
    if a.actor !in w.nodes then w else
    var n := w.nodes[a.actor];
    match a
    case Human(x, id, e, _) =>
      var entered := e.Local? && e.localKind == LocalEntry && Accepted(u.deps, n, InputOf(a));
      w.(nodes := w.nodes[x := Step(u.deps, n, InputOf(a))], humans := w.humans + (if entered then {(x, id)} else {}))
    case Send(x, m) =>
      w.(signed := w.signed + [Signed(m, HeldBy(w, x))], held := w.held[x := HeldBy(w, x) + [Envelope(m.core, m.rest)]])
    case Deliver(x, m, _) =>
      var held := HeldBy(w, x) + (if Accepted(u.deps, n, InputOf(a)) then [Envelope(m.core, m.rest)] else []);
      w.(nodes := w.nodes[x := Step(u.deps, n, InputOf(a))], held := w.held[x := held])
  }

  /** The guard the session manager does not have, with the sender left open: an entry into a
      session with the peer `p` comes from `sender` and is addressed to this node. */
  predicate FromSender(w: World, a: Act, p: Text, sender: Text) {
    a.Deliver? && a.message.kind == HumanEntry && a.actor in w.nodes
        && StateFor(w.nodes[a.actor], a.message).peer == p ==>
      a.message.core.fromActor == sender && a.message.core.toActor == a.actor
  }

  function Start(honest: set<Text>): World { World(map x | x in honest :: EMPTY, [], {}, map[]) }

  function Run(u: Setup, honest: set<Text>, acts: seq<Act>): World {
    if acts == [] then Start(honest) else Next(u, Run(u, honest, acts[..|acts| - 1]), acts[|acts| - 1])
  }

  ghost predicate LegalRun(u: Setup, honest: set<Text>, acts: seq<Act>) {
    acts == [] ||
    (LegalRun(u, honest, acts[..|acts| - 1]) && Legal(u, Run(u, honest, acts[..|acts| - 1]), acts[|acts| - 1]))
  }

  ghost predicate EntriesFrom(u: Setup, honest: set<Text>, acts: seq<Act>, p: Text, sender: Text) {
    acts == [] ||
    (EntriesFrom(u, honest, acts[..|acts| - 1], p, sender)
     && FromSender(Run(u, honest, acts[..|acts| - 1]), acts[|acts| - 1], p, sender))
  }

  // ------------------------------------------------------------------ invariants

  predicate EnteredAt(w: World, x: Text, id: Text) {
    x in w.nodes && id in w.nodes[x].sessions && w.nodes[x].sessions[id].localEntered
  }

  predicate RemoteAt(w: World, x: Text, id: Text) {
    x in w.nodes && id in w.nodes[x].sessions && w.nodes[x].sessions[id].remoteEntered
  }

  ghost predicate NodesSound(w: World) { forall x :: x in w.nodes ==> Sound(w.nodes[x]) }

  /** A local flag is set exactly where the human of that node entered. */
  ghost predicate HumansRecorded(w: World) {
    forall x, id :: (x, id) in w.humans <==> EnteredAt(w, x, id)
  }

  /** Every announced entry is one of a human, meant for the peer of the session. */
  ghost predicate AnnouncedTruly(w: World) {
    forall s :: s in w.signed && s.message.kind == HumanEntry ==>
      var x, id := s.message.core.fromActor, s.message.core.sessionId;
      EnteredAt(w, x, id) && s.message.core.toActor == w.nodes[x].sessions[id].peer
  }

  /** A remote flag in a session with this peer stands for an entry of the peer's human into
      the session with this node. */
  ghost predicate RemoteTruly(w: World, p: Text) {
    forall x, id :: RemoteAt(w, x, id) && w.nodes[x].sessions[id].peer == p ==>
      EnteredAt(w, p, id) && w.nodes[p].sessions[id].peer == x
  }

  ghost predicate Inv(w: World) { NodesSound(w) && HumansRecorded(w) && AnnouncedTruly(w) }

  lemma StartInv(honest: set<Text>, p: Text)
    ensures Inv(Start(honest)) && RemoteTruly(Start(honest), p)
  {
  }

  /** Sessions at any node keep their peer and their flags through an act. */
  lemma SessionsStay(u: Setup, w: World, a: Act, x: Text, id: Text)
    requires NodesSound(w) && Legal(u, w, a)
    ensures EnteredAt(w, x, id) ==> EnteredAt(Next(u, w, a), x, id)
    ensures x in w.nodes && id in w.nodes[x].sessions ==>
              && id in Next(u, w, a).nodes[x].sessions
              && Next(u, w, a).nodes[x].sessions[id].peer == w.nodes[x].sessions[id].peer
  {
    if !a.Send? && x == a.actor { SessionStep(u.deps, w.nodes[x], InputOf(a), id); }
  }

  lemma NextSound(u: Setup, w: World, a: Act)
    requires NodesSound(w) && Legal(u, w, a)
    ensures NodesSound(Next(u, w, a)) && Next(u, w, a).nodes.Keys == w.nodes.Keys
  {
    if !a.Send? { StepSound(u.deps, w.nodes[a.actor], InputOf(a)); }
  }

  /** Whether an act is the entry of this node's human into this session. */
  predicate IsEntry(u: Setup, w: World, a: Act, x: Text, id: Text) {
    && a.Human? && a.actor == x && a.session == id && x in w.nodes
    && a.event.Local? && a.event.localKind == LocalEntry && Accepted(u.deps, w.nodes[x], InputOf(a))
  }

  lemma EnteredExactly(u: Setup, w: World, a: Act, x: Text, id: Text)
    requires NodesSound(w) && Legal(u, w, a)
    ensures EnteredAt(Next(u, w, a), x, id) <==> EnteredAt(w, x, id) || IsEntry(u, w, a, x, id)
  {
    if !a.Send? && x == a.actor {
      SessionStep(u.deps, w.nodes[x], InputOf(a), id);
      if IsEntry(u, w, a, x, id) { EntrySets(w.nodes[x].sessions[id], a.event); }
    }
  }

  lemma NextHumans(u: Setup, w: World, a: Act)
    requires NodesSound(w) && HumansRecorded(w) && Legal(u, w, a)
    ensures HumansRecorded(Next(u, w, a))
  {
    var after := Next(u, w, a);
    forall x, id ensures (x, id) in after.humans <==> EnteredAt(after, x, id) {
      EnteredExactly(u, w, a, x, id);
    }
  }

  lemma NextAnnounced(u: Setup, w: World, a: Act)
    requires NodesSound(w) && AnnouncedTruly(w) && Legal(u, w, a)
    ensures AnnouncedTruly(Next(u, w, a))
  {
    forall s | s in Next(u, w, a).signed && s.message.kind == HumanEntry
      ensures var x, id := s.message.core.fromActor, s.message.core.sessionId;
              EnteredAt(Next(u, w, a), x, id) && s.message.core.toActor == Next(u, w, a).nodes[x].sessions[id].peer
    {
      SessionsStay(u, w, a, s.message.core.fromActor, s.message.core.sessionId);
    }
  }

  lemma {:induction false} RunInv(u: Setup, honest: set<Text>, acts: seq<Act>)
    requires LegalRun(u, honest, acts)
    ensures Inv(Run(u, honest, acts)) && Run(u, honest, acts).nodes.Keys == honest
  {
    if acts != [] {
      var w, a := Run(u, honest, acts[..|acts| - 1]), acts[|acts| - 1];
      RunInv(u, honest, acts[..|acts| - 1]);
      NextSound(u, w, a);
      NextHumans(u, w, a);
      NextAnnounced(u, w, a);
    }
  }

  /** An entry that was delivered from an honest actor was announced by it, to this node. */
  lemma EntryFromPeer(u: Setup, w: World, a: Act)
    requires Inv(w) && Legal(u, w, a) && a.Deliver? && a.message.kind == HumanEntry
    requires Accepted(u.deps, w.nodes[a.actor], InputOf(a)) && a.message.core.toActor == a.actor
    ensures var p, id := a.message.core.fromActor, a.message.core.sessionId;
            p in w.nodes ==> EnteredAt(w, p, id) && w.nodes[p].sessions[id].peer == a.actor
  {
  }

  lemma NextRemoteAt(u: Setup, w: World, a: Act, p: Text, x: Text, id: Text)
    requires Inv(w) && RemoteTruly(w, p) && p in w.nodes && Legal(u, w, a) && FromSender(w, a, p, p)
    requires var after := Next(u, w, a); RemoteAt(after, x, id) && after.nodes[x].sessions[id].peer == p
    requires Next(u, w, a).nodes.Keys == w.nodes.Keys
    ensures var after := Next(u, w, a); EnteredAt(after, p, id) && after.nodes[p].sessions[id].peer == x
  {
    SessionsStay(u, w, a, x, id);
    SessionsStay(u, w, a, p, id);
    if !RemoteAt(w, x, id) {
      SessionStep(u.deps, w.nodes[x], InputOf(a), id);
      EntryFromPeer(u, w, a);
    }
  }

  lemma NextRemote(u: Setup, w: World, a: Act, p: Text)
    requires Inv(w) && RemoteTruly(w, p) && p in w.nodes && Legal(u, w, a) && FromSender(w, a, p, p)
    ensures RemoteTruly(Next(u, w, a), p)
  {
    var after := Next(u, w, a);
    NextSound(u, w, a);
    forall x, id | RemoteAt(after, x, id) && after.nodes[x].sessions[id].peer == p
      ensures EnteredAt(after, p, id) && after.nodes[p].sessions[id].peer == x
    {
      NextRemoteAt(u, w, a, p, x, id);
    }
  }

  lemma {:induction false} RunRemote(u: Setup, honest: set<Text>, acts: seq<Act>, p: Text)
    requires LegalRun(u, honest, acts) && EntriesFrom(u, honest, acts, p, p) && p in honest
    ensures RemoteTruly(Run(u, honest, acts), p)
  {
    if acts != [] {
      RunInv(u, honest, acts[..|acts| - 1]);
      RunRemote(u, honest, acts[..|acts| - 1], p);
      NextRemote(u, Run(u, honest, acts[..|acts| - 1]), acts[|acts| - 1], p);
    }
  }

  // -------------------------------------------------------------------- theorems

  /** In every run, a friend record at an honest node means that its own human entered. */
  lemma OwnHumanEntered(u: Setup, honest: set<Text>, acts: seq<Act>, x: Text, f: Friend)
    requires LegalRun(u, honest, acts) && x in honest && x in Run(u, honest, acts).nodes
    requires f in Run(u, honest, acts).nodes[x].friends
    ensures (x, f.session) in Run(u, honest, acts).humans
  {
    RunInv(u, honest, acts);
    assert EnteredAt(Run(u, honest, acts), x, f.session);
  }

  /** Mutual consent: when the entries into sessions with an honest peer are taken from that
      peer alone, a friend record naming it means that both humans entered that session, each
      at its own node, and that the peer's session was with this node. */
  lemma BothHumansEntered(u: Setup, honest: set<Text>, acts: seq<Act>, x: Text, f: Friend)
    requires LegalRun(u, honest, acts) && EntriesFrom(u, honest, acts, f.peer, f.peer) && x in honest
        && f.peer in honest
    requires x in Run(u, honest, acts).nodes && f in Run(u, honest, acts).nodes[x].friends
    ensures var w := Run(u, honest, acts);
            && (x, f.session) in w.humans && (f.peer, f.session) in w.humans
            && EnteredAt(w, f.peer, f.session) && w.nodes[f.peer].sessions[f.session].peer == x
  {
    var w := Run(u, honest, acts);
    RunInv(u, honest, acts);
    RunRemote(u, honest, acts, f.peer);
    assert RemoteAt(w, x, f.session) && EnteredAt(w, x, f.session);
  }

  // ------------------------------------------------------- binding to the transcript

  ghost predicate EntriesSealed(u: Setup, w: World) {
    forall s :: s in w.signed && s.message.kind == HumanEntry ==>
      var id := s.message.core.sessionId;
      u.deps.decrypt(s.message) == Some(EntryBody(id, TranscriptHash(u.hash, u.length, id, s.held)))
  }

  lemma {:induction false} RunSealed(u: Setup, honest: set<Text>, acts: seq<Act>)
    requires LegalRun(u, honest, acts)
    ensures EntriesSealed(u, Run(u, honest, acts))
  {
    if acts != [] { RunSealed(u, honest, acts[..|acts| - 1]); }
  }

  /** Transcript agreement: an entry of an honest peer carries the hash this node computes
      exactly when the peer, as it announced the entry, held the same probe messages in the
      same order. */
  lemma TranscriptAgreement(u: Setup, honest: set<Text>, acts: seq<Act>, x: Text, m: Message, c: Circumstance)
    requires Injective(u.hash) && LegalRun(u, honest, acts) && m.core.fromActor in honest && m.kind == HumanEntry
    requires Legal(u, Run(u, honest, acts), Deliver(x, m, c)) && u.deps.verified(m)
    ensures var w, id := Run(u, honest, acts), m.core.sessionId;
            u.deps.decrypt(m) == Some(EntryBody(id, TranscriptHash(u.hash, u.length, id, HeldBy(w, x)))) <==>
            exists s :: s in w.signed && s.message == m && Ordered(id, s.held) == Ordered(id, HeldBy(w, x))
  {
    var w, id := Run(u, honest, acts), m.core.sessionId;
    RunInv(u, honest, acts);
    RunSealed(u, honest, acts);
    forall s | s in w.signed && s.message == m
      ensures u.deps.decrypt(m) == Some(EntryBody(id, TranscriptHash(u.hash, u.length, id, s.held)))
      ensures TranscriptHash(u.hash, u.length, id, s.held) == TranscriptHash(u.hash, u.length, id, HeldBy(w, x)) <==>
              Ordered(id, s.held) == Ordered(id, HeldBy(w, x))
    {
      HashSeparates(u.hash, u.length, id, s.held, id, HeldBy(w, x));
    }
    var s :| s in w.signed && s.message == m;
  }

  /** An entry of an honest actor that a node accepts. */
  predicate HonestEntry(u: Setup, w: World, a: Act) {
    && a.Deliver? && a.message.kind == HumanEntry && a.message.core.fromActor in w.nodes && a.actor in w.nodes
    && Accepted(u.deps, w.nodes[a.actor], InputOf(a))
  }

  /** The check the node does not make: the entry is bound to the session it is for and to the
      hash of the transcript held here. */
  predicate HashMatches(u: Setup, w: World, a: Act)
    requires a.Deliver?
  {
    var id := a.message.core.sessionId;
    u.deps.decrypt(a.message) == Some(EntryBody(id, TranscriptHash(u.hash, u.length, id, HeldBy(w, a.actor))))
  }

  /** The sender, as it announced the entry, held the probe messages that are held here. */
  ghost predicate Agrees(w: World, a: Act)
    requires a.Deliver?
  {
    var id := a.message.core.sessionId;
    exists s :: s in w.signed && s.message == a.message && Ordered(id, s.held) == Ordered(id, HeldBy(w, a.actor))
  }

  ghost predicate EntriesMatch(u: Setup, honest: set<Text>, acts: seq<Act>) {
    forall i :: 0 <= i < |acts| && HonestEntry(u, Run(u, honest, acts[..i]), acts[i]) ==>
      HashMatches(u, Run(u, honest, acts[..i]), acts[i])
  }

  ghost predicate EntriesAgree(u: Setup, honest: set<Text>, acts: seq<Act>) {
    forall i :: 0 <= i < |acts| && HonestEntry(u, Run(u, honest, acts[..i]), acts[i]) ==>
      Agrees(Run(u, honest, acts[..i]), acts[i])
  }

  lemma {:induction false} LegalPrefix(u: Setup, honest: set<Text>, acts: seq<Act>, i: nat)
    requires LegalRun(u, honest, acts) && i < |acts|
    ensures LegalRun(u, honest, acts[..i]) && Legal(u, Run(u, honest, acts[..i]), acts[i])
    decreases |acts|
  {
    var front := acts[..|acts| - 1];
    if i < |front| {
      LegalPrefix(u, honest, front, i);
      assert front[..i] == acts[..i] && front[i] == acts[i];
    }
  }

  /** The guard is exact: over a run, every entry of an honest actor that was accepted stands for
      a transcript both sides hold if and only if each carried the hash of the node that
      accepted it. */
  lemma GuardedRunAgrees(u: Setup, honest: set<Text>, acts: seq<Act>)
    requires Injective(u.hash) && LegalRun(u, honest, acts)
    ensures EntriesAgree(u, honest, acts) <==> EntriesMatch(u, honest, acts)
  {
    forall i | 0 <= i < |acts| && HonestEntry(u, Run(u, honest, acts[..i]), acts[i])
      ensures HashMatches(u, Run(u, honest, acts[..i]), acts[i]) <==> Agrees(Run(u, honest, acts[..i]), acts[i])
    {
      LegalPrefix(u, honest, acts, i);
      MatchIsAgreement(u, honest, acts[..i], acts[i], Run(u, honest, acts[..i]));
    }
  }

  lemma MatchIsAgreement(u: Setup, honest: set<Text>, acts: seq<Act>, a: Act, w: World)
    requires Injective(u.hash) && LegalRun(u, honest, acts) && w == Run(u, honest, acts)
    requires Legal(u, w, a) && HonestEntry(u, w, a)
    ensures HashMatches(u, w, a) <==> Agrees(w, a)
  {
    RunInv(u, honest, acts);
    TranscriptAgreement(u, honest, acts, a.actor, a.message, a.circumstance);
  }

  // ------------------------------------------------------- entries of a stranger

  /** Every message verifies, and decrypts to a body that fits its kind; an entry to one bound
      to this session and hash. */
  function Bound(session: Text, hash: Text): Deps {
    Deps(_ => true, _ => true,
         (m: Message) => Some(if m.kind == HumanEntry then EntryBody(session, hash) else PlainBody))
  }

  const OPEN_DEPS: Deps := Bound([], [])

  const FAIR: Circumstance := Circumstance(true, 0, true)

  function KindName(kind: Kind): Text {
    match kind
    case Hello => PROBE_PREFIX + Ascii("hello")
    case Question => PROBE_PREFIX + Ascii("question")
    case Answer => PROBE_PREFIX + Ascii("answer")
    case Summary => PROBE_PREFIX + Ascii("summary")
    case Done => PROBE_PREFIX + Ascii("done")
    case HumanEntry => Ascii("human.entry")
    case HumanExit => Ascii("human.exit")
    case Establish => Ascii("friendship.establish")
    case Close => Ascii("session.close")
    case ErrorReport => Ascii("error")
    case Unsupported => Ascii("unsupported")
  }

  /** A message of this kind between the parties of the core, naming the peer beside it. */
  function From(core: Core, kind: Kind, p: Text): Message {
    Message(core.(kind := KindName(kind), msgId := core.msgId + KindName(kind)), kind, Some(p), [])
  }

  /** With open dependencies a message is applied to the session as an event. */
  lemma OpenStep(se: Text, ha: Text, n: Node, m: Message, next: SessionState)
    requires FieldsPresent(m.core) && m.kind in {Hello, Summary, HumanEntry}
    requires Apply(StateFor(n, m), Remote(m.core.msgId, m.kind, None)).Ok?
    requires Apply(StateFor(n, m), Remote(m.core.msgId, m.kind, None)).value.next == next
    ensures Accepted(Bound(se, ha), n, Inbound(m, FAIR))
    ensures RemoteStep(Bound(se, ha), n, m, FAIR) ==
            Commit(n, Apply(StateFor(n, m), Remote(m.core.msgId, m.kind, None)).value, FAIR)
    ensures next.phase != MutualEntry ==> RemoteStep(Bound(se, ha), n, m, FAIR).friends == n.friends
    ensures RemoteStep(Bound(se, ha), n, m, FAIR).sessions == n.sessions[next.id := next]
  {
  }

  lemma FromPresent(core: Core, kind: Kind, p: Text)
    requires FieldsPresent(core)
    ensures FieldsPresent(From(core, kind, p).core)
  {
  }

  const HUMAN: Event := Local([0x31], LocalEntry, None)

  /** A node after the first k steps of its session with this peer. */
  function Stage(d: Deps, core: Core, p: Text, k: nat): Node {
    if k == 0 then EMPTY
    else if k == 1 then RemoteStep(d, Stage(d, core, p, 0), From(core, Hello, p), FAIR)
    else if k == 2 then RemoteStep(d, Stage(d, core, p, 1), From(core, Summary, p), FAIR)
    else if k == 3 then LocalStep(Stage(d, core, p, 2), core.sessionId, HUMAN, FAIR)
    else RemoteStep(d, Stage(d, core, p, 3), From(core, HumanEntry, p), FAIR)
  }

  /** Its session there. */
  function StageSession(core: Core, p: Text, k: nat): SessionState {
    var s := Fresh(core.sessionId, p);
    if k <= 1 then s.(phase := Probing)
    else if k == 2 then s.(phase := ProbeComplete)
    else s.(phase := AwaitEntry, localEntered := true)
  }

  lemma StageOpened(se: Text, ha: Text, core: Core, p: Text)
    requires FieldsPresent(core) && p != []
    ensures var n := Stage(Bound(se, ha), core, p, 1);
            n.friends == [] && n.sessions == map[core.sessionId := StageSession(core, p, 1)]
    ensures Accepted(Bound(se, ha), EMPTY, Inbound(From(core, Hello, p), FAIR))
  {
    FromPresent(core, Hello, p);
    OpenStep(se, ha, EMPTY, From(core, Hello, p), StageSession(core, p, 1));
  }

  lemma StageProbed(se: Text, ha: Text, core: Core, p: Text)
    requires FieldsPresent(core) && p != []
    ensures var n := Stage(Bound(se, ha), core, p, 2);
            n.friends == [] && n.sessions == map[core.sessionId := StageSession(core, p, 2)]
    ensures Accepted(Bound(se, ha), Stage(Bound(se, ha), core, p, 1), Inbound(From(core, Summary, p), FAIR))
  {
    StageOpened(se, ha, core, p);
    FromPresent(core, Summary, p);
    OpenStep(se, ha, Stage(Bound(se, ha), core, p, 1), From(core, Summary, p), StageSession(core, p, 2));
  }

  lemma StageEntered(se: Text, ha: Text, core: Core, p: Text)
    requires FieldsPresent(core) && p != []
    ensures var n := Stage(Bound(se, ha), core, p, 3);
            n.friends == [] && n.sessions == map[core.sessionId := StageSession(core, p, 3)]
  {
    StageProbed(se, ha, core, p);
  }

  lemma StageFriend(se: Text, ha: Text, core: Core, p: Text)
    requires FieldsPresent(core) && p != []
    ensures Stage(Bound(se, ha), core, p, 4).friends == [Friend(p, core.sessionId, 0)]
    ensures Accepted(Bound(se, ha), Stage(Bound(se, ha), core, p, 3), Inbound(From(core, HumanEntry, p), FAIR))
  {
    StageEntered(se, ha, core, p);
    FromPresent(core, HumanEntry, p);
    OpenStep(se, ha, Stage(Bound(se, ha), core, p, 3), From(core, HumanEntry, p),
             StageSession(core, p, 3).(phase := MutualEntry, remoteEntered := true));
  }

  function StrangerAct(core: Core, x: Text, p: Text, k: nat): Act {
    if k == 0 then Deliver(x, From(core, Hello, p), FAIR)
    else if k == 1 then Deliver(x, From(core, Summary, p), FAIR)
    else if k == 2 then Human(x, core.sessionId, HUMAN, FAIR)
    else Deliver(x, From(core, HumanEntry, p), FAIR)
  }

  function StrangerActs(core: Core, x: Text, p: Text, k: nat): seq<Act> {
    if k == 0 then [] else StrangerActs(core, x, p, k - 1) + [StrangerAct(core, x, p, k - 1)]
  }

  /** The world after k acts: only the one node has moved, only its human ever entered. */
  lemma {:induction false} StrangerWorld(u: Setup, core: Core, x: Text, p: Text, k: nat)
    requires u.deps == OPEN_DEPS && k <= 4 && x != p && core.fromActor != x && core.fromActor != p
    ensures var w := Run(u, {x, p}, StrangerActs(core, x, p, k));
            && LegalRun(u, {x, p}, StrangerActs(core, x, p, k))
            && w.nodes == map[x := Stage(OPEN_DEPS, core, p, k), p := EMPTY] && forall h :: h in w.humans ==> h.0 == x
  {
    if k > 0 {
      var acts, a := StrangerActs(core, x, p, k - 1), StrangerAct(core, x, p, k - 1);
      StrangerWorld(u, core, x, p, k - 1);
      StrangerNext(u, Run(u, {x, p}, acts), core, x, p, k);
      RunPush(u, {x, p}, acts, a, Next(u, Run(u, {x, p}, acts), a));
    }
  }

  lemma RunPush(u: Setup, honest: set<Text>, acts: seq<Act>, a: Act, after: World)
    requires LegalRun(u, honest, acts) && Legal(u, Run(u, honest, acts), a) && after == Next(u, Run(u, honest, acts), a)
    ensures LegalRun(u, honest, acts + [a]) && Run(u, honest, acts + [a]) == after
  {
    assert (acts + [a])[..|acts|] == acts;
  }

  lemma {:induction false} StrangerEntries(u: Setup, core: Core, x: Text, p: Text, k: nat)
    requires k <= 4 && core.toActor == x
    ensures EntriesFrom(u, {x, p}, StrangerActs(core, x, p, k), p, core.fromActor)
  {
    if k > 0 {
      var acts, a := StrangerActs(core, x, p, k - 1), StrangerAct(core, x, p, k - 1);
      StrangerEntries(u, core, x, p, k - 1);
      assert (acts + [a])[..|acts|] == acts;
    }
  }

  /** A message of the stranger moves the one node and no human. */
  lemma StrangerDelivers(u: Setup, w: World, m: Message, x: Text, p: Text, n: Node)
    requires u.deps == OPEN_DEPS && x != p && m.core.fromActor != x && m.core.fromActor != p
    requires w.nodes == map[x := n, p := EMPTY]
    ensures var a := Deliver(x, m, FAIR);
            && Legal(u, w, a) && Next(u, w, a).humans == w.humans
            && Next(u, w, a).nodes == map[x := RemoteStep(OPEN_DEPS, n, m, FAIR), p := EMPTY]
  {
    assert Next(u, w, Deliver(x, m, FAIR)).nodes == w.nodes[x := RemoteStep(OPEN_DEPS, n, m, FAIR)];
  }

  lemma StrangerNext(u: Setup, w: World, core: Core, x: Text, p: Text, k: nat)
    requires u.deps == OPEN_DEPS && 0 < k <= 4 && x != p && core.fromActor != x && core.fromActor != p
    requires w.nodes == map[x := Stage(OPEN_DEPS, core, p, k - 1), p := EMPTY] && forall h :: h in w.humans ==> h.0 == x
    ensures var a := StrangerAct(core, x, p, k - 1);
            && Legal(u, w, a) && Next(u, w, a).nodes == map[x := Stage(OPEN_DEPS, core, p, k), p := EMPTY]
            && forall h :: h in Next(u, w, a).humans ==> h.0 == x
  {
    if k == 1 {
      StrangerDelivers(u, w, From(core, Hello, p), x, p, Stage(OPEN_DEPS, core, p, 0));
    } else if k == 2 {
      StrangerDelivers(u, w, From(core, Summary, p), x, p, Stage(OPEN_DEPS, core, p, 1));
    } else if k == 3 {
      var a := Human(x, core.sessionId, HUMAN, FAIR);
      assert Next(u, w, a).nodes == w.nodes[x := LocalStep(Stage(OPEN_DEPS, core, p, 2), core.sessionId, HUMAN, FAIR)];
    } else {
      StrangerDelivers(u, w, From(core, HumanEntry, p), x, p, Stage(OPEN_DEPS, core, p, 3));
    }
  }

  /** Without the guard consent fails, for every stranger: two honest nodes, and messages that
      some third actor signed, give the one a friend record naming the other, whose human
      never entered anything. */
  lemma StrangerBefriends(u: Setup, core: Core, x: Text, p: Text)
    requires u.deps == OPEN_DEPS && FieldsPresent(core) && p != []
    requires x != p && core.fromActor != x && core.fromActor != p
    ensures var acts := StrangerActs(core, x, p, 4);
            var w := Run(u, {x, p}, acts);
            && LegalRun(u, {x, p}, acts) && x in w.nodes && p in w.nodes
            && w.nodes[x].friends == [Friend(p, core.sessionId, 0)]
            && w.nodes[p] == EMPTY && (p, core.sessionId) !in w.humans
  {
    StrangerWorld(u, core, x, p, 4);
    StageFriend([], [], core, p);
  }

  /** A record at `x` naming `p` stands for an entry of the human of `p`. */
  ghost predicate Consents(w: World, x: Text, p: Text) {
    x in w.nodes ==> forall f :: f in w.nodes[x].friends && f.peer == p ==> (p, f.session) in w.humans
  }

  function CoreFrom(sender: Text, to: Text): Core {
    var one: Text := [0x31];
    Core(one, one, one, one, one, sender, one, to, one, one, one, one, one)
  }

  ghost predicate KeepsConsent(x: Text, p: Text, sender: Text) {
    forall u: Setup, acts: seq<Act> ::
      LegalRun(u, {x, p}, acts) && EntriesFrom(u, {x, p}, acts, p, sender) ==> Consents(Run(u, {x, p}, acts), x, p)
  }

  lemma PeerKeepsConsent(u: Setup, acts: seq<Act>, x: Text, p: Text)
    requires LegalRun(u, {x, p}, acts) && EntriesFrom(u, {x, p}, acts, p, p)
    ensures Consents(Run(u, {x, p}, acts), x, p)
  {
    var w := Run(u, {x, p}, acts);
    RunInv(u, {x, p}, acts);
    forall f | f in w.nodes[x].friends && f.peer == p ensures (p, f.session) in w.humans {
      BothHumansEntered(u, {x, p}, acts, x, f);
    }
  }

  lemma StrangerBreaksConsent(x: Text, p: Text, sender: Text)
    requires x != p && x != [] && p != [] && sender != [] && sender != x && sender != p
    ensures !KeepsConsent(x, p, sender)
  {
    var u, core := Setup(OPEN_DEPS, t => t, t => |t|), CoreFrom(sender, x);
    var acts := StrangerActs(core, x, p, 4);
    StrangerEntries(u, core, x, p, 4);
    StrangerWorld(u, core, x, p, 4);
    StrangerBefriends(u, core, x, p);
    OneRecordBreaks(u, acts, x, p, sender, Run(u, {x, p}, acts), Friend(p, core.sessionId, 0));
  }

  lemma OneRecordBreaks(u: Setup, acts: seq<Act>, x: Text, p: Text, sender: Text, w: World, f: Friend)
    requires LegalRun(u, {x, p}, acts) && EntriesFrom(u, {x, p}, acts, p, sender) && w == Run(u, {x, p}, acts)
    requires x in w.nodes && w.nodes[x].friends == [f] && f.peer == p && (p, f.session) !in w.humans
    ensures !KeepsConsent(x, p, sender)
  {
    assert f in w.nodes[x].friends && !Consents(w, x, p);
  }

  /** The condition is exact: two honest nodes are kept to mutual consent by taking entries
      into the sessions between them from one sender if and only if that sender is the peer. */
  lemma ConsentExactly(x: Text, p: Text, sender: Text)
    requires x != p && x != [] && p != [] && sender != [] && sender != x
    ensures KeepsConsent(x, p, sender) <==> sender == p
  {
    if sender == p {
      forall u: Setup, acts: seq<Act> | LegalRun(u, {x, p}, acts) && EntriesFrom(u, {x, p}, acts, p, sender)
        ensures Consents(Run(u, {x, p}, acts), x, p)
      {
        PeerKeepsConsent(u, acts, x, p);
      }
    } else {
      StrangerBreaksConsent(x, p, sender);
    }
  }
}
