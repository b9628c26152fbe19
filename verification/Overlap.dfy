/** The friendship node with handlers that overlap: each reads its session, waits for keys,
    signature and ciphertext, and then writes the whole next session. */
module Overlap {
  import opened FriendshipNode
  import opened Json
  import opened Session
  import opened Transcript
  import opened Wrappers

  // -------------------------------------------------------------- read and write

  /** The session as the first read of a handler finds it. */
  function Seen(n: Node, i: Input): Option<SessionState> {
    match i
    case Inbound(m, _) => Some(StateFor(n, m))
    case Injected(id, _, _) => if id in n.sessions then Some(n.sessions[id]) else None
  }

  /** What a handler makes of the session it saw, unless it refuses. */
  function Outcome(d: Deps, i: Input, seen: Option<SessionState>): Option<Applied> {
    if seen.None? then None
    else
      match i
      case Inbound(m, _) =>
        var r := ProcessInbound(d, m, seen.value);
        if m.core.sessionId == [] || r.Err? then None else Some(r.value)
      case Injected(_, e, _) =>
        if !e.Local? || Apply(seen.value, e).Err? then None else Some(Apply(seen.value, e).value)
  }

  function Written(n: Node, a: Option<Applied>, c: Circumstance): Node {
    if a.None? then n else Commit(n, a.value, c)
  }

  lemma StepIsReadAndWrite(d: Deps, n: Node, i: Input)
    ensures Step(d, n, i) == Written(n, Outcome(d, i, Seen(n, i)), i.circumstance)
  {
  }

  // ---------------------------------------------------------------- the server

  datatype Handler = Handler(input: Input, seen: Option<SessionState>)

  /** The node, and the handlers that have read and not yet written. */
  datatype Server = Server(node: Node, busy: map<nat, Handler>)

  datatype Act = Begin(id: nat, input: Input) | End(id: nat)

  function Next(d: Deps, s: Server, a: Act): Server {
    match a
    case Begin(h, i) => if h in s.busy then s else s.(busy := s.busy[h := Handler(i, Seen(s.node, i))])
    case End(h) =>
      if h !in s.busy then s
      else
        var x := s.busy[h];
        Server(Written(s.node, Outcome(d, x.input, x.seen), x.input.circumstance), s.busy - {h})
  }

  const IDLE := Server(EMPTY, map[])

  function Run(d: Deps, acts: seq<Act>): Server {
    if acts == [] then IDLE else Next(d, Run(d, acts[..|acts| - 1]), acts[|acts| - 1])
  }

  /** The input that an act brings to its end. */
  function Ending(s: Server, a: Act): seq<Input> {
    if a.End? && a.id in s.busy then [s.busy[a.id].input] else []
  }

  /** The inputs of a run in the order in which their handlers end. */
  function Ended(d: Deps, acts: seq<Act>): seq<Input> {
    if acts == [] then []
    else
      var front := acts[..|acts| - 1];
      Ended(d, front) + Ending(Run(d, front), acts[|acts| - 1])
  }

  // ---------------------------------------------------- when overlap does no harm

  /** The session is as the handler saw it, or the handler refuses and would refuse either way. */
  predicate Agrees(d: Deps, n: Node, x: Handler) {
    var now := Seen(n, x.input);
    x.seen == now || (Outcome(d, x.input, x.seen).None? && Outcome(d, x.input, now).None?)
  }

  predicate AgreesAt(d: Deps, s: Server, a: Act) { a.End? && a.id in s.busy ==> Agrees(d, s.node, s.busy[a.id]) }

  ghost predicate SeenLegal(seen: Option<SessionState>, id: Text) {
    seen.Some? ==> Coherent(seen.value) && seen.value.id == id
  }

  ghost predicate ServerLegal(s: Server) {
    && SessionsLegal(s.node)
    && forall h :: h in s.busy ==> SeenLegal(s.busy[h].seen, SessionOf(s.busy[h].input))
  }

  lemma SeenIsLegal(n: Node, i: Input)
    requires SessionsLegal(n)
    ensures SeenLegal(Seen(n, i), SessionOf(i))
  {
  }

  lemma WrittenLegal(d: Deps, n: Node, i: Input, seen: Option<SessionState>)
    requires SessionsLegal(n) && SeenLegal(seen, SessionOf(i))
    ensures SessionsLegal(Written(n, Outcome(d, i, seen), i.circumstance))
  {
    if Outcome(d, i, seen).Some? {
      match i
      case Inbound(m, c) => StepIsTwoFlagRule(seen.value, EventOf(m, d.decrypt(m).value));
      case Injected(id, e, c) => StepIsTwoFlagRule(seen.value, e);
    }
  }

  lemma {:induction false} RunLegal(d: Deps, acts: seq<Act>)
    ensures ServerLegal(Run(d, acts))
  {
    if acts != [] {
      var s, a := Run(d, acts[..|acts| - 1]), acts[|acts| - 1];
      RunLegal(d, acts[..|acts| - 1]);
      match a
      case Begin(h, i) => SeenIsLegal(s.node, i);
      case End(h) => if h in s.busy { WrittenLegal(d, s.node, s.busy[h].input, s.busy[h].seen); }
    }
  }

  lemma AuditTells(s: SessionState, e: Event)
    requires Coherent(s) && Apply(s, e).Ok?
    ensures var r := Apply(s, e).value;
            && |r.audit| == 1 && r.audit[0].before == s.phase
            && r.audit[0].localDelta == Delta(s.localEntered, r.next.localEntered)
            && r.audit[0].remoteDelta == Delta(s.remoteEntered, r.next.remoteEntered)
            && r.next.id == s.id && r.next.peer == s.peer && s.closedReason == None
  {
  }

  /** The next session with its audit event tells the session before. */
  lemma ApplyInjective(s: SessionState, t: SessionState, e: Event, a: Applied, b: Applied)
    requires Coherent(s) && Coherent(t) && Apply(s, e) == Ok(a) && Apply(t, e) == Ok(b)
    requires a.next == b.next && a.audit == b.audit
    ensures s == t
  {
    AuditTells(s, e);
    AuditTells(t, e);
    FlagsTold(s.localEntered, t.localEntered, a.next.localEntered);
    FlagsTold(s.remoteEntered, t.remoteEntered, a.next.remoteEntered);
  }

  lemma FlagsTold(s: bool, t: bool, next: bool)
    requires Delta(s, next) == Delta(t, next)
    ensures s == t
  {
  }

  lemma OutcomeInjective(d: Deps, i: Input, seen: Option<SessionState>, now: Option<SessionState>)
    requires SeenLegal(seen, SessionOf(i)) && SeenLegal(now, SessionOf(i))
    requires Outcome(d, i, seen).Some? && Outcome(d, i, now).Some?
    requires Outcome(d, i, seen).value.next == Outcome(d, i, now).value.next
    requires Outcome(d, i, seen).value.audit == Outcome(d, i, now).value.audit
    ensures seen == now
  {
    var a, b := Outcome(d, i, seen).value, Outcome(d, i, now).value;
    match i
    case Inbound(m, _) => ApplyInjective(seen.value, now.value, EventOf(m, d.decrypt(m).value), a, b);
    case Injected(_, e, _) => ApplyInjective(seen.value, now.value, e, a, b);
  }

  /** An outcome is for the session that was seen and leaves one audit event. */
  lemma OutcomeShape(d: Deps, i: Input, seen: Option<SessionState>)
    requires SeenLegal(seen, SessionOf(i)) && Outcome(d, i, seen).Some?
    ensures Outcome(d, i, seen).value.next.id == SessionOf(i) && |Outcome(d, i, seen).value.audit| == 1
  {
    match i
    case Inbound(m, c) => EntryOf(seen.value, EventOf(m, d.decrypt(m).value));
    case Injected(id, e, c) => EntryOf(seen.value, e);
  }

  lemma CommitInjective(n: Node, a: Applied, b: Applied, c: Circumstance)
    requires a.next.id == b.next.id && Commit(n, a, c) == Commit(n, b, c)
    ensures a.next == b.next && a.audit == b.audit
  {
    assert n.sessions[a.next.id := a.next][a.next.id] == n.sessions[b.next.id := b.next][a.next.id];
    assert (n.audit + a.audit)[|n.audit|..] == a.audit;
    assert (n.audit + b.audit)[|n.audit|..] == b.audit;
  }

  /** One write does what the whole step would do now exactly when the handler agrees. */
  lemma WriteExactly(d: Deps, n: Node, x: Handler)
    requires SessionsLegal(n) && SeenLegal(x.seen, SessionOf(x.input))
    ensures Written(n, Outcome(d, x.input, x.seen), x.input.circumstance) == Step(d, n, x.input) <==> Agrees(d, n, x)
  {
    var c, now := x.input.circumstance, Seen(n, x.input);
    var a, b := Outcome(d, x.input, x.seen), Outcome(d, x.input, now);
    StepIsReadAndWrite(d, n, x.input);
    SeenIsLegal(n, x.input);
    if a.Some? { OutcomeShape(d, x.input, x.seen); }
    if b.Some? { OutcomeShape(d, x.input, now); }
    if a.Some? && b.Some? {
      if Commit(n, a.value, c) == Commit(n, b.value, c) {
        CommitInjective(n, a.value, b.value, c);
        OutcomeInjective(d, x.input, x.seen, now);
      }
    } else if a.Some? {
      assert |Commit(n, a.value, c).audit| == |n.audit| + 1;
    } else if b.Some? {
      assert |Commit(n, b.value, c).audit| == |n.audit| + 1;
    }
  }

  /** At this point of the run the node is that of the inputs handled one after the other. */
  ghost predicate Serial(d: Deps, acts: seq<Act>) { Run(d, acts).node == FriendshipNode.Run(d, Ended(d, acts)) }

  ghost predicate AlwaysSerial(d: Deps, acts: seq<Act>) { forall k :: 0 <= k <= |acts| ==> Serial(d, acts[..k]) }

  ghost predicate AlwaysAgrees(d: Deps, acts: seq<Act>) {
    forall k :: 0 <= k < |acts| ==> AgreesAt(d, Run(d, acts[..k]), acts[k])
  }

  lemma SerialNext(d: Deps, acts: seq<Act>, front: seq<Act>, a: Act)
    requires acts != [] && front == acts[..|acts| - 1] && a == acts[|acts| - 1] && Serial(d, front)
    ensures Serial(d, acts) <==> AgreesAt(d, Run(d, front), a)
  {
    var s := Run(d, front);
    RunLegal(d, front);
    if a.End? && a.id in s.busy {
      var i := s.busy[a.id].input;
      WriteExactly(d, s.node, s.busy[a.id]);
      assert Ended(d, acts) == Ended(d, front) + [i];
      assert (Ended(d, front) + [i])[..|Ended(d, front)|] == Ended(d, front);
    } else {
      assert Ended(d, acts) == Ended(d, front) + [] == Ended(d, front);
    }
  }

  lemma PrefixesPush<T>(p: seq<T> -> bool, s: seq<T>, front: seq<T>)
    requires s != [] && front == s[..|s| - 1]
    ensures (forall k :: 0 <= k <= |s| ==> p(s[..k])) <==> (forall k :: 0 <= k <= |front| ==> p(front[..k])) && p(s)
  {
    assert s[..|s|] == s;
    assert forall k :: 0 <= k <= |front| ==> s[..k] == front[..k];
    if forall k :: 0 <= k <= |s| ==> p(s[..k]) {
      forall k | 0 <= k <= |front| ensures p(front[..k]) { assert p(s[..k]); }
      assert p(s[..|s|]);
    }
    if (forall k :: 0 <= k <= |front| ==> p(front[..k])) && p(s) {
      forall k | 0 <= k <= |s| ensures p(s[..k]) { assert k <= |front| ==> p(front[..k]); }
    }
  }

  lemma SerialPush(d: Deps, acts: seq<Act>, front: seq<Act>)
    requires acts != [] && front == acts[..|acts| - 1]
    ensures AlwaysSerial(d, acts) <==> AlwaysSerial(d, front) && Serial(d, acts)
  {
    PrefixesPush((s: seq<Act>) => Serial(d, s), acts, front);
  }

  lemma AgreesPush(d: Deps, acts: seq<Act>, front: seq<Act>)
    requires acts != [] && front == acts[..|acts| - 1]
    ensures AlwaysAgrees(d, acts) <==> AlwaysAgrees(d, front) && AgreesAt(d, Run(d, front), acts[|acts| - 1])
  {
    assert forall k :: 0 <= k < |front| ==> acts[..k] == front[..k] && acts[k] == front[k];
    if AlwaysAgrees(d, acts) {
      forall k | 0 <= k < |front| ensures AgreesAt(d, Run(d, front[..k]), front[k]) {
        assert AgreesAt(d, Run(d, acts[..k]), acts[k]);
      }
    }
    if AlwaysAgrees(d, front) && AgreesAt(d, Run(d, front), acts[|acts| - 1]) {
      forall k | 0 <= k < |acts| ensures AgreesAt(d, Run(d, acts[..k]), acts[k]) {
        assert k < |front| ==> AgreesAt(d, Run(d, front[..k]), front[k]);
      }
    }
  }

  /** For every interleaving: at each moment the node is that of the inputs handled one after
      the other, in the order in which their handlers end, if and only if each handler that ends
      finds the session as it saw it, or refuses either way. */
  lemma {:induction false} SerialExactly(d: Deps, acts: seq<Act>)
    ensures AlwaysSerial(d, acts) <==> AlwaysAgrees(d, acts)
  {
    if acts == [] {
      SerialStart(d, acts);
    } else {
      SerialExactly(d, acts[..|acts| - 1]);
      SerialStep(d, acts, acts[..|acts| - 1]);
    }
  }

  lemma SerialStart(d: Deps, acts: seq<Act>)
    requires acts == []
    ensures AlwaysSerial(d, acts) && AlwaysAgrees(d, acts)
  {
    assert Serial(d, acts);
  }

  lemma SerialHere(d: Deps, acts: seq<Act>)
    requires AlwaysSerial(d, acts)
    ensures Serial(d, acts)
  {
    assert acts[..|acts|] == acts;
  }

  lemma SerialStep(d: Deps, acts: seq<Act>, front: seq<Act>)
    requires acts != [] && front == acts[..|acts| - 1]
    requires AlwaysSerial(d, front) <==> AlwaysAgrees(d, front)
    ensures AlwaysSerial(d, acts) <==> AlwaysAgrees(d, acts)
  {
    SerialPush(d, acts, front);
    AgreesPush(d, acts, front);
    if AlwaysSerial(d, front) {
      SerialHere(d, front);
      SerialNext(d, acts, front, acts[|acts| - 1]);
    }
  }

  // ------------------------------------------------------------ a lock per session

  /** Whether the session of an input is free, so that a lock would let it begin. */
  predicate Free(s: Server, i: Input) { forall h :: h in s.busy ==> SessionOf(s.busy[h].input) != SessionOf(i) }

  ghost predicate Locked(d: Deps, acts: seq<Act>) {
    forall k :: 0 <= k < |acts| && acts[k].Begin? ==> Free(Run(d, acts[..k]), acts[k].input)
  }

  /** One handler to a session, and each sees what is stored. */
  ghost predicate UpToDate(s: Server) {
    && (forall g, h :: g in s.busy && h in s.busy && g != h ==>
          SessionOf(s.busy[g].input) != SessionOf(s.busy[h].input))
    && (forall h :: h in s.busy ==> s.busy[h].seen == Seen(s.node, s.busy[h].input))
  }

  /** A write for one session leaves what is seen of another. */
  lemma WriteIsLocal(d: Deps, n: Node, i: Input, seen: Option<SessionState>, other: Input)
    requires SeenLegal(seen, SessionOf(i)) && SessionOf(i) != SessionOf(other)
    ensures Seen(Written(n, Outcome(d, i, seen), i.circumstance), other) == Seen(n, other)
  {
    if Outcome(d, i, seen).Some? { OutcomeShape(d, i, seen); }
  }

  lemma {:induction false} LockedUpToDate(d: Deps, acts: seq<Act>)
    requires Locked(d, acts)
    ensures UpToDate(Run(d, acts))
  {
    if acts != [] {
      var front, a := acts[..|acts| - 1], acts[|acts| - 1];
      forall k | 0 <= k < |front| && front[k].Begin? ensures Free(Run(d, front[..k]), front[k].input) {
        assert front[..k] == acts[..k] && front[k] == acts[k];
      }
      LockedUpToDate(d, front);
      RunLegal(d, front);
      var s := Run(d, front);
      if a.End? && a.id in s.busy {
        var x := s.busy[a.id];
        forall h | h in s.busy && h != a.id
          ensures Seen(Next(d, s, a).node, s.busy[h].input) == Seen(s.node, s.busy[h].input)
        {
          WriteIsLocal(d, s.node, x.input, x.seen, s.busy[h].input);
        }
      }
    }
  }

  /** A lock per session is enough for the node to be that of the inputs one after the other. */
  lemma LockSuffices(d: Deps, acts: seq<Act>)
    requires Locked(d, acts)
    ensures AlwaysSerial(d, acts)
  {
    forall k | 0 <= k < |acts| ensures AgreesAt(d, Run(d, acts[..k]), acts[k]) {
      assert forall j :: 0 <= j < k ==> acts[..k][..j] == acts[..j];
      LockedUpToDate(d, acts[..k]);
    }
    SerialExactly(d, acts);
  }

  /** What was proved of inputs handled one after the other then holds as it stands. */
  lemma LockedIsSound(d: Deps, acts: seq<Act>)
    requires Locked(d, acts)
    ensures Sound(Run(d, acts).node)
  {
    LockSuffices(d, acts);
    SerialHere(d, acts);
    RunSound(d, Ended(d, acts));
  }

  lemma {:induction false} EndedPrefix(d: Deps, acts: seq<Act>, k: nat)
    requires k <= |acts|
    ensures Ended(d, acts[..k]) <= Ended(d, acts)
    decreases |acts|
  {
    if k == |acts| {
      assert acts[..k] == acts;
    } else {
      var front := acts[..|acts| - 1];
      assert front[..k] == acts[..k];
      EndedPrefix(d, front, k);
    }
  }

  /** Under the lock a closed session stays closed and gets no record. */
  lemma LockedKeepsClosed(d: Deps, acts: seq<Act>, k: nat, id: Text)
    requires Locked(d, acts) && k <= |acts|
    requires var early := Run(d, acts[..k]).node; id in early.sessions && Terminal(early.sessions[id].phase)
    ensures var early, now := Run(d, acts[..k]).node, Run(d, acts).node;
            && id in now.sessions && now.sessions[id] == early.sessions[id]
            && forall f :: f in now.friends && f.session == id ==> f in early.friends
  {
    LockSuffices(d, acts);
    SerialHere(d, acts);
    assert Serial(d, acts[..k]);
    EndedPrefix(d, acts, k);
    var all, some := Ended(d, acts), Ended(d, acts[..k]);
    assert all[..|some|] == some;
    NoRecordAfterClose(d, all, |some|, id);
  }

  // ---------------------------------------------------------- what overlap can do

  /** Each input handled before the next begins. */
  function Each(inputs: seq<Input>): seq<Act> {
    if inputs == [] then [] else Each(inputs[..|inputs| - 1]) + [Begin(0, inputs[|inputs| - 1])] + [End(0)]
  }

  lemma RunPush(d: Deps, acts: seq<Act>, a: Act)
    ensures Run(d, acts + [a]) == Next(d, Run(d, acts), a)
  {
    assert (acts + [a])[..|acts|] == acts;
  }

  lemma {:induction false} EachRuns(d: Deps, inputs: seq<Input>)
    ensures Run(d, Each(inputs)) == Server(FriendshipNode.Run(d, inputs), map[])
  {
    if inputs != [] {
      var front, i := inputs[..|inputs| - 1], inputs[|inputs| - 1];
      EachRuns(d, front);
      RunPush(d, Each(front), Begin(0, i));
      RunPush(d, Each(front) + [Begin(0, i)], End(0));
      StepIsReadAndWrite(d, FriendshipNode.Run(d, front), i);
      assert map[0 := Handler(i, Seen(FriendshipNode.Run(d, front), i))] - {0} == map[];
    }
  }

  /** After these inputs two handlers read, then the first of them writes, then the second. */
  function Overlapping(inputs: seq<Input>, first: Input, second: Input): seq<Act> {
    Each(inputs) + [Begin(1, first)] + [Begin(2, second)] + [End(1)] + [End(2)]
  }

  lemma OverlapRuns(d: Deps, inputs: seq<Input>, first: Input, second: Input)
    ensures var n := FriendshipNode.Run(d, inputs);
            var middle := Written(n, Outcome(d, first, Seen(n, first)), first.circumstance);
            && middle == FriendshipNode.Run(d, inputs + [first])
            && Run(d, Overlapping(inputs, first, second)).node ==
                Written(middle, Outcome(d, second, Seen(n, second)), second.circumstance)
  {
    EachRuns(d, inputs);
    var acts, n := Each(inputs), FriendshipNode.Run(d, inputs);
    RunPush(d, acts, Begin(1, first));
    RunPush(d, acts + [Begin(1, first)], Begin(2, second));
    RunPush(d, acts + [Begin(1, first)] + [Begin(2, second)], End(1));
    RunPush(d, acts + [Begin(1, first)] + [Begin(2, second)] + [End(1)], End(2));
    StepIsReadAndWrite(d, n, first);
    assert (inputs + [first])[..|inputs|] == inputs;
  }

  const FAIR: Circumstance := Circumstance(true, 0, true)

  /** A node that waits for the entry of the peer, and the two messages it then takes. */
  ghost predicate Awaits(d: Deps, n: Node, close: Message, entry: Message) {
    var id := entry.core.sessionId;
    && Sound(n) && id in n.sessions && n.sessions[id].phase == AwaitEntry && n.sessions[id].localEntered
    && !Known(n.friends, n.sessions[id].peer) && close.core.sessionId == id
    && close.kind == Close && entry.kind == HumanEntry
    && Accepted(d, n, Inbound(close, FAIR)) && Accepted(d, n, Inbound(entry, FAIR))
  }

  ghost predicate PhaseIs(n: Node, id: Text, p: Phase) { id in n.sessions && n.sessions[id].phase == p }

  lemma CloseOutcome(d: Deps, n: Node, close: Message, entry: Message, s: SessionState)
    requires Awaits(d, n, close, entry) && s == n.sessions[entry.core.sessionId]
    ensures var r := Outcome(d, Inbound(close, FAIR), Some(s));
            && r.Some? && r.value.next.id == s.id && r.value.next.phase == Closed && !r.value.next.remoteEntered
            && |r.value.audit| == 1 && r.value.audit[0].session == s.id && r.value.audit[0].remoteDelta == None
  {
  }

  lemma EntryOutcome(d: Deps, n: Node, close: Message, entry: Message, s: SessionState)
    requires Awaits(d, n, close, entry) && s == n.sessions[entry.core.sessionId]
    ensures var r := Outcome(d, Inbound(entry, FAIR), Some(s));
            && r.Some? && r.value.next == s.(phase := MutualEntry, remoteEntered := true)
            && |r.value.audit| == 1 && r.value.audit[0].session == s.id && r.value.audit[0].remoteDelta == Some(true)
  {
  }

  /** The writes of a close and of an entry, in the one order and in the other. */
  lemma WritesCross(n: Node, s: SessionState, a: Applied, b: Applied)
    requires a.next.id == s.id && a.next.phase == Closed && !Known(n.friends, s.peer)
    requires b.next == s.(phase := MutualEntry, remoteEntered := true)
    ensures var middle := Commit(n, a, FAIR); PhaseIs(middle, s.id, Closed) && middle.friends == n.friends
    ensures var after := Commit(Commit(n, a, FAIR), b, FAIR);
            PhaseIs(after, s.id, MutualEntry) && after.friends == n.friends + [Friend(s.peer, s.id, 0)]
    ensures var after := Commit(Commit(n, b, FAIR), a, FAIR);
            after.sessions == n.sessions[s.id := a.next] && after.friends == n.friends + [Friend(s.peer, s.id, 0)]
  {
  }

  lemma LogKeepsEntry(n: Node, id: Text, a: Applied, b: Applied)
    requires |a.audit| == 1 && a.audit[0].session == id && a.audit[0].remoteDelta == None
    requires |b.audit| == 1 && b.audit[0].session == id && b.audit[0].remoteDelta == Some(true)
    ensures Replay(LogOf(Commit(Commit(n, b, FAIR), a, FAIR).audit, id)).remote
  {
    var x, y := a.audit[0], b.audit[0];
    LogPush(n.audit, y, id);
    LogPush(n.audit + [y], x, id);
    ReplayPush(LogOf(n.audit, id), y);
    ReplayPush(LogOf(n.audit, id) + [y], x);
    AuditTwo(n, a, b, x, y);
  }

  lemma AuditTwo(n: Node, a: Applied, b: Applied, x: AuditCore, y: AuditCore)
    requires a.audit == [x] && b.audit == [y]
    ensures Commit(Commit(n, b, FAIR), a, FAIR).audit == n.audit + [y] + [x]
  {
  }

  /** The close writes first: the entry, having read before, opens the closed session again and
      a record follows, which no run without overlap allows. */
  lemma CloseIsOverwritten(d: Deps, inputs: seq<Input>, close: Message, entry: Message, n: Node, after: Node)
    requires n == FriendshipNode.Run(d, inputs) && Awaits(d, n, close, entry)
    requires after == Run(d, Overlapping(inputs, Inbound(close, FAIR), Inbound(entry, FAIR))).node
    ensures var id, middle := entry.core.sessionId, FriendshipNode.Run(d, inputs + [Inbound(close, FAIR)]);
            && PhaseIs(middle, id, Closed) && middle.friends == n.friends
            && PhaseIs(after, id, MutualEntry)
            && after.friends == n.friends + [Friend(n.sessions[id].peer, id, 0)]
  {
    var s := n.sessions[entry.core.sessionId];
    OverlapRuns(d, inputs, Inbound(close, FAIR), Inbound(entry, FAIR));
    CloseOutcome(d, n, close, entry, s);
    EntryOutcome(d, n, close, entry, s);
    WritesCross(n, s, Outcome(d, Inbound(close, FAIR), Some(s)).value, Outcome(d, Inbound(entry, FAIR), Some(s)).value);
  }

  /** The entry writes first: its record stands, but the close, having read before, takes the
      entry back, so that the stored session is not what the audit log tells. */
  lemma EntryIsOverwritten(d: Deps, inputs: seq<Input>, close: Message, entry: Message, n: Node, after: Node)
    requires n == FriendshipNode.Run(d, inputs) && Awaits(d, n, close, entry)
    requires after == Run(d, Overlapping(inputs, Inbound(entry, FAIR), Inbound(close, FAIR))).node
    ensures var id := entry.core.sessionId;
            && after.friends == n.friends + [Friend(n.sessions[id].peer, id, 0)]
            && PhaseIs(after, id, Closed) && !after.sessions[id].remoteEntered
            && Replay(LogOf(after.audit, id)) != ReplayOf(after.sessions[id])
  {
    var id := entry.core.sessionId;
    var s := n.sessions[id];
    OverlapRuns(d, inputs, Inbound(entry, FAIR), Inbound(close, FAIR));
    CloseOutcome(d, n, close, entry, s);
    EntryOutcome(d, n, close, entry, s);
    var a, b := Outcome(d, Inbound(close, FAIR), Some(s)).value, Outcome(d, Inbound(entry, FAIR), Some(s)).value;
    WritesCross(n, s, a, b);
    LogKeepsEntry(n, id, a, b);
    assert after.sessions[id] == a.next;
  }

  // -------------------------------------------------------- and that it can be reached

  /** Everything verifies, and closes are asked for by the user. */
  const OPEN_DEPS: Deps := Deps(_ => true, _ => true,
      (m: Message) => Some(if m.kind == HumanEntry then EntryBody([], [])
                           else if m.kind == Close then CloseBody(UserClose) else PlainBody))

  function Of(core: Core, kind: Kind, peer: Text): Input { Inbound(Message(core, kind, Some(peer), []), FAIR) }

  function Entering(core: Core): Input { Injected(core.sessionId, Local([0x31], LocalEntry, None), FAIR) }

  /** A probe without questions, and the entry of the own human. */
  function Opening(core: Core, peer: Text): seq<Input> {
    [Of(core, Hello, peer)] + [Of(core, Summary, peer)] + [Entering(core)]
  }

  /** The session and the friends after a message of the opening, and after the own entry. */
  lemma OpeningMessage(n: Node, core: Core, peer: Text, kind: Kind, s: SessionState)
    requires FieldsPresent(core) && peer != [] && n.friends == [] && s.id == core.sessionId && s.peer == peer
    requires if core.sessionId in n.sessions then n.sessions == map[s.id := s] else n == EMPTY && s == Fresh(s.id, peer)
    requires (kind == Hello && s.phase == Disconnected) || (kind == Summary && s.phase == Probing)
    ensures var after := Step(OPEN_DEPS, n, Of(core, kind, peer));
            && after.friends == []
            && after.sessions == map[s.id := s.(phase := if kind == Hello then Probing else ProbeComplete)]
  {
  }

  lemma OpeningEntry(n: Node, core: Core, s: SessionState)
    requires ValidState(s) && n.friends == [] && s.id == core.sessionId
    requires n.sessions == map[s.id := s] && s.phase == ProbeComplete && !s.remoteEntered
    ensures var after := Step(OPEN_DEPS, n, Entering(core));
            after.friends == [] && after.sessions == map[s.id := s.(phase := AwaitEntry, localEntered := true)]
  {
  }

  lemma StepPush(d: Deps, inputs: seq<Input>, i: Input)
    ensures FriendshipNode.Run(d, inputs + [i]) == Step(d, FriendshipNode.Run(d, inputs), i)
  {
    assert (inputs + [i])[..|inputs|] == inputs;
  }

  /** Both overwrites have inputs that lead to them, between any two parties. */
  lemma OverlapReached(core: Core, peer: Text)
    requires FieldsPresent(core) && peer != []
    ensures Awaits(OPEN_DEPS, FriendshipNode.Run(OPEN_DEPS, Opening(core, peer)),
                   Of(core, Close, peer).message, Of(core, HumanEntry, peer).message)
  {
    var hello, summary := [Of(core, Hello, peer)], [Of(core, Hello, peer)] + [Of(core, Summary, peer)];
    var s := Fresh(core.sessionId, peer);
    assert [] + hello == hello;
    StepPush(OPEN_DEPS, [], Of(core, Hello, peer));
    OpeningMessage(EMPTY, core, peer, Hello, s);
    StepPush(OPEN_DEPS, hello, Of(core, Summary, peer));
    OpeningMessage(FriendshipNode.Run(OPEN_DEPS, hello), core, peer, Summary, s.(phase := Probing));
    StepPush(OPEN_DEPS, summary, Entering(core));
    var n := FriendshipNode.Run(OPEN_DEPS, summary);
    OpeningEntry(n, core, s.(phase := ProbeComplete));
    RunSound(OPEN_DEPS, Opening(core, peer));
    AwaitsThere(core, peer, FriendshipNode.Run(OPEN_DEPS, Opening(core, peer)));
  }

  lemma AwaitsThere(core: Core, peer: Text, n: Node)
    requires FieldsPresent(core) && peer != [] && Sound(n) && n.friends == []
    requires n.sessions == map[core.sessionId := SessionState(AwaitEntry, core.sessionId, peer, true, false, None)]
    ensures Awaits(OPEN_DEPS, n, Of(core, Close, peer).message, Of(core, HumanEntry, peer).message)
  {
  }
}
