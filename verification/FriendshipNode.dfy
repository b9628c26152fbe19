/** One node: the inbound pipeline, the stored sessions, the friend records and the audit log. */
module FriendshipNode {
  import opened Json
  import opened Session
  import opened Transcript
  import opened Wrappers

  datatype Body = EntryBody(session: Text, hash: Text) | CloseBody(reason: CloseReason) | PlainBody

  /** An envelope on the wire; `kind` is what its type names, `peerField` an optional field
      beside the fields of the schema. */
  datatype Message = Message(core: Core, kind: Kind, peerField: Option<Text>, rest: Text)

  datatype Friend = Friend(peer: Text, session: Text, at: nat)

  datatype Node = Node(sessions: map<Text, SessionState>, friends: seq<Friend>, audit: seq<AuditCore>)

  const EMPTY := Node(map[], [], [])

  const UNKNOWN: Text := Ascii("h:sha256:unknown")

  /** What the node does not decide itself: the lint of the plain fields, whether a signature
      verifies under the key of the sender, and what a ciphertext decrypts to. */
  datatype Deps = Deps(lint: Message -> bool, verified: Message -> bool, decrypt: Message -> Option<Body>)

  datatype Fault = BadEnvelope | BadSignature | BadCiphertext | BadBody | Refused(rejection: Rejection)

  // ------------------------------------------------------------------- pipeline

  predicate IsBase64(t: Text) {
    t != [] && forall i :: 0 <= i < |t| ==>
      0x41 <= t[i] <= 0x5a || 0x61 <= t[i] <= 0x7a || 0x30 <= t[i] <= 0x39 || t[i] == 0x2b || t[i] == 0x2f
          || t[i] == 0x3d
  }

  predicate FieldsPresent(c: Core) {
    && c.v != [] && c.kind != [] && c.msgId != [] && c.sessionId != [] && c.ts != []
    && c.fromActor != [] && c.toActor != [] && c.fromKey != [] && c.toKey != []
    && c.enc != [] && c.kdf != [] && c.nonce != [] && IsBase64(c.ciphertext)
  }

  predicate BodyFits(kind: Kind, b: Body) {
    match kind
    case Unsupported => false
    case HumanEntry => b.EntryBody?
    case Close => b.CloseBody?
    case _ => b.PlainBody?
  }

  function EventOf(m: Message, b: Body): Event {
    Remote(m.core.msgId, m.kind, if b.CloseBody? then Some(b.reason) else None)
  }

  function ProcessInbound(d: Deps, m: Message, s: SessionState): Result<Applied, Fault> {
    if !(FieldsPresent(m.core) && d.lint(m)) then Err(BadEnvelope)
    else if !d.verified(m) then Err(BadSignature)
    else
      match d.decrypt(m)
      case None => Err(BadCiphertext)
      case Some(b) =>
        if !BodyFits(m.kind, b) then Err(BadBody)
        else
          match Apply(s, EventOf(m, b))
          case Err(r) => Err(Refused(r))
          case Ok(a) => Ok(a)
  }

  function Fields(c: Core): seq<Text> {
    [c.v, c.kind, c.msgId, c.sessionId, c.ts, c.fromActor, c.toActor, c.fromKey, c.toKey, c.enc, c.kdf, c.nonce,
     c.ciphertext]
  }

  /** No field of the envelope is empty, and the ciphertext is written in base64. */
  ghost predicate Whole(c: Core) {
    && [] !in Fields(c)
    && forall i :: 0 <= i < |c.ciphertext| ==>
         var u := c.ciphertext[i];
         || 'A' as int <= u <= 'Z' as int || 'a' as int <= u <= 'z' as int || '0' as int <= u <= '9' as int
         || u == '+' as int || u == '/' as int || u == '=' as int
  }

  /** Entries and closes have bodies of their own, and only they; no other type has any. */
  ghost predicate Bodied(kind: Kind, b: Body) {
    && kind != Unsupported && (b.EntryBody? <==> kind == HumanEntry) && (b.CloseBody? <==> kind == Close)
  }

  lemma WholeExactly(c: Core)
    ensures FieldsPresent(c) <==> Whole(c)
  {
    var ts := Fields(c);
    if Whole(c) {
      forall i | 0 <= i < |ts| ensures ts[i] != [] { assert ts[i] in ts; }
      assert ts[0] != [] && ts[1] != [] && ts[2] != [] && ts[3] != [] && ts[4] != [] && ts[5] != [] && ts[6] != [];
      assert ts[7] != [] && ts[8] != [] && ts[9] != [] && ts[10] != [] && ts[11] != [] && ts[12] != [];
    }
  }

  /** The pipeline, check by check: the first of envelope, signature, ciphertext and body that is
      not right decides the fault; a message that passes them all is accepted exactly when the
      two-flag rule accepts its event, and then the session is what the rule prescribes. */
  lemma InboundExactly(d: Deps, m: Message, s: SessionState)
    requires ValidState(s) && Coherent(s)
    ensures var r := ProcessInbound(d, m, s);
            if !Whole(m.core) || !d.lint(m) then r == Err(BadEnvelope)
            else if !d.verified(m) then r == Err(BadSignature)
            else if d.decrypt(m).None? then r == Err(BadCiphertext)
            else if !Bodied(m.kind, d.decrypt(m).value) then r == Err(BadBody)
            else
              var b := d.decrypt(m).value;
              var e := Remote(m.core.msgId, m.kind, if m.kind == Close then Some(b.reason) else None);
              && (if Prescribed(View(s), e).Some? then r.Ok? && View(r.value.next) == Prescribed(View(s), e).value
                  else r.Err? && r.error.Refused?)
              && (r.Ok? ==> r.value == Apply(s, e).value)
  {
    WholeExactly(m.core);
    if d.decrypt(m).Some? { StepIsTwoFlagRule(s, EventOf(m, d.decrypt(m).value)); }
  }

  // ------------------------------------------------------------ friend records

  datatype WriteStatus = StateMismatch | IdempotentSkip | Wrote | StorageFailed

  predicate Known(friends: seq<Friend>, peer: Text) { exists f :: f in friends && f.peer == peer }

  /** The result and the friends afterwards; a failing store throws and keeps what it had. */
  function WriteFriend(friends: seq<Friend>, s: SessionState, now: nat, storeOk: bool): (WriteStatus, seq<Friend>) {
    if s.phase != MutualEntry then (StateMismatch, friends)
    else if Known(friends, s.peer) then (IdempotentSkip, friends)
    else if !storeOk then (StorageFailed, friends)
    else (Wrote, friends + [Friend(s.peer, s.id, now)])
  }

  datatype TriggerStatus = NoTrigger | TriggeredWrite | TriggeredIdempotent | TriggerThrew

  /** How the environment treats a step: whether the friendship trigger is enabled, the clock,
      and whether a write to the store succeeds. */
  datatype Circumstance = Circumstance(trigger: bool, now: nat, storeOk: bool)

  function Triggered(friends: seq<Friend>, s: SessionState, c: Circumstance): (TriggerStatus, seq<Friend>) {
    if !c.trigger || s.phase != MutualEntry then (NoTrigger, friends)
    else
      var (status, after) := WriteFriend(friends, s, c.now, c.storeOk);
      (if status.Wrote? then TriggeredWrite else if status.IdempotentSkip? then
          TriggeredIdempotent else TriggerThrew, after)
  }

  /** The status of the trigger tells what became of the records: it says written exactly when
      they grew by one, idempotent exactly when the peer of a mutual entry had one, and it fails
      exactly on a store that fails for a new peer. */
  lemma TriggerTells(friends: seq<Friend>, s: SessionState, c: Circumstance)
    ensures var (t, after) := Triggered(friends, s, c);
            var due := c.trigger && s.phase == MutualEntry;
            var known := exists f :: f in friends && f.peer == s.peer;
            && (t == TriggeredWrite <==> |after| == |friends| + 1)
            && (t == TriggeredWrite <==> due && !known && c.storeOk)
            && (t == TriggeredIdempotent <==> due && known)
            && (t == TriggerThrew <==> due && !known && !c.storeOk)
            && (t != TriggeredWrite ==> after == friends)
  {
  }

  // ------------------------------------------------------------------- the steps

  /** The stored session, or the one the first message of a session opens. */
  function StateFor(n: Node, m: Message): SessionState {
    if m.core.sessionId in n.sessions then n.sessions[m.core.sessionId]
    else Fresh(m.core.sessionId, if m.peerField.Some? then m.peerField.value else UNKNOWN)
  }

  /** The next session is stored before the friendship trigger runs. */
  function Commit(n: Node, a: Applied, c: Circumstance): Node {
    Node(n.sessions[a.next.id := a.next], Triggered(n.friends, a.next, c).1, n.audit + a.audit)
  }

  function RemoteStep(d: Deps, n: Node, m: Message, c: Circumstance): Node {
    var r := ProcessInbound(d, m, StateFor(n, m));
    if m.core.sessionId == [] || r.Err? then n else Commit(n, r.value, c)
  }

  function LocalStep(n: Node, id: Text, e: Event, c: Circumstance): Node {
    if id !in n.sessions || !e.Local? then n
    else
      var r := Apply(n.sessions[id], e);
      if r.Err? then n else Commit(n, r.value, c)
  }

  datatype Input =
    | Inbound(message: Message, circumstance: Circumstance)
    | Injected(session: Text, event: Event, circumstance: Circumstance)

  function Step(d: Deps, n: Node, i: Input): Node {
    match i
    case Inbound(m, c) => RemoteStep(d, n, m, c)
    case Injected(id, e, c) => LocalStep(n, id, e, c)
  }

  function Run(d: Deps, inputs: seq<Input>): Node {
    if inputs == [] then EMPTY else Step(d, Run(d, inputs[..|inputs| - 1]), inputs[|inputs| - 1])
  }

  // -------------------------------------------------------------- the node itself

  class FriendNode {
    const deps: Deps
    var sessions: map<Text, SessionState>
    var friends: seq<Friend>
    var audit: seq<AuditCore>

    ghost function Snapshot(): Node
      reads this
    {
      Node(sessions, friends, audit)
    }

    constructor (deps: Deps)
      ensures this.deps == deps && Snapshot() == EMPTY
    {
      this.deps := deps;
      sessions, friends, audit := map[], [], [];
    }

    method HandleRemoteEnvelope(m: Message, c: Circumstance) returns (status: Result<TriggerStatus, Fault>)
      modifies this
      ensures Snapshot() == RemoteStep(deps, old(Snapshot()), m, c)
      ensures m.core.sessionId != [] && status.Err? ==>
                ProcessInbound(deps, m, StateFor(old(Snapshot()), m)) == Err(status.error)
      ensures status.Ok? ==> (status.value == TriggeredWrite <==> |friends| == |old(friends)| + 1)
      ensures status.Ok? && status.value == TriggeredIdempotent ==>
                c.trigger && exists f :: f in friends && f.peer == StateFor(old(Snapshot()), m).peer
    {
      if m.core.sessionId == [] {
        return Err(BadEnvelope);
      }
      var state := StateFor(Node(sessions, friends, audit), m);
      var r := ProcessInbound(deps, m, state);
      if r.Err? {
        return Err(r.error);
      }
      var t := Store(r.value, c);
      status := Ok(t);
    }

    method HandleLocalEvent(id: Text, e: Event, c: Circumstance)
      modifies this
      ensures Snapshot() == LocalStep(old(Snapshot()), id, e, c)
    {
      if id !in sessions || !e.Local? {
        return;
      }
      var r := Apply(sessions[id], e);
      if r.Ok? {
        var _ := Store(r.value, c);
      }
    }

    method Store(a: Applied, c: Circumstance) returns (t: TriggerStatus)
      modifies this
      ensures Snapshot() == Commit(old(Snapshot()), a, c)
      ensures t == Triggered(old(friends), a.next, c).0
    {
      sessions := sessions[a.next.id := a.next];
      audit := audit + a.audit;
      t := TriggerFriendship(a.next, c);
    }

    method TriggerFriendship(s: SessionState, c: Circumstance) returns (t: TriggerStatus)
      modifies this`friends
      ensures (t, friends) == Triggered(old(friends), s, c)
    {
      if !c.trigger || s.phase != MutualEntry {
        return NoTrigger;
      }
      var status := WriteFriendshipIfNeeded(s, c.now, c.storeOk);
      if status.Wrote? {
        t := TriggeredWrite;
      } else if status.IdempotentSkip? {
        t := TriggeredIdempotent;
      } else {
        t := TriggerThrew;
      }
    }

    method WriteFriendshipIfNeeded(s: SessionState, now: nat, storeOk: bool) returns (status: WriteStatus)
      modifies this`friends
      ensures (status, friends) == WriteFriend(old(friends), s, now, storeOk)
    {
      if s.phase != MutualEntry {
        return StateMismatch;
      }
      var i := 0;
      while i < |friends|
        invariant 0 <= i <= |friends|
        invariant forall k :: 0 <= k < i ==> friends[k].peer != s.peer
      {
        if friends[i].peer == s.peer {
          return IdempotentSkip;
        }
        i := i + 1;
      }
      if !storeOk {
        return StorageFailed;
      }
      friends := friends + [Friend(s.peer, s.id, now)];
      status := Wrote;
    }
  }

  // ------------------------------------------------------------- the invariant

  /** The audit events of one session, in order. */
  function LogOf(audit: seq<AuditCore>, id: Text): seq<AuditCore> {
    if audit == [] then []
    else
      var last := audit[|audit| - 1];
      LogOf(audit[..|audit| - 1], id) + (if last.session == id then [last] else [])
  }

  lemma LogPush(audit: seq<AuditCore>, a: AuditCore, id: Text)
    ensures LogOf(audit + [a], id) == LogOf(audit, id) + (if a.session == id then [a] else [])
  {
    assert (audit + [a])[..|audit|] == audit;
  }

  /** Each stored session is a legal one under its own id. */
  ghost predicate SessionsLegal(n: Node) {
    forall id :: id in n.sessions ==> n.sessions[id].id == id && ValidState(n.sessions[id]) && Coherent(n.sessions[id])
  }

  /** The log alone reproduces every stored session. */
  ghost predicate LogReplays(n: Node) {
    && (forall id :: id in n.sessions ==> Replay(LogOf(n.audit, id)) == ReplayOf(n.sessions[id]))
    && (forall id :: id !in n.sessions ==> LogOf(n.audit, id) == [])
  }

  /** Both parties of this session entered, as the log records it. */
  ghost predicate BothEntered(n: Node, id: Text) {
    && (exists a :: a in n.audit && a.session == id && Enters(a, true))
    && (exists a :: a in n.audit && a.session == id && Enters(a, false))
  }

  ghost predicate FlagsRecorded(n: Node) {
    && (forall id :: id in n.sessions && n.sessions[id].localEntered ==>
          exists a :: a in n.audit && a.session == id && Enters(a, true))
    && (forall id :: id in n.sessions && n.sessions[id].remoteEntered ==>
          exists a :: a in n.audit && a.session == id && Enters(a, false))
  }

  ghost predicate FriendsSound(n: Node) {
    && (forall i, j :: 0 <= i < j < |n.friends| ==> n.friends[i].peer != n.friends[j].peer)
    && (forall f :: f in n.friends ==>
          && f.session in n.sessions && n.sessions[f.session].peer == f.peer
          && n.sessions[f.session].localEntered && n.sessions[f.session].remoteEntered)
  }

  ghost predicate Sound(n: Node) { SessionsLegal(n) && LogReplays(n) && FlagsRecorded(n) && FriendsSound(n) }

  /** The session a step works on, its event, and the session before. */
  lemma CommitSound(n: Node, s: SessionState, e: Event, c: Circumstance)
    requires Sound(n) && ValidState(s) && Coherent(s) && Apply(s, e).Ok?
    requires if s.id in n.sessions then n.sessions[s.id] == s else s == Fresh(s.id, s.peer)
    ensures Sound(Commit(n, Apply(s, e).value, c))
  {
    StepIsTwoFlagRule(s, e);
    CommitLog(n, s, e, c);
    CommitFlags(n, s, e, c);
    CommitFriends(n, s, e, c);
  }

  lemma LogExtended(n: Node, a: AuditCore, next: SessionState, friends: seq<Friend>)
    requires LogReplays(n) && a.session == next.id
    requires ReplayOne(Replay(LogOf(n.audit, next.id)), a) == ReplayOf(next)
    ensures LogReplays(Node(n.sessions[next.id := next], friends, n.audit + [a]))
  {
    forall id ensures LogOf(n.audit + [a], id) == LogOf(n.audit, id) + (if a.session == id then [a] else []) {
      LogPush(n.audit, a, id);
    }
    ReplayPush(LogOf(n.audit, next.id), a);
    forall id | id != next.id ensures LogOf(n.audit + [a], id) == LogOf(n.audit, id) {}
  }

  lemma CommitLog(n: Node, s: SessionState, e: Event, c: Circumstance)
    requires LogReplays(n) && Apply(s, e).Ok? && Apply(s, e).value.next.id == s.id
    requires if s.id in n.sessions then n.sessions[s.id] == s else s == Fresh(s.id, s.peer)
    ensures LogReplays(Commit(n, Apply(s, e).value, c))
  {
    var r := Apply(s, e).value;
    StepReplays(s, e);
    assert r.audit == [r.audit[0]];
    LogExtended(n, r.audit[0], r.next, Triggered(n.friends, r.next, c).1);
  }

  lemma CommitFlags(n: Node, s: SessionState, e: Event, c: Circumstance)
    requires FlagsRecorded(n) && Apply(s, e).Ok? && Apply(s, e).value.next.id == s.id
    requires if s.id in n.sessions then n.sessions[s.id] == s else s == Fresh(s.id, s.peer)
    ensures FlagsRecorded(Commit(n, Apply(s, e).value, c))
  {
    var r := Apply(s, e).value;
    EntryOf(s, e);
    StepReplays(s, e);
    var next := Commit(n, r, c);
    assert r.audit[0] in next.audit;
    forall a | a in n.audit ensures a in next.audit {}
  }

  lemma CommitFriends(n: Node, s: SessionState, e: Event, c: Circumstance)
    requires FriendsSound(n) && Coherent(s) && Apply(s, e).Ok?
    requires Apply(s, e).value.next.id == s.id && Apply(s, e).value.next.peer == s.peer
    requires Coherent(Apply(s, e).value.next)
    requires if s.id in n.sessions then n.sessions[s.id] == s else s == Fresh(s.id, s.peer)
    ensures FriendsSound(Commit(n, Apply(s, e).value, c))
  {
    EntryOf(s, e);
    StepAdvances(s, e);
  }

  /** Every step keeps a sound node sound. */
  lemma StepSound(d: Deps, n: Node, i: Input)
    requires Sound(n)
    ensures Sound(Step(d, n, i))
  {
    match i
    case Inbound(m, c) =>
      var s := StateFor(n, m);
      if Step(d, n, i) != n { CommitSound(n, s, EventOf(m, d.decrypt(m).value), c); }
    case Injected(id, e, c) =>
      if Step(d, n, i) != n { CommitSound(n, n.sessions[id], e, c); }
  }

  lemma {:induction false} RunSound(d: Deps, inputs: seq<Input>)
    ensures Sound(Run(d, inputs))
  {
    if inputs != [] {
      RunSound(d, inputs[..|inputs| - 1]);
      StepSound(d, Run(d, inputs[..|inputs| - 1]), inputs[|inputs| - 1]);
    }
  }

  // ------------------------------------------------------------- over whole runs

  /** Consent: every friend record names the peer of a session in which both sides entered,
      and the audit log has both entries. */
  lemma FriendshipNeedsBothEntries(d: Deps, inputs: seq<Input>, f: Friend)
    requires f in Run(d, inputs).friends
    ensures var n := Run(d, inputs);
            f.session in n.sessions && n.sessions[f.session].peer == f.peer && BothEntered(n, f.session)
  {
    RunSound(d, inputs);
  }

  /** At most one record per peer, over all sessions. */
  lemma OneRecordPerPeer(d: Deps, inputs: seq<Input>, i: nat, j: nat)
    requires i < j < |Run(d, inputs).friends|
    ensures Run(d, inputs).friends[i].peer != Run(d, inputs).friends[j].peer
  {
    RunSound(d, inputs);
  }

  /** Every stored session can be read off the audit log. */
  lemma AuditTellsAll(d: Deps, inputs: seq<Input>, id: Text)
    requires id in Run(d, inputs).sessions
    ensures Replay(LogOf(Run(d, inputs).audit, id)) == ReplayOf(Run(d, inputs).sessions[id])
  {
    RunSound(d, inputs);
  }

  /** Whether the pipeline lets an input through. */
  predicate Accepted(d: Deps, n: Node, i: Input) {
    match i
    case Inbound(m, _) => m.core.sessionId != [] && ProcessInbound(d, m, StateFor(n, m)).Ok?
    case Injected(id, e, _) => id in n.sessions && e.Local? && Apply(n.sessions[id], e).Ok?
  }

  function SessionOf(i: Input): Text {
    match i
    case Inbound(m, _) => m.core.sessionId
    case Injected(id, _, _) => id
  }

  /** A refused input changes nothing; an accepted one leaves exactly one audit event, for its
      session, and touches no other session. */
  lemma FailClosed(d: Deps, n: Node, i: Input)
    requires Sound(n)
    ensures var after := Step(d, n, i);
            if Accepted(d, n, i) then
              && |after.audit| == |n.audit| + 1 && after.audit[..|n.audit|] == n.audit
              && after.audit[|n.audit|].session == SessionOf(i)
              && after.sessions.Keys == n.sessions.Keys + {SessionOf(i)}
              && forall id :: id in n.sessions && id != SessionOf(i) ==> after.sessions[id] == n.sessions[id]
            else after == n
  {
    if Accepted(d, n, i) {
      match i
      case Inbound(m, c) => CommitAudits(n, StateFor(n, m), EventOf(m, d.decrypt(m).value), c);
      case Injected(id, e, c) => CommitAudits(n, n.sessions[id], e, c);
    }
  }

  lemma CommitAudits(n: Node, s: SessionState, e: Event, c: Circumstance)
    requires ValidState(s) && Coherent(s) && Apply(s, e).Ok?
    ensures var after := Commit(n, Apply(s, e).value, c);
            && |after.audit| == |n.audit| + 1 && after.audit[..|n.audit|] == n.audit
            && after.audit[|n.audit|].session == s.id
            && after.sessions == n.sessions[s.id := Apply(s, e).value.next]
  {
    StepReplays(s, e);
    StepIsTwoFlagRule(s, e);
  }

  /** Records are only ever added, and only for the session an input is for. */
  lemma FriendsGrow(d: Deps, n: Node, i: Input)
    requires Sound(n)
    ensures var after := Step(d, n, i).friends;
            after == n.friends ||
            (Accepted(d, n, i) && |after| == |n.friends| + 1 && after[..|n.friends|] == n.friends
             && after[|n.friends|].session == SessionOf(i))
  {
    if Accepted(d, n, i) {
      match i
      case Inbound(m, c) => StepIsTwoFlagRule(StateFor(n, m), EventOf(m, d.decrypt(m).value));
      case Injected(id, e, c) => StepIsTwoFlagRule(n.sessions[id], e);
    }
  }

  /** Nothing is accepted for a closed session, so it stays as it is and no record is written
      for it afterwards. */
  lemma {:induction false} NoRecordAfterClose(d: Deps, inputs: seq<Input>, k: nat, id: Text)
    requires k <= |inputs| && id in Run(d, inputs[..k]).sessions && Terminal(Run(d, inputs[..k]).sessions[id].phase)
    ensures id in Run(d, inputs).sessions && Run(d, inputs).sessions[id] == Run(d, inputs[..k]).sessions[id]
    ensures forall f :: f in Run(d, inputs).friends && f.session == id ==> f in Run(d, inputs[..k]).friends
    decreases |inputs|
  {
    if k == |inputs| {
      assert inputs[..k] == inputs;
    } else {
      var front, i := inputs[..|inputs| - 1], inputs[|inputs| - 1];
      assert front[..k] == inputs[..k];
      NoRecordAfterClose(d, front, k, id);
      RunSound(d, front);
      ClosedStep(d, Run(d, front), i, id);
    }
  }

  lemma ClosedStep(d: Deps, n: Node, i: Input, id: Text)
    requires Sound(n) && id in n.sessions && Terminal(n.sessions[id].phase)
    ensures var after := Step(d, n, i);
            && id in after.sessions && after.sessions[id] == n.sessions[id]
            && forall f :: f in after.friends && f.session == id ==> f in n.friends
  {
    FailClosed(d, n, i);
    FriendsGrow(d, n, i);
    if SessionOf(i) == id {
      ClosedRefuses(d, n, i);
    } else {
      GrownByOther(n.friends, Step(d, n, i).friends, id);
    }
  }

  lemma ClosedRefuses(d: Deps, n: Node, i: Input)
    requires SessionOf(i) in n.sessions && Terminal(n.sessions[SessionOf(i)].phase)
    ensures !Accepted(d, n, i) && Step(d, n, i) == n
  {
  }

  lemma GrownByOther(before: seq<Friend>, after: seq<Friend>, id: Text)
    requires after == before
             || (|after| == |before| + 1 && after[..|before|] == before && after[|before|].session != id)
    ensures forall f :: f in after && f.session == id ==> f in before
  {
    if after != before { assert after == before + [after[|before|]]; }
  }

  /** A remote message leads to a record exactly when it is accepted with the trigger enabled
      and a working store, the peer has none yet, and it is the entry that completes mutual
      entry or an error report after it. */
  lemma RecordExactly(d: Deps, n: Node, m: Message, c: Circumstance)
    requires Sound(n)
    ensures var s := StateFor(n, m);
            RemoteStep(d, n, m, c).friends ==
              if Accepted(d, n, Inbound(m, c)) && c.trigger && c.storeOk && !Known(n.friends, s.peer)
                 && ((m.kind == HumanEntry && s.localEntered) || (m.kind == ErrorReport && s.phase == MutualEntry))
              then n.friends + [Friend(s.peer, m.core.sessionId, c.now)] else n.friends
  {
    var s := StateFor(n, m);
    if Accepted(d, n, Inbound(m, c)) { StepIsTwoFlagRule(s, EventOf(m, d.decrypt(m).value)); }
  }

  /** A failed write is not made up for by delivering the entry again: that is now refused. */
  lemma EntryNotRetried(d: Deps, n: Node, m: Message, c: Circumstance)
    requires Sound(n) && m.kind == HumanEntry && !c.storeOk && c.trigger
    requires Accepted(d, n, Inbound(m, c)) && StateFor(n, m).localEntered && !Known(n.friends, StateFor(n, m).peer)
    ensures var after := RemoteStep(d, n, m, c);
            && after.friends == n.friends && after.sessions[m.core.sessionId].phase == MutualEntry
            && forall again: Circumstance :: RemoteStep(d, after, m, again) == after
  {
    RecordExactly(d, n, m, c);
    StepIsTwoFlagRule(StateFor(n, m), EventOf(m, d.decrypt(m).value));
  }

  /** The peer of a session that a message opens is its peer field, or the unknown actor; it
      is the sender exactly when the field names the sender. */
  lemma OpenedPeer(d: Deps, n: Node, m: Message, c: Circumstance)
    requires Sound(n) && m.core.sessionId !in n.sessions && Accepted(d, n, Inbound(m, c))
    ensures var peer := RemoteStep(d, n, m, c).sessions[m.core.sessionId].peer;
            peer == m.core.fromActor <==>
              || m.peerField == Some(m.core.fromActor)
              || (m.peerField.None? && m.core.fromActor == Ascii("h:sha256:unknown"))
  {
    StepIsTwoFlagRule(StateFor(n, m), EventOf(m, d.decrypt(m).value));
  }

  /** What one step does to one session: its peer stays, its flags are only set, and a flag is
      newly set only by an accepted entry of that side in that session. */
  lemma SessionStep(d: Deps, n: Node, i: Input, id: Text)
    requires Sound(n)
    ensures var after := Step(d, n, i).sessions;
            && (id in n.sessions ==>
                  && id in after && after[id].peer == n.sessions[id].peer
                  && (n.sessions[id].localEntered ==> after[id].localEntered)
                  && (n.sessions[id].remoteEntered ==> after[id].remoteEntered))
            && (id in after && after[id].remoteEntered && !(id in n.sessions && n.sessions[id].remoteEntered) ==>
                  && i.Inbound? && SessionOf(i) == id && i.message.kind == HumanEntry && Accepted(d, n, i)
                  && after[id].peer == StateFor(n, i.message).peer)
            && (id in after && after[id].localEntered && !(id in n.sessions && n.sessions[id].localEntered) ==>
                  i.Injected? && SessionOf(i) == id && i.event.localKind == LocalEntry && Accepted(d, n, i))
  {
    if Accepted(d, n, i) {
      match i
      case Inbound(m, c) =>
        StoredSession(n, StateFor(n, m), EventOf(m, d.decrypt(m).value), c, id);
      case Injected(s, e, c) =>
        StoredSession(n, n.sessions[s], e, c, id);
    }
  }

  /** What storing the outcome of an event does to one session. */
  lemma StoredSession(n: Node, s: SessionState, e: Event, c: Circumstance, id: Text)
    requires Apply(s, e).Ok?
    ensures var after := Commit(n, Apply(s, e).value, c).sessions;
            && (id != s.id ==> (id in after <==> id in n.sessions) && (id in after ==> after[id] == n.sessions[id]))
            && s.id in after && after[s.id].id == s.id && after[s.id].peer == s.peer
            && (after[s.id].localEntered <==> s.localEntered || (e.Local? && e.localKind == LocalEntry))
            && (after[s.id].remoteEntered <==> s.remoteEntered || (e.Remote? && e.kind == HumanEntry))
  {
    EntrySets(s, e);
  }

  lemma EntrySets(s: SessionState, e: Event)
    requires Apply(s, e).Ok?
    ensures var next := Apply(s, e).value.next;
            && next.id == s.id && next.peer == s.peer
            && (next.localEntered <==> s.localEntered || (e.Local? && e.localKind == LocalEntry))
            && (next.remoteEntered <==> s.remoteEntered || (e.Remote? && e.kind == HumanEntry))
  {
  }
}
