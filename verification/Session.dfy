/** The friendship session: one step of its state machine for a verified remote message or a
    local event, and what every run of such steps keeps. */
module Session {
  import opened Json
  import opened Wrappers

  datatype Phase = Disconnected | Probing | ProbeComplete | AwaitEntry | MutualEntry | Closed | Failed

  datatype Kind =
    | Hello | Question | Answer | Summary | Done
    | HumanEntry | HumanExit | Establish | Close | ErrorReport | Unsupported

  datatype LocalKind = LocalEntry | LocalClose | OtherLocal

  /** A close reason outside this list reaches the session as `None`. */
  datatype CloseReason = NoEntryTimeout | ProbeTimeout | UserClose | PolicyReject | TransportFail | ProtocolViolation

  datatype SessionState = SessionState(
    phase: Phase, id: Text, peer: Text, localEntered: bool, remoteEntered: bool, closedReason: Option<CloseReason>)

  /** An event of either origin; a local event has its own kind and id. */
  datatype Event =
    | Remote(msgId: Text, kind: Kind, reason: Option<CloseReason>)
    | Local(eventId: Text, localKind: LocalKind, reason: Option<CloseReason>)

  datatype AuditKind = SessionTransition | SessionError | LocalEvent

  datatype AuditCore = AuditCore(
    kind: AuditKind, session: Text, event: Event, before: Phase, after: Phase,
    localDelta: Option<bool>, remoteDelta: Option<bool>)

  /** The fields a store has to change. */
  datatype Patch = Patch(phase: Option<Phase>, local: Option<bool>, remote: Option<bool>, reason: Option<CloseReason>)

  datatype Applied = Applied(next: SessionState, patch: Patch, audit: seq<AuditCore>)

  datatype Rejection = InvalidState | UnsupportedType | TerminalState | IllegalTransition | InvalidReason

  // -------------------------------------------------------------------- tables

  predicate Terminal(p: Phase) { p == Closed || p == Failed }

  function Allowed(p: Phase): set<Kind> {
    match p
    case Disconnected => {Hello, Close, ErrorReport}
    case Probing => {Question, Answer, Summary, Done, Close, ErrorReport}
    case ProbeComplete => {HumanEntry, Close, ErrorReport}
    case AwaitEntry => {HumanEntry, Close, ErrorReport}
    case MutualEntry => {Close, ErrorReport}
    case Closed => {}
    case Failed => {}
  }

  function AllowedLocal(p: Phase): set<LocalKind> {
    match p
    case Disconnected => {}
    case Probing => {LocalClose}
    case ProbeComplete => {LocalEntry, LocalClose}
    case AwaitEntry => {LocalEntry, LocalClose}
    case MutualEntry => {LocalClose}
    case Closed => {}
    case Failed => {}
  }

  predicate ValidState(s: SessionState) { s.id != [] && s.peer != [] }

  // ------------------------------------------------------------------- one step

  function Delta(before: bool, after: bool): Option<bool> { if before != after then Some(after) else None }

  function Audit(kind: AuditKind, s: SessionState, e: Event, next: SessionState): seq<AuditCore> {
    [AuditCore(kind, s.id, e, s.phase, next.phase,
               Delta(s.localEntered, next.localEntered), Delta(s.remoteEntered, next.remoteEntered))]
  }

  function EntryPhase(local: bool, remote: bool): Phase { if local && remote then MutualEntry else AwaitEntry }

  function ApplyRemote(s: SessionState, e: Event): Result<Applied, Rejection>
    requires e.Remote?
  {
    if !ValidState(s) then Err(InvalidState)
    else if e.kind == Unsupported then Err(UnsupportedType)
    else if Terminal(s.phase) then Err(TerminalState)
    else if e.kind !in Allowed(s.phase) then Err(IllegalTransition)
    else if e.kind == Hello then Ok(Move(s, e, Probing))
    else if e.kind == Question || e.kind == Answer then Ok(Move(s, e, Probing))
    else if e.kind == Summary || e.kind == Done then Ok(Move(s, e, ProbeComplete))
    else if e.kind == HumanEntry then
      var next := s.(remoteEntered := true, phase := EntryPhase(s.localEntered, true));
      Ok(Applied(next, Patch(Some(next.phase), None, if s.remoteEntered then None else Some(true), None),
                 Audit(SessionTransition, s, e, next)))
    else if e.kind == Close then
      if e.reason.None? then Err(InvalidReason)
      else
        var next := s.(phase := Closed, closedReason := e.reason);
        Ok(Applied(next, Patch(Some(Closed), None, None, e.reason), Audit(SessionTransition, s, e, next)))
    else
      Ok(Applied(s, Patch(None, None, None, None), Audit(SessionError, s, e, s)))
  }

  function Move(s: SessionState, e: Event, p: Phase): Applied {
    var next := s.(phase := p);
    Applied(next, Patch(Some(p), None, None, None), Audit(SessionTransition, s, e, next))
  }

  function ApplyLocal(s: SessionState, e: Event): Result<Applied, Rejection>
    requires e.Local?
  {
    if !ValidState(s) then Err(InvalidState)
    else if e.localKind == OtherLocal || e.eventId == [] then Err(UnsupportedType)
    else if Terminal(s.phase) then Err(TerminalState)
    else if e.localKind !in AllowedLocal(s.phase) then Err(IllegalTransition)
    else if e.localKind == LocalEntry then
      var next := s.(localEntered := true, phase := EntryPhase(true, s.remoteEntered));
      Ok(Applied(next, Patch(Some(next.phase), if s.localEntered then None else Some(true), None, None),
                 Audit(LocalEvent, s, e, next)))
    else if e.reason.None? then Err(InvalidReason)
    else
      var next := s.(phase := Closed, closedReason := e.reason);
      Ok(Applied(next, Patch(Some(Closed), None, None, e.reason), Audit(LocalEvent, s, e, next)))
  }

  function Apply(s: SessionState, e: Event): Result<Applied, Rejection> {
    if e.Remote? then ApplyRemote(s, e) else ApplyLocal(s, e)
  }

  /** A rejected event leaves the session as it is. */
  function After(s: SessionState, e: Event): SessionState {
    if Apply(s, e).Ok? then Apply(s, e).value.next else s
  }

  function AfterAll(s: SessionState, es: seq<Event>): SessionState {
    if es == [] then s else After(AfterAll(s, es[..|es| - 1]), es[|es| - 1])
  }

  /** The audit events of a run, in order. */
  function AuditAll(s: SessionState, es: seq<Event>): seq<AuditCore> {
    if es == [] then []
    else
      var r := Apply(AfterAll(s, es[..|es| - 1]), es[|es| - 1]);
      AuditAll(s, es[..|es| - 1]) + (if r.Ok? then r.value.audit else [])
  }

  // ------------------------------------------------- the specification by two flags

  /** The phases of entry are a reading of two flags: no entry, one entry, both. */
  predicate Coherent(s: SessionState) {
    && (s.phase in {Disconnected, Probing, ProbeComplete} ==> !s.localEntered && !s.remoteEntered)
    && (s.phase == AwaitEntry ==> s.localEntered != s.remoteEntered)
    && (s.phase == MutualEntry ==> s.localEntered && s.remoteEntered)
    && (s.phase == Closed <==> s.closedReason.Some?)
  }

  function Fresh(id: Text, peer: Text): SessionState { SessionState(Disconnected, id, peer, false, false, None) }

  /** What the two-flag rule prescribes, without naming phases of entry: a session is before
      the end of probing, in entry with a set of parties that entered, or over. */
  datatype Abstract = Before(probing: bool) | Entry(local: bool, remote: bool) | Over(local: bool, remote: bool)

  function View(s: SessionState): Abstract {
    match s.phase
    case Disconnected => Before(false)
    case Probing => Before(true)
    case Closed => Over(s.localEntered, s.remoteEntered)
    case Failed => Over(s.localEntered, s.remoteEntered)
    case _ => Entry(s.localEntered, s.remoteEntered)
  }

  /** The next abstract state, or none when the event is to be refused. */
  function Prescribed(a: Abstract, e: Event): Option<Abstract> {
    match (a, e)
    case (Over(_, _), _) => None
    case (Before(p), Remote(_, k, reason)) =>
      if k == ErrorReport then Some(a)
      else if k == Close then (if reason.Some? then Some(Over(false, false)) else None)
      else if !p then (if k == Hello then Some(Before(true)) else None)
      else if k in {Question, Answer} then Some(a)
      else if k in {Summary, Done} then Some(Entry(false, false))
      else None
    case (Entry(l, r), Remote(_, k, reason)) =>
      if k == ErrorReport then Some(a)
      else if k == Close then (if reason.Some? then Some(Over(l, r)) else None)
      else if k == HumanEntry && !(l && r) then Some(Entry(l, true))
      else None
    case (Before(p), Local(id, k, reason)) =>
      if p && id != [] && k == LocalClose && reason.Some? then Some(Over(false, false)) else None
    case (Entry(l, r), Local(id, k, reason)) =>
      if id == [] then None
      else if k == LocalClose then (if reason.Some? then Some(Over(l, r)) else None)
      else if k == LocalEntry && !(l && r) then Some(Entry(true, r))
      else None
  }

  /** The state machine is the two-flag rule: it accepts and refuses the same events, keeps
      phase and flags coherent, and keeps id and peer. */
  lemma StepIsTwoFlagRule(s: SessionState, e: Event)
    requires ValidState(s) && Coherent(s)
    ensures Apply(s, e).Ok? <==> Prescribed(View(s), e).Some?
    ensures var n := After(s, e);
            && Coherent(n) && n.id == s.id && n.peer == s.peer
            && View(n) == (if Prescribed(View(s), e).Some? then Prescribed(View(s), e).value else View(s))
  {
  }

  /** A close ends the session for its reason; nothing else gives one or changes it. */
  lemma ClosedFor(s: SessionState, e: Event)
    requires ValidState(s) && Coherent(s)
    ensures After(s, e).closedReason ==
            if !View(s).Over? && View(After(s, e)).Over? then e.reason else s.closedReason
    ensures !View(s).Over? && View(After(s, e)).Over? ==> e.reason.Some?
  {
  }

  /** An accepted event leaves one audit event: what came and from whom, the phase before and
      after, and of the flags those that changed. */
  lemma OneAuditEvent(s: SessionState, e: Event)
    requires Apply(s, e).Ok?
    ensures var r := Apply(s, e).value;
            && |r.audit| == 1 && r.audit[0].session == s.id && r.audit[0].event == e
            && r.audit[0].before == s.phase && r.audit[0].after == r.next.phase
            && r.audit[0].kind == (if e.Local? then LocalEvent
                                   else if e.kind == ErrorReport then SessionError else SessionTransition)
            && r.audit[0].localDelta ==
               (if s.localEntered == r.next.localEntered then None else Some(r.next.localEntered))
            && r.audit[0].remoteDelta ==
               (if s.remoteEntered == r.next.remoteEntered then None else Some(r.next.remoteEntered))
  {
  }

  /** Why an event is refused: its type, an ended session, a phase that does not take it whatever
      the reason it gives, or a close without a reason. */
  lemma RefusedFor(s: SessionState, e: Event)
    requires s.id != [] && s.peer != [] && Coherent(s) && Apply(s, e).Err?
    ensures Apply(s, e).error ==
            if (e.Remote? && e.kind == Unsupported) || (e.Local? && (e.localKind == OtherLocal || e.eventId == []))
            then UnsupportedType
            else if View(s).Over? then TerminalState
            else if Prescribed(View(s), e.(reason := Some(UserClose))).None? then IllegalTransition
            else InvalidReason
  {
  }

  /** A session without an id or a peer takes no event. */
  lemma InvalidRefused(s: SessionState, e: Event)
    requires s.id == [] || s.peer == []
    ensures Apply(s, e) == Err(InvalidState)
  {
  }

  lemma {:induction false} RunCoherent(s: SessionState, es: seq<Event>)
    requires ValidState(s) && Coherent(s)
    ensures var n := AfterAll(s, es); ValidState(n) && Coherent(n) && n.id == s.id && n.peer == s.peer
  {
    if es != [] {
      RunCoherent(s, es[..|es| - 1]);
      StepIsTwoFlagRule(AfterAll(s, es[..|es| - 1]), es[|es| - 1]);
    }
  }

  /** In every run from a fresh session, mutual entry is exactly both flags in an open session. */
  lemma MutualIsBothFlags(id: Text, peer: Text, es: seq<Event>)
    requires id != [] && peer != []
    ensures var n := AfterAll(Fresh(id, peer), es);
            n.phase == MutualEntry <==> n.localEntered && n.remoteEntered && !Terminal(n.phase)
  {
    RunCoherent(Fresh(id, peer), es);
  }

  /** The phase for failed sessions exists but no event leads to it. */
  lemma {:induction false} NeverFails(s: SessionState, es: seq<Event>)
    requires s.phase != Failed
    ensures AfterAll(s, es).phase != Failed
  {
    if es != [] { NeverFails(s, es[..|es| - 1]); }
  }

  /** The two entries may come in either order, with any repetition of either in between. */
  lemma EntriesCommute(s: SessionState, l: Event, r: Event)
    requires ValidState(s) && Coherent(s) && s.phase in {ProbeComplete, AwaitEntry}
    requires l.Local? && l.localKind == LocalEntry && l.eventId != [] && r.Remote? && r.kind == HumanEntry
    ensures After(After(s, l), r) == After(After(s, r), l) ==
        s.(phase := MutualEntry, localEntered := true, remoteEntered := true)
    ensures After(After(s, l), l) == After(s, l) && After(After(s, r), r) == After(s, r)
  {
  }

  // ------------------------------------------------------- facts about whole runs

  /** No event brings a session out of a terminal phase, or is recorded there. */
  lemma {:induction false} TerminalAbsorbs(s: SessionState, es: seq<Event>)
    requires Terminal(s.phase)
    ensures AfterAll(s, es) == s && AuditAll(s, es) == []
  {
    if es != [] { TerminalAbsorbs(s, es[..|es| - 1]); }
  }

  function Rank(p: Phase): nat {
    match p
    case Disconnected => 0
    case Probing => 1
    case ProbeComplete => 2
    case AwaitEntry => 3
    case MutualEntry => 4
    case Closed => 5
    case Failed => 5
  }

  /** Phases only advance and an entry is never taken back. */
  lemma {:induction false} RunAdvances(s: SessionState, es: seq<Event>, k: nat)
    requires ValidState(s) && Coherent(s) && k <= |es|
    ensures var early, late := AfterAll(s, es[..k]), AfterAll(s, es);
            && Rank(early.phase) <= Rank(late.phase)
            && (early.localEntered ==> late.localEntered) && (early.remoteEntered ==> late.remoteEntered)
    decreases |es|
  {
    if k == |es| {
      assert es[..k] == es;
    } else {
      var front := es[..|es| - 1];
      assert front[..k] == es[..k];
      RunAdvances(s, front, k);
      RunCoherent(s, front);
      StepAdvances(AfterAll(s, front), es[|es| - 1]);
    }
  }

  lemma StepAdvances(s: SessionState, e: Event)
    requires Coherent(s)
    ensures var n := After(s, e);
            && Rank(s.phase) <= Rank(n.phase)
            && (s.localEntered ==> n.localEntered) && (s.remoteEntered ==> n.remoteEntered)
  {
  }

  /** A flag is set exactly when an entry of that side was accepted. */
  predicate Enters(a: AuditCore, local: bool) {
    if local then a.event.Local? && a.event.localKind == LocalEntry else a.event.Remote? && a.event.kind == HumanEntry
  }

  lemma {:induction false} FlagsHaveEntries(id: Text, peer: Text, es: seq<Event>)
    ensures var n, log := AfterAll(Fresh(id, peer), es), AuditAll(Fresh(id, peer), es);
            && (n.localEntered <==> exists a :: a in log && Enters(a, true))
            && (n.remoteEntered <==> exists a :: a in log && Enters(a, false))
  {
    if es != [] {
      var front := es[..|es| - 1];
      FlagsHaveEntries(id, peer, front);
      var s, log := AfterAll(Fresh(id, peer), front), AuditAll(Fresh(id, peer), front);
      var r := Apply(s, es[|es| - 1]);
      if r.Ok? {
        EntryOf(s, es[|es| - 1]);
        assert forall a :: a in log + r.value.audit <==> a in log || a == r.value.audit[0];
      }
    }
  }

  lemma EntryOf(s: SessionState, e: Event)
    requires Apply(s, e).Ok?
    ensures var r := Apply(s, e).value;
            && |r.audit| == 1
            && (r.next.localEntered <==> s.localEntered || Enters(r.audit[0], true))
            && (r.next.remoteEntered <==> s.remoteEntered || Enters(r.audit[0], false))
  {
  }

  // --------------------------------------------------------- patch and audit replay

  function Patched(s: SessionState, p: Patch): SessionState {
    s.(phase := if p.phase.Some? then p.phase.value else s.phase,
       localEntered := if p.local.Some? then p.local.value else s.localEntered,
       remoteEntered := if p.remote.Some? then p.remote.value else s.remoteEntered,
       closedReason := if p.reason.Some? then p.reason else s.closedReason)
  }

  /** Storing the patch and storing the whole next state come to the same. */
  lemma PatchReproduces(s: SessionState, e: Event)
    requires Apply(s, e).Ok?
    ensures Patched(s, Apply(s, e).value.patch) == Apply(s, e).value.next
  {
  }

  /** Phase and flags as the audit log tells them. */
  datatype Replayed = Replayed(phase: Phase, local: bool, remote: bool)

  function Replay(log: seq<AuditCore>): Replayed {
    if log == [] then Replayed(Disconnected, false, false)
    else ReplayOne(Replay(log[..|log| - 1]), log[|log| - 1])
  }

  function ReplayOne(r: Replayed, a: AuditCore): Replayed {
    Replayed(a.after, if a.localDelta.Some? then a.localDelta.value else r.local,
             if a.remoteDelta.Some? then a.remoteDelta.value else r.remote)
  }

  function ReplayOf(s: SessionState): Replayed { Replayed(s.phase, s.localEntered, s.remoteEntered) }

  /** Each accepted event leaves one audit event, from which the step can be replayed. */
  lemma StepReplays(s: SessionState, e: Event)
    requires Apply(s, e).Ok?
    ensures var r := Apply(s, e).value;
            && |r.audit| == 1 && r.audit[0].session == s.id && r.audit[0].event == e
            && r.audit[0].before == s.phase && ReplayOne(ReplayOf(s), r.audit[0]) == ReplayOf(r.next)
  {
  }

  lemma ReplayPush(log: seq<AuditCore>, a: AuditCore)
    ensures Replay(log + [a]) == ReplayOne(Replay(log), a)
  {
    assert (log + [a])[..|log|] == log;
  }

  /** The audit log alone reproduces phase and flags of every run. */
  lemma {:induction false} ReplayReproduces(id: Text, peer: Text, es: seq<Event>)
    ensures Replay(AuditAll(Fresh(id, peer), es)) == ReplayOf(AfterAll(Fresh(id, peer), es))
  {
    if es != [] {
      var front, s0 := es[..|es| - 1], Fresh(id, peer);
      ReplayReproduces(id, peer, front);
      var r := Apply(AfterAll(s0, front), es[|es| - 1]);
      if r.Ok? {
        StepReplays(AfterAll(s0, front), es[|es| - 1]);
        assert r.value.audit == [r.value.audit[0]];
        ReplayPush(AuditAll(s0, front), r.value.audit[0]);
      } else {
        assert AuditAll(s0, front) + [] == AuditAll(s0, front);
      }
    }
  }
}
