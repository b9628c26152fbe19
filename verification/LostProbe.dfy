/** A run of two honest nodes in which the entry of the one is accepted by the other although
    the two hold different probe messages, one having been lost on the way. */
module LostProbe {
  import opened Consent
  import opened FriendshipNode
  import opened Json
  import opened Session
  import opened Transcript
  import opened Wrappers

  /** A node after the greeting, after the summary, and after its human's entry. */
  datatype Steps = Steps(greeted: Node, probed: Node, entered: Node)

  /** What the two parties send each other in their session, and the node each is after every
      step of it. */
  datatype Script = Script(
    x: Text, p: Text, session: Text,
    helloP: Message, questionP: Message, summaryP: Message, entryP: Message, helloX: Message, summaryX: Message,
    stepsX: Steps, friendX: Node, stepsP: Steps)

  function Kept(m: Message): Envelope { Envelope(m.core, m.rest) }

  /** What the two hold in the end: the question of `p` never arrives. */
  function HeldP(q: Script): seq<Envelope> {
    [Kept(q.helloP), Kept(q.questionP), Kept(q.summaryP), Kept(q.helloX), Kept(q.summaryX), Kept(q.entryP)]
  }

  function HeldX(q: Script): seq<Envelope> {
    [Kept(q.helloX), Kept(q.summaryX), Kept(q.helloP), Kept(q.summaryP), Kept(q.entryP)]
  }

  /** The five messages that are sent first, the two that reach each side and its human's entry,
      and then the entry that is announced and delivered. */
  function Acts(q: Script): seq<Act> {
    [Send(q.p, q.helloP), Send(q.p, q.questionP), Send(q.p, q.summaryP), Send(q.x, q.helloX), Send(q.x, q.summaryX),
     Deliver(q.x, q.helloP, FAIR), Deliver(q.x, q.summaryP, FAIR), Human(q.x, q.session, HUMAN, FAIR),
     Deliver(q.p, q.helloX, FAIR), Deliver(q.p, q.summaryX, FAIR), Human(q.p, q.session, HUMAN, FAIR),
     Send(q.p, q.entryP), Deliver(q.x, q.entryP, FAIR)]
  }

  predicate Reaches(d: Deps, n: Node, m: Message, next: Node) {
    Accepted(d, n, Inbound(m, FAIR)) && RemoteStep(d, n, m, FAIR) == next
  }

  ghost predicate SendersFit(q: Script) {
    && q.x != q.p && q.helloP.core.fromActor == q.p && q.questionP.core.fromActor == q.p
    && q.summaryP.core.fromActor == q.p && q.entryP.core.fromActor == q.p
    && q.helloX.core.fromActor == q.x && q.summaryX.core.fromActor == q.x
    && q.helloP.kind != HumanEntry && q.questionP.kind != HumanEntry && q.summaryP.kind != HumanEntry
    && q.helloX.kind != HumanEntry && q.summaryX.kind != HumanEntry && q.entryP.kind == HumanEntry
  }

  /** A node goes through its steps. */
  ghost predicate Opens(d: Deps, hello: Message, summary: Message, session: Text, t: Steps) {
    && Reaches(d, EMPTY, hello, t.greeted) && Reaches(d, t.greeted, summary, t.probed)
    && LocalStep(t.probed, session, HUMAN, FAIR) == t.entered
  }

  function NodeOf(t: Steps, k: nat): Node {
    if k == 0 then EMPTY else if k == 1 then t.greeted else if k == 2 then t.probed else t.entered
  }

  function NodeX(q: Script, k: nat): Node { if k < 4 then NodeOf(q.stepsX, k) else q.friendX }

  /** The hash of the five probe messages `p` holds by then. */
  function HashP(q: Script, u: Setup): Text { TranscriptHash(u.hash, u.length, q.session, HeldP(q)[..5]) }

  /** The entry is one `p` may announce, bound to the hash of the five probe messages it holds. */
  ghost predicate EntryFits(q: Script, u: Setup) {
    && q.entryP.core.sessionId == q.session && q.session in q.stepsP.entered.sessions
    && q.stepsP.entered.sessions[q.session].localEntered
    && q.stepsP.entered.sessions[q.session].peer == q.entryP.core.toActor
    && u.deps.decrypt(q.entryP) == Some(EntryBody(q.session, HashP(q, u)))
  }

  /** How far things are: the step of each node, what it holds, and who announced. */
  datatype Progress = Progress(x: nat, p: nat, heldX: nat, heldP: nat)

  function ProgressAt(k: nat): Progress {
    Progress(if k <= 5 then 0 else if k <= 8 then k - 5 else if k <= 12 then 3 else 4,
             if k <= 8 then 0 else if k <= 11 then k - 8 else 3,
             if k <= 3 then 0 else if k <= 7 then k - 3 else if k <= 12 then 4 else 5,
             if k <= 3 then k else if k <= 8 then 3 else if k <= 10 then k - 5 else if k == 11 then 5 else 6)
  }

  ghost predicate Reached(q: Script, w: World, g: Progress) {
    && g.heldX <= 5 && g.heldP <= 6 && w.nodes == map[q.x := NodeX(q, g.x), q.p := NodeOf(q.stepsP, g.p)]
    && HeldBy(w, q.x) == HeldX(q)[..g.heldX] && HeldBy(w, q.p) == HeldP(q)[..g.heldP]
  }

  /** All that was sent in the first k acts was signed. */
  ghost predicate SignedAt(q: Script, w: World, k: nat) {
    forall j :: 0 <= j < k && j < 13 && Acts(q)[j].Send? ==> WasSigned(w, Acts(q)[j].message)
  }

  // ---------------------------------------------------------------- one act

  lemma Sends(q: Script, u: Setup, w: World, k: nat, y: Text, m: Message, after: World)
    requires k < 13 && Acts(q)[k] == Send(y, m) && SignedAt(q, w, k) && after == Next(u, w, Acts(q)[k])
    requires y in w.nodes && m.core.fromActor == y && (m.kind == HumanEntry ==> MayAnnounce(u, w, y, m))
    ensures Legal(u, w, Acts(q)[k]) && after.nodes == w.nodes && SignedAt(q, after, k + 1)
    ensures HeldBy(after, y) == HeldBy(w, y) + [Kept(m)] && forall z :: z != y ==> HeldBy(after, z) == HeldBy(w, z)
  {
    assert Signed(m, HeldBy(w, y)) in after.signed;
    forall n | WasSigned(w, n) ensures WasSigned(after, n) {
      var s :| s in w.signed && s.message == n;
      assert s in after.signed;
    }
  }

  lemma Delivers(q: Script, u: Setup, w: World, k: nat, y: Text, m: Message, next: Node, after: World)
    requires k < 13 && Acts(q)[k] == Deliver(y, m, FAIR) && SignedAt(q, w, k) && after == Next(u, w, Acts(q)[k])
    requires y in w.nodes && WasSigned(w, m) && Reaches(u.deps, w.nodes[y], m, next)
    ensures Legal(u, w, Acts(q)[k]) && after.nodes == w.nodes[y := next] && SignedAt(q, after, k + 1)
    ensures HeldBy(after, y) == HeldBy(w, y) + [Kept(m)] && forall z :: z != y ==> HeldBy(after, z) == HeldBy(w, z)
  {
    forall n ensures WasSigned(w, n) <==> WasSigned(after, n) {}
  }

  lemma Enters(q: Script, u: Setup, w: World, k: nat, y: Text, next: Node, after: World)
    requires k < 13 && Acts(q)[k] == Human(y, q.session, HUMAN, FAIR) && SignedAt(q, w, k)
    requires y in w.nodes && LocalStep(w.nodes[y], q.session, HUMAN, FAIR) == next && after == Next(u, w, Acts(q)[k])
    ensures Legal(u, w, Acts(q)[k]) && after.nodes == w.nodes[y := next] && SignedAt(q, after, k + 1)
    ensures forall z :: HeldBy(after, z) == HeldBy(w, z)
  {
    forall n ensures WasSigned(w, n) <==> WasSigned(after, n) {}
  }

  lemma HeldPush(es: seq<Envelope>, n: nat)
    requires n < |es|
    ensures es[..n] + [es[n]] == es[..n + 1]
  {
  }

  /** From one place of the script to the next. */
  lemma MovesX(q: Script, w: World, after: World, g: Progress, x: nat, held: nat)
    requires Reached(q, w, g) && q.x != q.p && g.heldX <= held <= g.heldX + 1 && held <= 5
    requires after.nodes == w.nodes[q.x := NodeX(q, x)] && HeldBy(after, q.p) == HeldBy(w, q.p)
    requires HeldBy(after, q.x) == if held == g.heldX then HeldBy(w, q.x) else HeldBy(w, q.x) + [HeldX(q)[g.heldX]]
    ensures Reached(q, after, g.(x := x, heldX := held))
  {
    if held > g.heldX { HeldPush(HeldX(q), g.heldX); }
  }

  lemma MovesP(q: Script, w: World, after: World, g: Progress, p: nat, held: nat)
    requires Reached(q, w, g) && q.x != q.p && g.heldP <= held <= g.heldP + 1 && held <= 6
    requires after.nodes == w.nodes[q.p := NodeOf(q.stepsP, p)] && HeldBy(after, q.x) == HeldBy(w, q.x)
    requires HeldBy(after, q.p) == if held == g.heldP then HeldBy(w, q.p) else HeldBy(w, q.p) + [HeldP(q)[g.heldP]]
    ensures Reached(q, after, g.(p := p, heldP := held))
  {
    if held > g.heldP { HeldPush(HeldP(q), g.heldP); }
  }

  ghost predicate Before(q: Script, u: Setup, w: World, k: nat, after: World) {
    && k < 13 && SendersFit(q) && Reached(q, w, ProgressAt(k)) && SignedAt(q, w, k) && after == Next(u, w, Acts(q)[k])
  }

  lemma SendsP(q: Script, u: Setup, w: World, k: nat, after: World)
    requires Before(q, u, w, k, after) && k < 3
    ensures Legal(u, w, Acts(q)[k]) && Reached(q, after, ProgressAt(k + 1)) && SignedAt(q, after, k + 1)
  {
    Sends(q, u, w, k, q.p, Acts(q)[k].message, after);
    MovesP(q, w, after, ProgressAt(k), 0, k + 1);
  }

  lemma SendsX(q: Script, u: Setup, w: World, k: nat, after: World)
    requires Before(q, u, w, k, after) && 3 <= k < 5
    ensures Legal(u, w, Acts(q)[k]) && Reached(q, after, ProgressAt(k + 1)) && SignedAt(q, after, k + 1)
  {
    Sends(q, u, w, k, q.x, Acts(q)[k].message, after);
    MovesX(q, w, after, ProgressAt(k), 0, k - 2);
  }

  lemma OpensX(q: Script, u: Setup, w: World, k: nat, after: World)
    requires Before(q, u, w, k, after) && 5 <= k < 7
    requires Reaches(u.deps, NodeX(q, k - 5), Acts(q)[k].message, NodeX(q, k - 4))
    ensures Legal(u, w, Acts(q)[k]) && Reached(q, after, ProgressAt(k + 1)) && SignedAt(q, after, k + 1)
  {
    assert WasSigned(w, Acts(q)[if k == 5 then 0 else 2].message);
    Delivers(q, u, w, k, q.x, Acts(q)[k].message, NodeX(q, k - 4), after);
    MovesX(q, w, after, ProgressAt(k), k - 4, k - 2);
  }

  lemma EntersX(q: Script, u: Setup, w: World, after: World)
    requires Before(q, u, w, 7, after)
    requires LocalStep(q.stepsX.probed, q.session, HUMAN, FAIR) == q.stepsX.entered
    ensures Legal(u, w, Acts(q)[7]) && Reached(q, after, ProgressAt(8)) && SignedAt(q, after, 8)
  {
    Enters(q, u, w, 7, q.x, q.stepsX.entered, after);
    MovesX(q, w, after, ProgressAt(7), 3, 4);
  }

  lemma OpensP(q: Script, u: Setup, w: World, k: nat, after: World)
    requires Before(q, u, w, k, after) && 8 <= k < 10
    requires Reaches(u.deps, NodeOf(q.stepsP, k - 8), Acts(q)[k].message, NodeOf(q.stepsP, k - 7))
    ensures Legal(u, w, Acts(q)[k]) && Reached(q, after, ProgressAt(k + 1)) && SignedAt(q, after, k + 1)
  {
    assert WasSigned(w, Acts(q)[k - 5].message);
    Delivers(q, u, w, k, q.p, Acts(q)[k].message, NodeOf(q.stepsP, k - 7), after);
    MovesP(q, w, after, ProgressAt(k), k - 7, k - 4);
  }

  lemma EntersP(q: Script, u: Setup, w: World, after: World)
    requires Before(q, u, w, 10, after)
    requires LocalStep(q.stepsP.probed, q.session, HUMAN, FAIR) == q.stepsP.entered
    ensures Legal(u, w, Acts(q)[10]) && Reached(q, after, ProgressAt(11)) && SignedAt(q, after, 11)
  {
    Enters(q, u, w, 10, q.p, q.stepsP.entered, after);
    MovesP(q, w, after, ProgressAt(10), 3, 5);
  }

  lemma Announces(q: Script, u: Setup, w: World, after: World)
    requires Before(q, u, w, 11, after)
    requires EntryFits(q, u)
    ensures Legal(u, w, Acts(q)[11]) && Reached(q, after, ProgressAt(12)) && SignedAt(q, after, 12)
  {
    assert MayAnnounce(u, w, q.p, q.entryP);
    Sends(q, u, w, 11, q.p, q.entryP, after);
    MovesP(q, w, after, ProgressAt(11), 3, 6);
  }

  lemma EntryArrives(q: Script, u: Setup, w: World, after: World)
    requires Before(q, u, w, 12, after)
    requires Reaches(u.deps, q.stepsX.entered, q.entryP, q.friendX)
    ensures Legal(u, w, Acts(q)[12]) && Reached(q, after, ProgressAt(13)) && SignedAt(q, after, 13)
  {
    assert Acts(q)[11].Send?;
    Delivers(q, u, w, 12, q.x, q.entryP, q.friendX, after);
    MovesX(q, w, after, ProgressAt(12), 4, 5);
  }

  /** A legal run that got this far. */
  ghost predicate GotTo(q: Script, u: Setup, k: nat, w: World) {
    && k <= 13 && w == Consent.Run(u, {q.x, q.p}, Acts(q)[..k]) && LegalRun(u, {q.x, q.p}, Acts(q)[..k])
    && Reached(q, w, ProgressAt(k)) && SignedAt(q, w, k)
  }

  lemma GoesOn(q: Script, u: Setup, k: nat, w: World, after: World)
    requires GotTo(q, u, k, w) && k < 13 && after == Next(u, w, Acts(q)[k])
    requires Legal(u, w, Acts(q)[k]) && Reached(q, after, ProgressAt(k + 1)) && SignedAt(q, after, k + 1)
    ensures GotTo(q, u, k + 1, after)
  {
    OneMore(u, {q.x, q.p}, Acts(q), k, w, after);
  }

  lemma OneMore(u: Setup, honest: set<Text>, acts: seq<Act>, k: nat, w: World, after: World)
    requires k < |acts| && w == Consent.Run(u, honest, acts[..k]) && LegalRun(u, honest, acts[..k])
    requires Legal(u, w, acts[k]) && after == Next(u, w, acts[k])
    ensures after == Consent.Run(u, honest, acts[..k + 1]) && LegalRun(u, honest, acts[..k + 1])
  {
    assert acts[..k + 1][..k] == acts[..k];
  }

  lemma {:induction false} RunSends(q: Script, u: Setup, k: nat) returns (w: World)
    requires SendersFit(q) && k <= 5
    ensures GotTo(q, u, k, w)
  {
    if k == 0 {
      w := Start({q.x, q.p});
      assert w.nodes == map[q.x := EMPTY, q.p := EMPTY];
    } else {
      var front := RunSends(q, u, k - 1);
      w := Next(u, front, Acts(q)[k - 1]);
      if k <= 3 {
        SendsP(q, u, front, k - 1, w);
      } else {
        SendsX(q, u, front, k - 1, w);
      }
      GoesOn(q, u, k - 1, front, w);
    }
  }

  lemma RunOpensX(q: Script, u: Setup, k: nat, base: World, n: Node, m: Message, next: Node) returns (w: World)
    requires SendersFit(q) && GotTo(q, u, k, base) && 5 <= k < 7 && Reaches(u.deps, n, m, next)
    requires n == NodeX(q, k - 5) && next == NodeX(q, k - 4) && m == Acts(q)[k].message
    ensures GotTo(q, u, k + 1, w)
  {
    w := Next(u, base, Acts(q)[k]);
    OpensX(q, u, base, k, w);
    GoesOn(q, u, k, base, w);
  }

  lemma RunEntersX(q: Script, u: Setup, base: World) returns (w: World)
    requires SendersFit(q) && GotTo(q, u, 7, base)
    requires LocalStep(q.stepsX.probed, q.session, HUMAN, FAIR) == q.stepsX.entered
    ensures GotTo(q, u, 8, w)
  {
    w := Next(u, base, Acts(q)[7]);
    EntersX(q, u, base, w);
    GoesOn(q, u, 7, base, w);
  }

  lemma RunOpensP(q: Script, u: Setup, k: nat, base: World, n: Node, m: Message, next: Node) returns (w: World)
    requires SendersFit(q) && GotTo(q, u, k, base) && 8 <= k < 10 && Reaches(u.deps, n, m, next)
    requires n == NodeOf(q.stepsP, k - 8) && next == NodeOf(q.stepsP, k - 7) && m == Acts(q)[k].message
    ensures GotTo(q, u, k + 1, w)
  {
    w := Next(u, base, Acts(q)[k]);
    OpensP(q, u, base, k, w);
    GoesOn(q, u, k, base, w);
  }

  lemma RunEntersP(q: Script, u: Setup, base: World) returns (w: World)
    requires SendersFit(q) && GotTo(q, u, 10, base)
    requires LocalStep(q.stepsP.probed, q.session, HUMAN, FAIR) == q.stepsP.entered
    ensures GotTo(q, u, 11, w)
  {
    w := Next(u, base, Acts(q)[10]);
    EntersP(q, u, base, w);
    GoesOn(q, u, 10, base, w);
  }

  lemma RunGreetsX(q: Script, u: Setup, base: World) returns (w: World)
    requires SendersFit(q) && GotTo(q, u, 5, base) && Reaches(u.deps, EMPTY, q.helloP, q.stepsX.greeted)
    ensures GotTo(q, u, 6, w)
  {
    w := RunOpensX(q, u, 5, base, EMPTY, q.helloP, q.stepsX.greeted);
  }

  lemma RunProbesX(q: Script, u: Setup, base: World) returns (w: World)
    requires SendersFit(q) && GotTo(q, u, 6, base) && Reaches(u.deps, q.stepsX.greeted, q.summaryP, q.stepsX.probed)
    ensures GotTo(q, u, 7, w)
  {
    w := RunOpensX(q, u, 6, base, q.stepsX.greeted, q.summaryP, q.stepsX.probed);
  }

  lemma RunGreetsP(q: Script, u: Setup, base: World) returns (w: World)
    requires SendersFit(q) && GotTo(q, u, 8, base) && Reaches(u.deps, EMPTY, q.helloX, q.stepsP.greeted)
    ensures GotTo(q, u, 9, w)
  {
    w := RunOpensP(q, u, 8, base, EMPTY, q.helloX, q.stepsP.greeted);
  }

  lemma RunProbesP(q: Script, u: Setup, base: World) returns (w: World)
    requires SendersFit(q) && GotTo(q, u, 9, base) && Reaches(u.deps, q.stepsP.greeted, q.summaryX, q.stepsP.probed)
    ensures GotTo(q, u, 10, w)
  {
    w := RunOpensP(q, u, 9, base, q.stepsP.greeted, q.summaryX, q.stepsP.probed);
  }

  lemma RunX(q: Script, u: Setup) returns (w: World)
    requires SendersFit(q) && Opens(u.deps, q.helloP, q.summaryP, q.session, q.stepsX)
    ensures GotTo(q, u, 8, w)
  {
    w := RunSends(q, u, 5);
    w := RunGreetsX(q, u, w);
    w := RunProbesX(q, u, w);
    w := RunEntersX(q, u, w);
  }

  lemma RunP(q: Script, u: Setup, base: World) returns (w: World)
    requires SendersFit(q) && Opens(u.deps, q.helloX, q.summaryX, q.session, q.stepsP) && GotTo(q, u, 8, base)
    ensures GotTo(q, u, 11, w)
  {
    w := RunGreetsP(q, u, base);
    w := RunProbesP(q, u, w);
    w := RunEntersP(q, u, w);
  }

  lemma RunEntry(q: Script, u: Setup, base: World) returns (w: World)
    requires SendersFit(q) && EntryFits(q, u) && GotTo(q, u, 11, base)
    ensures GotTo(q, u, 12, w)
  {
    w := Next(u, base, Acts(q)[11]);
    Announces(q, u, base, w);
    GoesOn(q, u, 11, base, w);
  }

  lemma RunEnds(q: Script, u: Setup, base: World) returns (w: World)
    requires SendersFit(q) && GotTo(q, u, 12, base)
    requires Reaches(u.deps, q.stepsX.entered, q.entryP, q.friendX)
    ensures GotTo(q, u, 13, w)
  {
    w := Next(u, base, Acts(q)[12]);
    EntryArrives(q, u, base, w);
    GoesOn(q, u, 12, base, w);
  }

  // ------------------------------------------------------------- what it shows

  /** Two honest actors and the cores of what each sends to the other in one session. */
  predicate InSession(x: Text, p: Text, toX: Core, toP: Core) {
    && x != p && x != [] && p != [] && FieldsPresent(toX) && FieldsPresent(toP)
    && toX.fromActor == p && toX.toActor == x && toP.fromActor == x && toP.toActor == p
    && toX.sessionId == toP.sessionId
  }

  /** Both open the session with a greeting and a summary; `p` also asks a question. */
  function ScriptOf(x: Text, p: Text, toX: Core, toP: Core, d: Deps): Script {
    Script(x, p, toX.sessionId,
           From(toX, Hello, p), From(toX, Question, p), From(toX, Summary, p), From(toX, HumanEntry, p),
           From(toP, Hello, x), From(toP, Summary, x),
           StepsOf(d, toX, p), Stage(d, toX, p, 4), StepsOf(d, toP, x))
  }

  function StepsOf(d: Deps, core: Core, p: Text): Steps {
    Steps(Stage(d, core, p, 1), Stage(d, core, p, 2), Stage(d, core, p, 3))
  }

  lemma StageReaches(se: Text, ha: Text, core: Core, p: Text)
    requires FieldsPresent(core) && p != []
    ensures var d := Bound(se, ha);
            && Opens(d, From(core, Hello, p), From(core, Summary, p), core.sessionId, StepsOf(d, core, p))
            && Reaches(d, Stage(d, core, p, 3), From(core, HumanEntry, p), Stage(d, core, p, 4))
  {
    StageOpened(se, ha, core, p);
    StageProbed(se, ha, core, p);
    StageFriend(se, ha, core, p);
  }

  /** Without the question, the four other probe messages. */
  lemma {:induction false} AllProbes(s: Text, es: seq<Envelope>)
    requires forall e :: e in es ==> IsProbe(s, e)
    ensures |ProbeCores(s, es)| == |es|
  {
    if es != [] { AllProbes(s, es[1..]); }
  }

  lemma ProbeKind(core: Core, kind: Kind, p: Text)
    requires kind in {Hello, Question, Summary}
    ensures IsProbe(core.sessionId, Kept(From(core, kind, p)))
  {
    var name := KindName(kind);
    assert name[..|PROBE_PREFIX|] == PROBE_PREFIX;
  }

  lemma TranscriptsDiffer(q: Script, s: Text)
    requires IsProbe(s, Kept(q.helloP)) && IsProbe(s, Kept(q.questionP)) && IsProbe(s, Kept(q.summaryP))
    requires IsProbe(s, Kept(q.helloX)) && IsProbe(s, Kept(q.summaryX))
    ensures Ordered(s, HeldP(q)[..5]) != Ordered(s, HeldX(q)[..4])
  {
    AllProbes(s, HeldP(q)[..5]);
    AllProbes(s, HeldX(q)[..4]);
    SortLength(ProbeCores(s, HeldP(q)[..5]));
    SortLength(ProbeCores(s, HeldX(q)[..4]));
  }

  /** The world in which the entry arrives: its hash is not the one computed here. */
  lemma HashesDiffer(q: Script, u: Setup, w: World)
    requires Injective(u.hash) && q.entryP.core.sessionId == q.session
    requires IsProbe(q.session, Kept(q.helloP)) && IsProbe(q.session, Kept(q.questionP))
    requires IsProbe(q.session, Kept(q.summaryP)) && IsProbe(q.session, Kept(q.helloX))
    requires IsProbe(q.session, Kept(q.summaryX)) && HeldBy(w, q.x) == HeldX(q)[..4]
    requires u.deps.decrypt(q.entryP) == Some(EntryBody(q.session, HashP(q, u)))
    ensures !HashMatches(u, w, Deliver(q.x, q.entryP, FAIR))
  {
    TranscriptsDiffer(q, q.session);
    HashSeparates(u.hash, u.length, q.session, HeldP(q)[..5], q.session, HeldX(q)[..4]);
  }

  /** The script as a whole: the run is legal; its last act delivers an honest entry that is
      accepted though it carries another hash. */
  lemma ScriptRuns(q: Script, u: Setup) returns (w: World, after: World)
    requires SendersFit(q) && EntryFits(q, u)
    requires Opens(u.deps, q.helloP, q.summaryP, q.session, q.stepsX)
    requires Opens(u.deps, q.helloX, q.summaryX, q.session, q.stepsP)
    requires Reaches(u.deps, q.stepsX.entered, q.entryP, q.friendX)
    ensures GotTo(q, u, 12, w) && GotTo(q, u, 13, after)
  {
    w := RunX(q, u);
    w := RunP(q, u, w);
    w := RunEntry(q, u, w);
    after := RunEnds(q, u, w);
  }

  /** The five probe messages that `p` holds as it announces its entry. */
  function Held(x: Text, p: Text, toX: Core, toP: Core): seq<Envelope> {
    [Kept(From(toX, Hello, p)), Kept(From(toX, Question, p)), Kept(From(toX, Summary, p)),
     Kept(From(toP, Hello, x)), Kept(From(toP, Summary, x))]
  }

  /** Messages verify, and an entry decrypts to one bound to those five. */
  function SetupOf(x: Text, p: Text, toX: Core, toP: Core, hash: Hash, length: Length): Setup {
    Setup(Bound(toX.sessionId, TranscriptHash(hash, length, toX.sessionId, Held(x, p, toX, toP))), hash, length)
  }

  lemma ScriptSenders(x: Text, p: Text, toX: Core, toP: Core, d: Deps, q: Script)
    requires InSession(x, p, toX, toP) && q == ScriptOf(x, p, toX, toP, d)
    ensures SendersFit(q)
  {
  }

  lemma EntryIsFit(x: Text, p: Text, toX: Core, toP: Core, u: Setup, ha: Text, q: Script)
    requires InSession(x, p, toX, toP) && u.deps == Bound(toX.sessionId, ha) && q == ScriptOf(x, p, toX, toP, u.deps)
    requires ha == TranscriptHash(u.hash, u.length, toX.sessionId, HeldP(q)[..5])
    ensures EntryFits(q, u)
  {
    StageEntered(toX.sessionId, ha, toP, x);
  }

  lemma ScriptProbes(x: Text, p: Text, toX: Core, toP: Core, q: Script, d: Deps)
    requires InSession(x, p, toX, toP) && q == ScriptOf(x, p, toX, toP, d)
    ensures IsProbe(q.session, Kept(q.helloP)) && IsProbe(q.session, Kept(q.questionP))
    ensures IsProbe(q.session, Kept(q.summaryP)) && IsProbe(q.session, Kept(q.helloX))
    ensures IsProbe(q.session, Kept(q.summaryX)) && HeldP(q)[..5] == Held(x, p, toX, toP)
  {
    ProbeKind(toX, Hello, p);
    ProbeKind(toX, Question, p);
    ProbeKind(toX, Summary, p);
    ProbeKind(toP, Hello, x);
    ProbeKind(toP, Summary, x);
  }

  /** What the last act of a script delivers is an honest entry over other probe messages. */
  lemma LastDisagrees(q: Script, u: Setup, w: World)
    requires Injective(u.hash) && GotTo(q, u, 12, w) && !HashMatches(u, w, Acts(q)[12])
    requires Legal(u, w, Acts(q)[12]) && SendersFit(q)
    requires q.x in w.nodes && q.p in w.nodes && Accepted(u.deps, w.nodes[q.x], Inbound(q.entryP, FAIR))
    ensures HonestEntry(u, w, Acts(q)[12]) && !Agrees(w, Acts(q)[12])
  {
    MatchIsAgreement(u, {q.x, q.p}, Acts(q)[..12], Acts(q)[12], w);
  }

  lemma LastIsLegal(q: Script, u: Setup, w: World, after: World)
    requires GotTo(q, u, 12, w) && GotTo(q, u, 13, after) && q.x != q.p
    ensures LegalRun(u, {q.x, q.p}, Acts(q)) && Legal(u, w, Acts(q)[12]) && after == Consent.Run(u, {q.x, q.p}, Acts(q))
    ensures q.x in w.nodes && q.p in w.nodes && w.nodes[q.x] == q.stepsX.entered
    ensures q.x in after.nodes && after.nodes[q.x] == q.friendX
    ensures HeldBy(w, q.x) == HeldX(q)[..4]
  {
    assert Acts(q)[..13] == Acts(q);
    LegalPrefix(u, {q.x, q.p}, Acts(q), 12);
  }

  /** Whatever the parties and the session: the run is legal, both nodes are honest, the entry of
      `p` is announced with the hash of what `p` holds, and `x`, which holds other probe messages
      and computes another hash, accepts it and records the friendship. */
  lemma LostProbeBefriends(x: Text, p: Text, toX: Core, toP: Core, u: Setup, acts: seq<Act>, w: World)
    requires InSession(x, p, toX, toP) && Injective(u.hash) && u == SetupOf(x, p, toX, toP, u.hash, u.length)
    requires acts == Acts(ScriptOf(x, p, toX, toP, u.deps)) && w == Consent.Run(u, {x, p}, acts[..12])
    ensures LegalRun(u, {x, p}, acts)
    ensures HonestEntry(u, w, acts[12]) && !HashMatches(u, w, acts[12]) && !Agrees(w, acts[12])
    ensures var after := Consent.Run(u, {x, p}, acts);
            x in after.nodes && after.nodes[x].friends == [Friend(p, toX.sessionId, 0)]
  {
    var q := ScriptOf(x, p, toX, toP, u.deps);
    var ha := TranscriptHash(u.hash, u.length, toX.sessionId, Held(x, p, toX, toP));
    ScriptProbes(x, p, toX, toP, q, u.deps);
    ScriptSenders(x, p, toX, toP, u.deps, q);
    StageReaches(toX.sessionId, ha, toX, p);
    StageReaches(toX.sessionId, ha, toP, x);
    EntryIsFit(x, p, toX, toP, u, ha, q);
    StageFriend(toX.sessionId, ha, toX, p);
    ScriptShows(q, u, w);
  }

  lemma ScriptShows(q: Script, u: Setup, w: World)
    requires Injective(u.hash) && SendersFit(q) && EntryFits(q, u)
    requires Opens(u.deps, q.helloP, q.summaryP, q.session, q.stepsX)
    requires Opens(u.deps, q.helloX, q.summaryX, q.session, q.stepsP)
    requires Reaches(u.deps, q.stepsX.entered, q.entryP, q.friendX)
    requires IsProbe(q.session, Kept(q.helloP)) && IsProbe(q.session, Kept(q.questionP))
    requires IsProbe(q.session, Kept(q.summaryP)) && IsProbe(q.session, Kept(q.helloX))
    requires IsProbe(q.session, Kept(q.summaryX)) && w == Consent.Run(u, {q.x, q.p}, Acts(q)[..12])
    ensures LegalRun(u, {q.x, q.p}, Acts(q))
    ensures HonestEntry(u, w, Acts(q)[12]) && !HashMatches(u, w, Acts(q)[12]) && !Agrees(w, Acts(q)[12])
    ensures var after := Consent.Run(u, {q.x, q.p}, Acts(q)); q.x in after.nodes && after.nodes[q.x] == q.friendX
  {
    var before, after := ScriptRuns(q, u);
    LastIsLegal(q, u, before, after);
    HashesDiffer(q, u, before);
    LastDisagrees(q, u, before);
  }
}
