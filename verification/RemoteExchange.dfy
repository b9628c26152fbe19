/** Two machines over a network that loses, repeats and reorders: what the caller knows when
    its wait for results ends. */
module RemoteExchange {
  import opened Json
  import opened JsValue
  import opened RemoteInvocation
  import opened Wrappers

  datatype Expected = Expected(id: Text, name: Text)

  /** The caller's two insertion-ordered maps, the second without its constant values. */
  datatype Caller = Caller(expected: seq<Expected>, received: seq<Text>)

  datatype Verdict = Done | TimedOut(missing: seq<Expected>)

  /** A collation of test names. */
  type Collation = (Text, Text) -> bool

  // ------------------------------------------------------------------ the caller

  function Expect(es: seq<Expected>, id: Text, name: Text): seq<Expected> {
    if es == [] then [Expected(id, name)]
    else if es[0].id == id then [Expected(id, name)] + es[1..]
    else [es[0]] + Expect(es[1..], id, name)
  }

  /** Setting a key of a map whose values do not matter. */
  function Mark(received: seq<Text>, id: Text): seq<Text> { if id in received then received else received + [id] }

  function Receive(c: Caller, p: Json): Caller {
    match Accept(p)
    case None => c
    case Some(r) => c.(received := Mark(c.received, r.invocationId))
  }

  function ReceiveAll(c: Caller, ps: seq<Json>): Caller {
    if ps == [] then c else Receive(ReceiveAll(c, ps[..|ps| - 1]), ps[|ps| - 1])
  }

  function ReceiveBatches(c: Caller, batches: seq<seq<Json>>): Caller {
    if batches == [] then c
    else ReceiveAll(ReceiveBatches(c, batches[..|batches| - 1]), batches[|batches| - 1])
  }

  /** The size test of the wait loop. */
  predicate Enough(c: Caller) { |c.received| >= |c.expected| }

  function Unreceived(es: seq<Expected>, received: seq<Text>): (r: seq<Expected>)
    ensures forall e :: e in r <==> e in es && e.id !in received
  {
    if es == [] then []
    else
      assert es == es[..|es| - 1] + [es[|es| - 1]];
      Unreceived(es[..|es| - 1], received) + (if es[|es| - 1].id in received then [] else [es[|es| - 1]])
  }

  function InsertByName(le: Collation, e: Expected, es: seq<Expected>): (r: seq<Expected>)
    ensures multiset(r) == multiset{e} + multiset(es)
  {
    if es == [] then [e]
    else if le(e.name, es[0].name) then [e] + es
    else
      assert es == [es[0]] + es[1..];
      [es[0]] + InsertByName(le, e, es[1..])
  }

  function SortByName(le: Collation, es: seq<Expected>): (r: seq<Expected>)
    ensures multiset(r) == multiset(es)
  {
    if es == [] then []
    else
      assert es == [es[0]] + es[1..];
      InsertByName(le, es[0], SortByName(le, es[1..]))
  }

  ghost predicate DistinctIds(es: seq<Expected>) {
    forall i, j :: 0 <= i < j < |es| ==> es[i].id != es[j].id
  }

  ghost predicate DistinctTexts(ts: seq<Text>) { forall i, j :: 0 <= i < j < |ts| ==> ts[i] != ts[j] }

  lemma {:induction false} ExpectIds(es: seq<Expected>, id: Text, name: Text)
    requires DistinctIds(es)
    ensures DistinctIds(Expect(es, id, name))
    ensures forall e :: e in Expect(es, id, name) <==> e == Expected(id, name) || (e in es && e.id != id)
  {
    if es != [] {
      assert es == [es[0]] + es[1..];
      if es[0].id != id { ExpectIds(es[1..], id, name); }
    }
  }

  lemma {:induction false} ExpectPlaces(es: seq<Expected>, id: Text, name: Text)
    ensures |es| <= |Expect(es, id, name)| <= |es| + 1
    ensures forall i :: 0 <= i < |es| ==> Expect(es, id, name)[i].id == es[i].id
  {
    if es != [] && es[0].id != id { ExpectPlaces(es[1..], id, name); }
  }

  /** A wait over the batches that arrive during its sleeps: it ends at the first test that
      passes, or with the list of what is still missing after the last sleep. */
  ghost predicate Waited(le: Collation, before: Caller, batches: seq<seq<Json>>, after: Caller, v: Verdict) {
    match v
    case Done =>
      exists k :: 0 <= k < |batches| && after == ReceiveBatches(before, batches[..k]) && Enough(after)
        && forall j :: 0 <= j < k ==> !Enough(ReceiveBatches(before, batches[..j]))
    case TimedOut(missing) =>
      && after == ReceiveBatches(before, batches)
      && (forall k :: 0 <= k < |batches| ==> !Enough(ReceiveBatches(before, batches[..k])))
      && missing == SortByName(le, Unreceived(after.expected, after.received))
  }

  class MachineA {
    const le: Collation
    var expected: seq<Expected>
    var received: seq<Text>

    ghost function Snapshot(): Caller
      reads this
    {
      Caller(expected, received)
    }

    /** Both maps have one entry per key. */
    ghost predicate Valid()
      reads this
    {
      DistinctIds(expected) && DistinctTexts(received)
    }

    constructor (le: Collation)
      ensures Valid() && this.le == le && Snapshot() == Caller([], [])
    {
      this.le, expected, received := le, [], [];
    }

    /** The id is expected under the new name from now on: in its old place if it was expected
        before, last if not. Everything else is expected as before, and no id twice. */
    method ExpectResult(id: Text, name: Text)
      requires Valid()
      modifies this`expected
      ensures Valid() && expected == Expect(old(expected), id, name)
      ensures forall e :: e in expected <==> e == Expected(id, name) || (e in old(expected) && e.id != id)
      ensures |old(expected)| <= |expected| <= |old(expected)| + 1
      ensures forall i :: 0 <= i < |old(expected)| ==> expected[i].id == old(expected)[i].id
    {
      ExpectIds(expected, id, name);
      ExpectPlaces(expected, id, name);
      expected := Expect(expected, id, name);
    }

    method OnInbound(p: Json)
      requires Valid()
      modifies this`received
      ensures Valid() && Snapshot() == Receive(old(Snapshot()), p)
    {
      var r := Accept(p);
      if r.Some? && r.value.invocationId !in received {
        received := received + [r.value.invocationId];
      }
    }

    method OnInboundAll(ps: seq<Json>)
      requires Valid()
      modifies this`received
      ensures Valid() && Snapshot() == ReceiveAll(old(Snapshot()), ps)
    {
      var i := 0;
      while i < |ps|
        invariant 0 <= i <= |ps| && Valid()
        invariant Snapshot() == ReceiveAll(old(Snapshot()), ps[..i])
      {
        OnInbound(ps[i]);
        assert ps[..i + 1][..i] == ps[..i];
        i := i + 1;
      }
      assert ps[..i] == ps;
    }

    /** The polling loop: a test, then a sleep in which a batch of results may arrive. */
    method WaitForAll(batches: seq<seq<Json>>) returns (verdict: Verdict)
      requires Valid()
      modifies this`received
      ensures Valid() && Waited(le, old(Snapshot()), batches, Snapshot(), verdict)
    {
      var i := 0;
      while i < |batches|
        invariant 0 <= i <= |batches| && Valid()
        invariant Snapshot() == ReceiveBatches(old(Snapshot()), batches[..i])
        invariant forall k :: 0 <= k < i ==> !Enough(ReceiveBatches(old(Snapshot()), batches[..k]))
      {
        if |received| >= |expected| {
          return Done;
        }
        OnInboundAll(batches[i]);
        assert batches[..i + 1][..i] == batches[..i];
        i := i + 1;
      }
      assert batches[..i] == batches;
      var missing := ListUnreceived();
      verdict := TimedOut(SortByName(le, missing));
    }

    method ListUnreceived() returns (missing: seq<Expected>)
      ensures missing == Unreceived(expected, received)
    {
      missing := [];
      var i := 0;
      while i < |expected|
        invariant 0 <= i <= |expected|
        invariant missing == Unreceived(expected[..i], received)
      {
        assert expected[..i + 1][..i] == expected[..i];
        if expected[i].id !in received {
          missing := missing + [expected[i]];
        }
        i := i + 1;
      }
      assert expected[..i] == expected;
    }
  }

  // ----------------------------------------------------------- counting by size

  ghost predicate Expects(c: Caller, id: Text) { exists e :: e in c.expected && e.id == id }

  ghost predicate AllReceived(c: Caller) { forall e :: e in c.expected ==> e.id in c.received }

  /** Both maps have one entry per key, and nothing foreign was received. */
  ghost predicate Sane(c: Caller) {
    DistinctIds(c.expected) && DistinctTexts(c.received) && forall id :: id in c.received ==> Expects(c, id)
  }

  /** The size test is exact when nothing foreign was received: by induction on what is
      expected, taking one expected result out of both maps. */
  lemma {:induction false} SizeTestExact(c: Caller)
    requires Sane(c)
    ensures Enough(c) <==> AllReceived(c)
    ensures |c.received| <= |c.expected|
    decreases |c.expected|
  {
    if c.expected == [] {
      if c.received != [] {
        HasFirst(c.received);
        assert false;
      }
    } else {
      var e, rest := c.expected[0], c.expected[1..];
      assert c.expected == [e] + rest;
      if e.id in c.received {
        var i :| 0 <= i < |c.received| && c.received[i] == e.id;
        var smaller := Caller(rest, c.received[..i] + c.received[i + 1..]);
        OneLess(c, i, smaller);
        SizeTestExact(smaller);
        assert AllReceived(smaller) <==> AllReceived(c);
      } else {
        var smaller := Caller(rest, c.received);
        forall id | id in c.received ensures Expects(smaller, id) {
          var x :| x in c.expected && x.id == id;
        }
        SizeTestExact(smaller);
      }
    }
  }

  lemma HasFirst<T>(ts: seq<T>)
    requires ts != []
    ensures exists t :: t in ts
  {
    assert ts[0] in ts;
  }

  lemma OneLess(c: Caller, i: nat, smaller: Caller)
    requires Sane(c) && c.expected != [] && i < |c.received| && c.received[i] == c.expected[0].id
    requires smaller == Caller(c.expected[1..], c.received[..i] + c.received[i + 1..])
    ensures Sane(smaller)
    ensures forall id :: id in smaller.received <==> id in c.received && id != c.expected[0].id
    ensures forall e :: e in smaller.expected ==> e.id != c.expected[0].id
  {
    forall id | id in smaller.received ensures id in c.received && id != c.expected[0].id {}
    forall id | id in c.received && id != c.expected[0].id ensures id in smaller.received {
      var j :| 0 <= j < |c.received| && c.received[j] == id;
      assert smaller.received[if j < i then j else j - 1] == id;
    }
    forall id | id in smaller.received ensures Expects(smaller, id) {
      var x :| x in c.expected && x.id == id;
      assert x in smaller.expected;
    }
  }

  /** With a foreign result the test can pass while an expected one is missing. */
  lemma ForeignResultPasses(id: Text, other: Text, name: Text)
    requires id != other
    ensures var c := Caller([Expected(id, name)], [other]); Enough(c) && !AllReceived(c)
  {
    assert Expected(id, name) in [Expected(id, name)];
  }

  // -------------------------------------------------------------- the closed system

  /** Every text ever sent to either machine; any of it may arrive any number of times. */
  datatype World = World(caller: Caller, toB: seq<Text>, toA: seq<Text>, log: seq<InvocationResult>)

  datatype Step =
    | Issue(name: Text, payload: Value, sent: bool)
    | AtB(index: nat)
    | AtA(index: nat)

  datatype Peer = Peer(registry: Registry, record: FriendshipRecord)

  function IdOf(p: Json): Json { Field(Field(p, REQUEST), INVOCATION_ID) }

  /** The caller makes proper requests, under any kind, and expects each before sending it;
      a step that is not legal does nothing. */
  predicate Legal(w: World, s: Step) {
    match s
    case Issue(_, p, _) => HasRequest(p)
    case AtB(i) => i < |w.toB|
    case AtA(i) => i < |w.toA|
  }

  function Next(b: Peer, w: World, s: Step): World {
    if !Legal(w, s) then w else
    match s
    case Issue(name, p, sent) =>
      w.(caller := w.caller.(expected := Expect(w.caller.expected, IdOf(p).s, name)),
         toB := w.toB + (if sent then [Print(p)] else []))
    case AtB(i) =>
      var a := Answer(b.registry, b.record, Read(w.toB[i]));
      w.(toA := w.toA + (if a.Some? then [Wire(a.value)] else []))
    case AtA(i) =>
      var p := Read(w.toA[i]);
      var r := Accept(p);
      w.(caller := Receive(w.caller, p), log := w.log + (if r.Some? then [r.value] else []))
  }

  const START := World(Caller([], []), [], [], [])

  function Run(b: Peer, steps: seq<Step>): World {
    if steps == [] then START else Next(b, Run(b, steps[..|steps| - 1]), steps[|steps| - 1])
  }

  /** The caller printed this text from a request, and expects its result. */
  ghost predicate Requested(c: Caller, t: Text) {
    exists q: Value :: t == Print(q) && HasRequest(q) && Expects(c, IdOf(q).s)
  }

  /** The result is, as it arrives, the answer to a text that was sent. */
  ghost predicate Answers(b: Peer, toB: seq<Text>, r: InvocationResult) {
    exists t :: t in toB && AnswerTo(b, t, r)
  }

  ghost predicate AnswerTo(b: Peer, t: Text, r: InvocationResult) {
    var a := Answer(b.registry, b.record, Read(t));
    a.Some? && r == Arrived(a.value)
  }

  /** What the caller reads off a text. */
  function Arrival(t: Text): Option<InvocationResult> { Accept(Read(t)) }

  ghost predicate RequestsOk(c: Caller, toB: seq<Text>) { forall t :: t in toB ==> Requested(c, t) }

  ghost predicate ArrivalsOk(b: Peer, toB: seq<Text>, toA: seq<Text>) {
    forall t :: t in toA ==> Arrival(t).Some? && Answers(b, toB, Arrival(t).value)
  }

  ghost predicate LogOk(b: Peer, toB: seq<Text>, log: seq<InvocationResult>) {
    forall r :: r in log ==> Answers(b, toB, r)
  }

  ghost predicate ReceivedOk(received: seq<Text>, log: seq<InvocationResult>) {
    forall id :: id in received <==> exists r :: r in log && r.invocationId == id
  }

  ghost predicate Inv(b: Peer, w: World) {
    && Sane(w.caller) && RequestsOk(w.caller, w.toB) && ArrivalsOk(b, w.toB, w.toA)
    && LogOk(b, w.toB, w.log) && ReceivedOk(w.caller.received, w.log)
  }

  lemma ExpectKeeps(c: Caller, id: Text, name: Text, x: Text)
    requires DistinctIds(c.expected)
    ensures Expects(c.(expected := Expect(c.expected, id, name)), x) <==> x == id || Expects(c, x)
  {
    ExpectIds(c.expected, id, name);
    var after := Expect(c.expected, id, name);
    assert Expected(id, name) in after;
    if Expects(c, x) && x != id {
      var e :| e in c.expected && e.id == x;
      assert e in after;
    }
  }

  lemma MoreRequests(b: Peer, toB: seq<Text>, more: seq<Text>, toA: seq<Text>, log: seq<InvocationResult>)
    requires ArrivalsOk(b, toB, toA) && LogOk(b, toB, log)
    ensures ArrivalsOk(b, toB + more, toA) && LogOk(b, toB + more, log)
  {
    forall r | Answers(b, toB, r) ensures Answers(b, toB + more, r) {
      var t :| t in toB && AnswerTo(b, t, r);
      assert t in toB + more;
    }
  }

  lemma RequestsKept(c: Caller, later: Caller, toB: seq<Text>)
    requires RequestsOk(c, toB) && forall x :: Expects(c, x) ==> Expects(later, x)
    ensures RequestsOk(later, toB)
  {
    forall t | t in toB ensures Requested(later, t) {
      assert Requested(c, t);
      var q: Value :| t == Print(q) && HasRequest(q) && Expects(c, IdOf(q).s);
      assert Expects(later, IdOf(q).s);
    }
  }

  lemma IssueInv(b: Peer, w: World, s: Step)
    requires Inv(b, w) && Legal(w, s) && s.Issue?
    ensures Inv(b, Next(b, w, s))
  {
    var after, id := Next(b, w, s), IdOf(s.payload).s;
    ExpectIds(w.caller.expected, id, s.name);
    forall x ensures Expects(after.caller, x) <==> x == id || Expects(w.caller, x) {
      ExpectKeeps(w.caller, id, s.name, x);
    }
    MoreRequests(b, w.toB, if s.sent then [Print(s.payload)] else [], w.toA, w.log);
    RequestsKept(w.caller, after.caller, w.toB);
    assert Requested(after.caller, Print(s.payload));
  }

  lemma AtBInv(b: Peer, w: World, i: nat)
    requires Inv(b, w) && i < |w.toB|
    ensures Inv(b, Next(b, w, AtB(i)))
  {
    var t := w.toB[i];
    var a := Answer(b.registry, b.record, Read(t));
    if a.Some? {
      WireRoundTrip(b.registry, b.record, Read(t));
      MoreArrivals(b, w.toB, w.toA, t, Wire(a.value), Arrived(a.value));
    }
  }

  lemma MoreArrivals(b: Peer, toB: seq<Text>, toA: seq<Text>, t: Text, u: Text, r: InvocationResult)
    requires ArrivalsOk(b, toB, toA) && t in toB && AnswerTo(b, t, r) && Arrival(u) == Some(r)
    ensures ArrivalsOk(b, toB, toA + [u])
  {
    assert Answers(b, toB, r);
  }

  /** A request is read with its id, whatever becomes of the numbers in it. */
  lemma NulledRequest(q: Json, p: Json)
    requires HasRequest(q) && p == Nulled(q)
    ensures HasRequest(p) && IdOf(p) == IdOf(q)
  {
    FieldNulled(q, REQUEST);
    FieldNulled(Field(q, REQUEST), INVOCATION_ID);
  }

  /** The executor's answer to a text that was sent is expected. */
  lemma AnswerExpected(b: Peer, c: Caller, t: Text, r: InvocationResult)
    requires Requested(c, t) && AnswerTo(b, t, r)
    ensures exists q: Value ::
              t == Print(q) && HasRequest(q) && Read(t) == Nulled(q) && IdOf(q) == String(r.invocationId)
    ensures Expects(c, r.invocationId)
  {
    var q: Value :| t == Print(q) && HasRequest(q) && Expects(c, IdOf(q).s);
    ReadSent(q);
    NulledRequest(q, Read(t));
    AnswerFacts(b.registry, b.record, Read(t));
  }

  lemma ArrivalExpected(b: Peer, w: World, t: Text)
    requires Inv(b, w) && t in w.toA
    ensures Arrival(t).Some? && Answers(b, w.toB, Arrival(t).value) && Expects(w.caller, Arrival(t).value.invocationId)
  {
    var r := Arrival(t).value;
    var u :| u in w.toB && AnswerTo(b, u, r);
    AnswerExpected(b, w.caller, u, r);
  }

  lemma AtANext(b: Peer, w: World, i: nat, r: InvocationResult)
    requires i < |w.toA| && Arrival(w.toA[i]) == Some(r)
    ensures Next(b, w, AtA(i)) ==
            w.(caller := w.caller.(received := Mark(w.caller.received, r.invocationId)), log := w.log + [r])
  {
  }

  lemma AtAInv(b: Peer, w: World, i: nat, after: World)
    requires Inv(b, w) && i < |w.toA| && after == Next(b, w, AtA(i))
    ensures Inv(b, after)
  {
    ArrivalExpected(b, w, w.toA[i]);
    var r := Arrival(w.toA[i]).value;
    AtANext(b, w, i, r);
    MarkSane(w.caller, after.caller, r.invocationId);
    RequestsKept(w.caller, after.caller, w.toB);
    LogCovers(w.caller.received, w.log, r);
    LogPush(b, w.toB, w.log, r);
  }

  lemma MarkSane(c: Caller, after: Caller, id: Text)
    requires Sane(c) && Expects(c, id) && after == c.(received := Mark(c.received, id))
    ensures Sane(after) && forall x :: Expects(after, x) <==> Expects(c, x)
  {
    forall x ensures Expects(after, x) <==> Expects(c, x) {}
  }

  lemma LogPush(b: Peer, toB: seq<Text>, log: seq<InvocationResult>, r: InvocationResult)
    requires LogOk(b, toB, log) && Answers(b, toB, r)
    ensures LogOk(b, toB, log + [r])
  {
  }

  lemma LogCovers(received: seq<Text>, log: seq<InvocationResult>, r: InvocationResult)
    requires ReceivedOk(received, log)
    ensures ReceivedOk(Mark(received, r.invocationId), log + [r])
  {
    var after := log + [r];
    assert r in after;
    forall id ensures id in Mark(received, r.invocationId) <==> exists x :: x in after && x.invocationId == id {
      if id in received {
        var x :| x in log && x.invocationId == id;
        assert x in after;
      }
    }
  }

  lemma {:induction false} RunInv(b: Peer, steps: seq<Step>)
    ensures Inv(b, Run(b, steps))
  {
    if steps != [] {
      var w, s := Run(b, steps[..|steps| - 1]), steps[|steps| - 1];
      RunInv(b, steps[..|steps| - 1]);
      if Legal(w, s) { StepInv(b, w, s); }
    }
  }

  lemma StepInv(b: Peer, w: World, s: Step)
    requires Inv(b, w) && Legal(w, s)
    ensures Inv(b, Next(b, w, s))
  {
    match s
    case Issue(_, _, _) => IssueInv(b, w, s);
    case AtB(i) => AtBInv(b, w, i);
    case AtA(i) => AtAInv(b, w, i, Next(b, w, s));
  }

  // -------------------------------------------------------------------- theorems

  /** Completeness of the size test: in every run of the closed system, however much is lost,
      repeated or reordered, the caller's count says enough exactly when a result has arrived
      for every request it expects one for. */
  lemma CountIsCompleteness(b: Peer, steps: seq<Step>)
    ensures Enough(Run(b, steps).caller) <==> AllReceived(Run(b, steps).caller)
  {
    RunInv(b, steps);
    SizeTestExact(Run(b, steps).caller);
  }

  /** What a logged result says of a request, which the executor reads with null for its numbers
      that are not finite. Under the id of the request it is the text of the first check that
      failed, or the result that its handler gave at the executor under the agreed friendship:
      that result exactly when its numbers are finite, and otherwise with null in their place. */
  ghost predicate Reports(b: Peer, q: Json, r: InvocationResult) {
    && HasRequest(q) && IdOf(q) == String(r.invocationId)
    && match r.outcome
       case Failure(code) => Refuses(b.registry, b.record, Nulled(q), code)
       case Success(seen) =>
         exists local :: Grants(b.registry, b.record, Nulled(q), local)
                         && seen == Nulled(local) && (seen == local <==> Finite(local))
  }

  /** Remote is local, over every run: whatever the caller logged reports on a request it sent. */
  lemma ResultsAreLocal(b: Peer, steps: seq<Step>, r: InvocationResult)
    requires r in Run(b, steps).log
    ensures exists q: Value :: Print(q) in Run(b, steps).toB && Reports(b, q, r)
  {
    var w := Run(b, steps);
    RunInv(b, steps);
    var t :| t in w.toB && AnswerTo(b, t, r);
    AnswerExpected(b, w.caller, t, r);
    var q: Value :| t == Print(q) && HasRequest(q) && Read(t) == Nulled(q) && IdOf(q) == String(r.invocationId);
    AnswerReports(b, q, r);
  }

  lemma AnswerReports(b: Peer, q: Value, r: InvocationResult)
    requires HasRequest(q) && Read(Print(q)) == Nulled(q) && IdOf(q) == String(r.invocationId)
    requires AnswerTo(b, Print(q), r)
    ensures Reports(b, q, r)
  {
    AnswerSays(b.registry, b.record, Nulled(q));
    var a := Answer(b.registry, b.record, Nulled(q)).value;
    if a.outcome.Success? {
      NulledExactly(a.outcome.result);
      assert Grants(b.registry, b.record, Nulled(q), a.outcome.result);
    }
  }

  /** A payload from which the caller has nothing foreign to learn. */
  ghost predicate Familiar(c: Caller, p: Json) { Accept(p).Some? ==> Expects(c, Accept(p).value.invocationId) }

  /** In every run, all that was sent to the caller is familiar to it. */
  lemma SentIsFamiliar(b: Peer, steps: seq<Step>, t: Text)
    requires t in Run(b, steps).toA
    ensures Familiar(Run(b, steps).caller, Read(t)) && Sane(Run(b, steps).caller)
  {
    RunInv(b, steps);
    ArrivalExpected(b, Run(b, steps), t);
  }

  // ---------------------------------------------------------------- the wait loop

  ghost predicate FamiliarBatches(c: Caller, batches: seq<seq<Json>>) {
    forall i, p :: 0 <= i < |batches| && p in batches[i] ==> Familiar(c, p)
  }

  lemma ReceiveSane(c: Caller, p: Json, start: Caller)
    requires Sane(c) && c.expected == start.expected && Familiar(start, p)
    ensures Sane(Receive(c, p)) && Receive(c, p).expected == start.expected
    ensures forall id :: id in c.received ==> id in Receive(c, p).received
  {
    forall id | id in Receive(c, p).received ensures Expects(Receive(c, p), id) {
      assert Expects(start, id) || Expects(c, id);
    }
  }

  lemma {:induction false} ReceiveAllSane(c: Caller, ps: seq<Json>)
    requires Sane(c) && forall p :: p in ps ==> Familiar(c, p)
    ensures Sane(ReceiveAll(c, ps)) && ReceiveAll(c, ps).expected == c.expected
    ensures forall id :: id in c.received ==> id in ReceiveAll(c, ps).received
  {
    if ps != [] {
      ReceiveAllSane(c, ps[..|ps| - 1]);
      ReceiveSane(ReceiveAll(c, ps[..|ps| - 1]), ps[|ps| - 1], c);
    }
  }

  /** Whether a payload is familiar depends on what is expected alone. */
  lemma StillFamiliar(c: Caller, later: Caller, ps: seq<Json>)
    requires later.expected == c.expected && forall p :: p in ps ==> Familiar(c, p)
    ensures forall p :: p in ps ==> Familiar(later, p)
  {
    forall id ensures Expects(c, id) <==> Expects(later, id) {}
  }

  lemma {:induction false} ReceiveBatchesSane(c: Caller, batches: seq<seq<Json>>, k: nat)
    requires Sane(c) && FamiliarBatches(c, batches) && k <= |batches|
    ensures Sane(ReceiveBatches(c, batches)) && ReceiveBatches(c, batches).expected == c.expected
    ensures forall id :: id in ReceiveBatches(c, batches[..k]).received ==> id in ReceiveBatches(c, batches).received
    decreases |batches|
  {
    if batches == [] {
    } else if k == |batches| {
      assert batches[..k] == batches;
      ReceiveBatchesSane(c, batches[..|batches| - 1], 0);
      StillFamiliar(c, ReceiveBatches(c, batches[..|batches| - 1]), batches[|batches| - 1]);
      ReceiveAllSane(ReceiveBatches(c, batches[..|batches| - 1]), batches[|batches| - 1]);
    } else {
      var front := batches[..|batches| - 1];
      assert front[..k] == batches[..k];
      ReceiveBatchesSane(c, front, k);
      StillFamiliar(c, ReceiveBatches(c, front), batches[|batches| - 1]);
      ReceiveAllSane(ReceiveBatches(c, front), batches[|batches| - 1]);
    }
  }

  /** The count reached at some test is complete, and stays so until the last sleep. */
  lemma EnoughMeansAll(c: Caller, batches: seq<seq<Json>>, k: nat)
    requires Sane(c) && FamiliarBatches(c, batches) && k <= |batches| && Enough(ReceiveBatches(c, batches[..k]))
    ensures AllReceived(ReceiveBatches(c, batches))
  {
    ReceiveBatchesSane(c, batches, k);
    ReceiveBatchesSane(c, batches[..k], 0);
    SizeTestExact(ReceiveBatches(c, batches[..k]));
  }

  /** The verdict is exact: done if and only if every expected result arrived before the last
      sleep. */
  lemma DoneExact(le: Collation, c: Caller, batches: seq<seq<Json>>, after: Caller, v: Verdict)
    requires Sane(c) && FamiliarBatches(c, batches) && Waited(le, c, batches, after, v)
    ensures v.Done? <==> batches != [] && AllReceived(ReceiveBatches(c, batches[..|batches| - 1]))
  {
    if batches != [] {
      var front := batches[..|batches| - 1];
      ReceiveBatchesSane(c, front, 0);
      SizeTestExact(ReceiveBatches(c, front));
      if v.Done? {
        var k :| 0 <= k < |batches| && Enough(ReceiveBatches(c, batches[..k]));
        assert front[..k] == batches[..k];
        EnoughMeansAll(c, front, k);
      }
    }
  }

  /** On a time-out the missing list holds exactly the results outstanding at the end; it is
      empty exactly when the last of them arrived in the last sleep. */
  lemma MissingExact(le: Collation, c: Caller, batches: seq<seq<Json>>, after: Caller, v: Verdict)
    requires Sane(c) && FamiliarBatches(c, batches) && Waited(le, c, batches, after, v) && v.TimedOut?
    ensures forall e :: e in v.missing <==> e in c.expected && e.id !in ReceiveBatches(c, batches).received
    ensures v.missing == [] <==> AllReceived(ReceiveBatches(c, batches))
  {
    ReceiveBatchesSane(c, batches, 0);
    var last := ReceiveBatches(c, batches);
    forall e ensures e in v.missing <==> e in c.expected && e.id !in last.received {
      assert e in v.missing <==> e in multiset(v.missing);
      assert e in Unreceived(last.expected, last.received) <==> e in multiset(Unreceived(last.expected, last.received));
    }
    if v.missing != [] { HasFirst(v.missing); }
  }

  ghost predicate IsCollation(le: Collation) {
    (forall a, b :: le(a, b) || le(b, a)) && (forall a, b, c :: le(a, b) && le(b, c) ==> le(a, c))
  }

  ghost predicate ByName(le: Collation, es: seq<Expected>) {
    forall i, j :: 0 <= i < j < |es| ==> le(es[i].name, es[j].name)
  }

  lemma {:induction false} InsertKeepsOrder(le: Collation, e: Expected, es: seq<Expected>)
    requires IsCollation(le) && ByName(le, es)
    ensures ByName(le, InsertByName(le, e, es))
  {
    if es != [] && !le(e.name, es[0].name) {
      InsertKeepsOrder(le, e, es[1..]);
      var rest := InsertByName(le, e, es[1..]);
      forall x | x in rest ensures le(es[0].name, x.name) {
        assert x in multiset(rest);
        assert x == e || x in es[1..];
      }
    }
  }

  /** The missing list is in the order of the test names. */
  lemma {:induction false} MissingInOrder(le: Collation, es: seq<Expected>)
    requires IsCollation(le)
    ensures ByName(le, SortByName(le, es))
  {
    if es != [] {
      MissingInOrder(le, es[1..]);
      InsertKeepsOrder(le, es[0], SortByName(le, es[1..]));
    }
  }
}
