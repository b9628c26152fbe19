/** The selective-receive inbox of the dialogue script, and the verified sends built on it. */
module Inbox {
  import opened Json
  import opened Wrappers

  /** A forwarded payload; only dialogue messages have the two keys that are matched. */
  datatype Payload = Dialogue(id: Text, turn: nat, text: Text) | Stray(text: Text)

  datatype Message = Message(from: Text, payload: Payload)

  type Pred = Message -> bool

  // ------------------------------------------------------------- the queue

  /** The place of the first match, or the length when there is none. */
  function FirstMatch(q: seq<Message>, p: Pred): (i: nat)
    ensures i <= |q| && (i < |q| ==> p(q[i])) && forall k :: 0 <= k < i ==> !p(q[k])
  {
    if q == [] then 0
    else if p(q[0]) then 0
    else
      var i := FirstMatch(q[1..], p);
      assert forall k :: 0 < k < i + 1 ==> q[k] == q[1..][k - 1];
      i + 1
  }

  function Spliced(q: seq<Message>, i: nat): seq<Message>
    requires i < |q|
  {
    q[..i] + q[i + 1..]
  }

  /** A wait that polls once before each batch of arrivals: what it returns, what it leaves. */
  function Waited(q: seq<Message>, batches: seq<seq<Message>>, p: Pred): (Option<Message>, seq<Message>)
    decreases |batches|
  {
    if batches == [] then (None, q)
    else
      var i := FirstMatch(q, p);
      if i < |q| then (Some(q[i]), Spliced(q, i)) else Waited(q + batches[0], batches[1..], p)
  }

  /** One list is what is left of another after taking elements out. */
  predicate Subsequence(a: seq<Message>, b: seq<Message>) {
    a == [] || (b != [] && (if a[0] == b[0] then Subsequence(a[1..], b[1..]) else Subsequence(a, b[1..])))
  }

  lemma {:induction false} SubsequenceOfMore(a: seq<Message>, b: seq<Message>, x: Message)
    requires Subsequence(a, b)
    ensures Subsequence(a, [x] + b)
    decreases |b|, 1
  {
    assert ([x] + b)[1..] == b;
    if a != [] && a[0] == x {
      TailOfSubsequence(a, b);
    }
  }

  lemma {:induction false} TailOfSubsequence(a: seq<Message>, b: seq<Message>)
    requires a != [] && Subsequence(a, b)
    ensures Subsequence(a[1..], b)
    decreases |b|, 0
  {
    if a[0] == b[0] {
      SubsequenceOfMore(a[1..], b[1..], b[0]);
      assert b == [b[0]] + b[1..];
    } else {
      TailOfSubsequence(a, b[1..]);
      SubsequenceOfMore(a[1..], b[1..], b[0]);
      assert b == [b[0]] + b[1..];
    }
  }

  lemma {:induction false} SubsequenceSelf(a: seq<Message>)
    ensures Subsequence(a, a)
  {
    if a != [] { SubsequenceSelf(a[1..]); }
  }

  lemma {:induction false} SubsequenceTransitive(a: seq<Message>, b: seq<Message>, c: seq<Message>)
    requires Subsequence(a, b) && Subsequence(b, c)
    ensures Subsequence(a, c)
    decreases |b| + |c|
  {
    if a != [] {
      if b[0] != c[0] {
        SubsequenceTransitive(a, b, c[1..]);
        SubsequenceOfMore(a, c[1..], c[0]);
        assert c == [c[0]] + c[1..];
      } else if a[0] == b[0] {
        SubsequenceTransitive(a[1..], b[1..], c[1..]);
      } else {
        SubsequenceTransitive(a, b[1..], c[1..]);
      }
    }
  }

  lemma {:induction false} SubsequencePush(a: seq<Message>, b: seq<Message>, x: Message)
    requires Subsequence(a, b)
    ensures Subsequence(a + [x], b + [x])
    decreases |b|
  {
    if b == [] {
      assert a + [x] == [x] && b + [x] == [x];
    } else if a == [] {
      SubsequencePush(a, b[1..], x);
      assert (b + [x])[1..] == b[1..] + [x] && a + [x] == [x];
      if b[0] == x {
        assert ([x])[1..] == [];
      }
    } else {
      assert (b + [x])[1..] == b[1..] + [x] && (a + [x])[1..] == a[1..] + [x];
      if a[0] == b[0] { SubsequencePush(a[1..], b[1..], x); } else { SubsequencePush(a, b[1..], x); }
    }
  }

  lemma {:induction false} SplicedSubsequence(q: seq<Message>, i: nat)
    requires i < |q|
    ensures Subsequence(Spliced(q, i), q)
  {
    if i == 0 {
      assert Spliced(q, i) == q[1..];
      SubsequenceSelf(q[1..]);
      SubsequenceOfMore(q[1..], q[1..], q[0]);
      assert q == [q[0]] + q[1..];
    } else {
      SplicedSubsequence(q[1..], i - 1);
      assert Spliced(q, i)[0] == q[0] && Spliced(q, i)[1..] == Spliced(q[1..], i - 1);
    }
  }

  lemma SplicedMultiset(q: seq<Message>, i: nat)
    requires i < |q|
    ensures multiset(q) == multiset(Spliced(q, i)) + multiset{q[i]}
  {
    assert q == q[..i] + [q[i]] + q[i + 1..];
  }

  class MessageBox {
    var q: seq<Message>
    ghost var pushed: seq<Message>
    ghost var taken: seq<Message>

    /** What was taken and what is queued make up what was pushed, and the queue is in the
        order of the pushes. */
    ghost predicate Valid()
      reads this
    {
      multiset(taken) + multiset(q) == multiset(pushed) && Subsequence(q, pushed)
    }

    constructor ()
      ensures Valid() && q == [] && pushed == [] && taken == []
    {
      q, pushed, taken := [], [], [];
    }

    method Push(m: Message)
      requires Valid()
      modifies this
      ensures Valid() && q == old(q) + [m] && pushed == old(pushed) + [m] && taken == old(taken)
    {
      SubsequencePush(q, pushed, m);
      q := q + [m];
      pushed := pushed + [m];
    }

    method PushAll(ms: seq<Message>)
      requires Valid()
      modifies this
      ensures Valid() && q == old(q) + ms && pushed == old(pushed) + ms && taken == old(taken)
    {
      var i := 0;
      while i < |ms|
        invariant 0 <= i <= |ms| && Valid()
        invariant q == old(q) + ms[..i] && pushed == old(pushed) + ms[..i] && taken == old(taken)
      {
        Push(ms[i]);
        assert ms[..i + 1] == ms[..i] + [ms[i]];
        i := i + 1;
      }
      assert ms[..i] == ms;
    }

    method FindIndex(p: Pred) returns (i: nat)
      ensures i == FirstMatch(q, p)
    {
      i := 0;
      while i < |q| && !p(q[i])
        invariant 0 <= i <= |q| && forall k :: 0 <= k < i ==> !p(q[k])
      {
        i := i + 1;
      }
    }

    method TakeAt(i: nat) returns (m: Message)
      requires Valid() && i < |q|
      modifies this
      ensures Valid() && m == old(q)[i] && q == Spliced(old(q), i) && taken == old(taken) + [m] && pushed == old(pushed)
    {
      m := q[i];
      SplicedSubsequence(q, i);
      SubsequenceTransitive(Spliced(q, i), q, pushed);
      SplicedMultiset(q, i);
      q := q[..i] + q[i + 1..];
      taken := taken + [m];
    }

    method WaitFor(p: Pred, batches: seq<seq<Message>>) returns (got: Option<Message>)
      requires Valid()
      modifies this
      ensures Valid()
      ensures (got, q) == Waited(old(q), batches, p)
      ensures taken == old(taken) + (if got.Some? then [got.value] else [])
    {
      var k := 0;
      while k < |batches|
        invariant 0 <= k <= |batches| && Valid() && taken == old(taken)
        invariant Waited(old(q), batches, p) == Waited(q, batches[k..], p)
      {
        var i := FindIndex(p);
        if i < |q| {
          var m := TakeAt(i);
          return Some(m);
        }
        PushAll(batches[k]);
        assert batches[k..][1..] == batches[k + 1..];
        k := k + 1;
      }
      got := None;
    }
  }

  // ------------------------------------------------------------- verified sends

  predicate Confirms(sent: Payload, got: Message) {
    sent.Dialogue? && got.payload.Dialogue? && got.payload.id == sent.id && got.payload.turn == sent.turn
  }

  function Confirming(sent: Payload): Pred { (m: Message) => Confirms(sent, m) }

  /** A send, the side it goes to, and what arrives there while it waits. */
  datatype Send = Send(toA: bool, payload: Payload, batches: seq<seq<Message>>)

  datatype State = State(boxA: seq<Message>, boxB: seq<Message>, received: seq<Payload>)

  /** The state after a send that was confirmed, or none after a time-out. */
  function Verified(s: State, x: Send): Option<State> {
    var (got, q) := Waited(if x.toA then s.boxA else s.boxB, x.batches, Confirming(x.payload));
    if got.None? then None
    else Some(State(if x.toA then q else s.boxA, if x.toA then s.boxB else q, s.received + [got.value.payload]))
  }

  function VerifiedAll(s: State, xs: seq<Send>): Option<State> {
    if xs == [] then Some(s)
    else
      var front := VerifiedAll(s, xs[..|xs| - 1]);
      if front.None? then None else Verified(front.value, xs[|xs| - 1])
  }

  class VerifiedSender {
    const boxA: MessageBox
    const boxB: MessageBox
    var received: seq<Payload>

    ghost predicate Valid()
      reads this, boxA, boxB
    {
      boxA != boxB && boxA.Valid() && boxB.Valid()
    }

    ghost function Snapshot(): State
      reads this, boxA, boxB
    {
      State(boxA.q, boxB.q, received)
    }

    constructor ()
      ensures Valid() && Snapshot() == State([], [], []) && fresh(boxA) && fresh(boxB)
    {
      boxA := new MessageBox();
      boxB := new MessageBox();
      received := [];
    }

    method SendWithVerify(x: Send) returns (ok: bool)
      requires Valid()
      modifies this, boxA, boxB
      ensures Valid() && ok == Verified(old(Snapshot()), x).Some?
      ensures ok ==> Snapshot() == Verified(old(Snapshot()), x).value
      ensures !ok ==> received == old(received)
    {
      var got;
      if x.toA {
        got := boxA.WaitFor(Confirming(x.payload), x.batches);
      } else {
        got := boxB.WaitFor(Confirming(x.payload), x.batches);
      }
      ok := got.Some?;
      if ok {
        received := received + [got.value.payload];
      }
    }
  }

  lemma {:induction false} WaitedMatches(q: seq<Message>, batches: seq<seq<Message>>, p: Pred)
    ensures var (got, rest) := Waited(q, batches, p);
            && (got.Some? ==> p(got.value) && InReach(q, batches, got.value))
            && forall m :: m in rest ==> InReach(q, batches, m)
    decreases |batches|
  {
    if batches != [] {
      var i := FirstMatch(q, p);
      if i < |q| {
        assert q[i] in q;
      } else {
        WaitedMatches(q + batches[0], batches[1..], p);
        forall m | InReach(q + batches[0], batches[1..], m) ensures InReach(q, batches, m) {
          if m !in q + batches[0] {
            var k :| 0 <= k < |batches[1..]| && m in batches[1..][k];
            assert m in batches[k + 1];
          } else if m !in q {
            assert m in batches[0];
          }
        }
      }
    }
  }

  /** Queued already, or among the arrivals. */
  ghost predicate InReach(q: seq<Message>, batches: seq<seq<Message>>, m: Message) {
    m in q || exists k :: 0 <= k < |batches| && m in batches[k]
  }

  /** Every dialogue message around carries what was sent under its keys. */
  ghost predicate Genuine(sent: seq<Payload>, m: Message) {
    forall x :: x in sent && Confirms(x, m) ==> m.payload == x
  }

  ghost predicate BoxesGenuine(sent: seq<Payload>, s: State) {
    forall m :: m in s.boxA || m in s.boxB ==> Genuine(sent, m)
  }

  ghost predicate ArrivalsGenuine(sent: seq<Payload>, x: Send) {
    forall m :: InReach([], x.batches, m) ==> Genuine(sent, m)
  }

  function PayloadsOf(xs: seq<Send>): seq<Payload> { seq(|xs|, i requires 0 <= i < |xs| => xs[i].payload) }

  /** Verified receipt: when all verified sends succeed and the messages around are genuine,
      the received list is extended by exactly the payloads sent, in the order of sending,
      despite stray, early, late or repeated deliveries. */
  lemma {:induction false} ReceivesWhatWasSent(sent: seq<Payload>, s: State, xs: seq<Send>)
    requires BoxesGenuine(sent, s) && forall x :: x in xs ==> x.payload in sent && ArrivalsGenuine(sent, x)
    requires VerifiedAll(s, xs).Some?
    ensures VerifiedAll(s, xs).value.received == s.received + PayloadsOf(xs)
    ensures BoxesGenuine(sent, VerifiedAll(s, xs).value)
  {
    if xs == [] {
      assert s.received + [] == s.received;
    } else {
      var front, x := xs[..|xs| - 1], xs[|xs| - 1];
      forall y | y in front ensures y in xs {}
      ReceivesWhatWasSent(sent, s, front);
      OneVerified(sent, VerifiedAll(s, front).value, x);
      PayloadsPush(xs, front, x);
      Assoc(s.received, PayloadsOf(front), [x.payload]);
    }
  }

  lemma PayloadsPush(xs: seq<Send>, front: seq<Send>, x: Send)
    requires xs != [] && front == xs[..|xs| - 1] && x == xs[|xs| - 1]
    ensures PayloadsOf(xs) == PayloadsOf(front) + [x.payload]
  {
  }

  lemma OneVerified(sent: seq<Payload>, s: State, x: Send)
    requires Verified(s, x).Some? && x.payload in sent && BoxesGenuine(sent, s) && ArrivalsGenuine(sent, x)
    ensures Verified(s, x).value.received == s.received + [x.payload] && BoxesGenuine(sent, Verified(s, x).value)
  {
    var q := if x.toA then s.boxA else s.boxB;
    WaitedMatches(q, x.batches, Confirming(x.payload));
    var got := Waited(q, x.batches, Confirming(x.payload)).0.value;
    assert Confirms(x.payload, got);
    forall m | InReach(q, x.batches, m) ensures Genuine(sent, m) {
      if m !in q {
        assert InReach([], x.batches, m);
      }
    }
  }

  ghost predicate DrawnFrom(q: seq<Message>, batches: seq<seq<Message>>, pool: set<Message>) {
    forall m :: InReach(q, batches, m) ==> m in pool
  }

  /** The condition is exact: a confirmed send receives what was sent, in whatever way messages
      of a pool are queued and arrive, if and only if no message of the pool carries the sent
      keys with another payload. */
  lemma ReceiptExactly(sent: Payload, pool: set<Message>)
    ensures (forall q, batches :: DrawnFrom(q, batches, pool) && Waited(q, batches, Confirming(sent)).0.Some? ==>
               Waited(q, batches, Confirming(sent)).0.value.payload == sent)
            <==> forall m :: m in pool && Confirms(sent, m) ==> m.payload == sent
  {
    forall q, batches | DrawnFrom(q, batches, pool) && Waited(q, batches, Confirming(sent)).0.Some?
      ensures var got := Waited(q, batches, Confirming(sent)).0.value; got in pool && Confirms(sent, got)
    {
      WaitedMatches(q, batches, Confirming(sent));
    }
    forall m | m in pool && Confirms(sent, m)
      ensures DrawnFrom([m], [[]], pool) && Waited([m], [[]], Confirming(sent)).0 == Some(m)
    {
      var batches: seq<seq<Message>> := [[]];
      assert forall k :: 0 <= k < |batches| ==> batches[k] == [];
    }
  }

  /** A wait fails only when nothing that arrives before the last poll matches. */
  lemma {:induction false} TimesOutExactly(q: seq<Message>, batches: seq<seq<Message>>, p: Pred)
    ensures Waited(q, batches, p).0.None? <==>
            batches == [] || forall m :: InReach(q, batches[..|batches| - 1], m) ==> !p(m)
    decreases |batches|
  {
    if batches != [] {
      var i := FirstMatch(q, p);
      if i < |q| {
        assert q[i] in q;
      } else {
        TimesOutExactly(q + batches[0], batches[1..], p);
        TimesOutStep(q, batches, p);
      }
    }
  }

  lemma TimesOutStep(q: seq<Message>, batches: seq<seq<Message>>, p: Pred)
    requires batches != [] && forall m :: m in q ==> !p(m)
    ensures (|batches| == 1 || forall m :: InReach(q + batches[0], batches[1..][..|batches| - 2], m) ==> !p(m)) <==>
            forall m :: InReach(q, batches[..|batches| - 1], m) ==> !p(m)
  {
    var early := batches[..|batches| - 1];
    if |batches| > 1 {
      assert batches[1..][..|batches| - 2] == early[1..];
      forall m ensures InReach(q + early[0], early[1..], m) <==> InReach(q, early, m) {
        if exists k :: 0 <= k < |early[1..]| && m in early[1..][k] {
          var k :| 0 <= k < |early[1..]| && m in early[1..][k];
          assert m in early[k + 1];
        }
        if exists k :: 0 <= k < |early| && m in early[k] {
          var k :| 0 <= k < |early| && m in early[k];
          if k > 0 { assert m in early[1..][k - 1]; }
        }
      }
    }
  }

  /** A send is confirmed exactly when a dialogue message with its id and turn is queued at the
      side it goes to or arrives there before the last poll, and then such a message is received. */
  lemma ConfirmedByKeys(s: State, x: Send)
    requires x.payload.Dialogue?
    ensures var q := if x.toA then s.boxA else s.boxB;
            && (Verified(s, x).Some? <==>
                  && x.batches != []
                  && exists m :: InReach(q, x.batches[..|x.batches| - 1], m) && HasKeys(x.payload, m.payload))
            && (Verified(s, x).Some? ==>
                  var r := Verified(s, x).value.received;
                  && |r| == |s.received| + 1 && r[..|s.received|] == s.received
                  && HasKeys(x.payload, r[|s.received|]))
  {
    var q := if x.toA then s.boxA else s.boxB;
    TimesOutExactly(q, x.batches, Confirming(x.payload));
    WaitedMatches(q, x.batches, Confirming(x.payload));
    forall m ensures Confirming(x.payload)(m) <==> HasKeys(x.payload, m.payload) {}
  }

  /** The payload is of a dialogue, the same one and the same turn. */
  predicate HasKeys(sent: Payload, got: Payload)
    requires sent.Dialogue?
  {
    got.Dialogue? && sent.id == got.id && sent.turn == got.turn
  }
}
