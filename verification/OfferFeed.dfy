/** Offer status from the tail of an append-only feed: the rows of the tail, and when they
    are the rows of the whole feed. */
module OfferFeed {
  import opened Json
  import opened Wrappers

  /** Timestamps of the feed's fixed format, as numbers. */
  datatype Event = Event(ts: nat, offer: Text, taskType: Text, status: Text, details: Text)

  /** A line of the feed: not JSON, the value null, a value that names no offer, or an event. */
  datatype Line = Malformed | NullValue | Nameless | Offer(event: Event)

  /** The rows asked for; no number at all counts like an infinite one. */
  datatype Amount = Finite(n: int) | Unbounded | MinusInfinity

  /** An empty filter is none. */
  datatype Query = Query(recent: Amount, taskType: Text, offer: Text, status: Text)

  datatype Outcome = Crash | Rows(rows: seq<Event>)

  const FEWEST_LINES: nat := 200

  function Limit(q: Query): nat {
    match q.recent
    case Finite(n) => if n < 1 then 1 else n
    case _ => 50
  }

  /** How many lines are read from the end. */
  function Tail(lines: seq<Line>, q: Query): seq<Line> {
    var k := match q.recent
             case Finite(n) => if n * 20 < FEWEST_LINES then FEWEST_LINES else n * 20
             case Unbounded => |lines|
             case MinusInfinity => FEWEST_LINES;
    if |lines| <= k then lines else lines[|lines| - k..]
  }

  predicate Wanted(e: Event, q: Query) {
    (q.taskType == [] || e.taskType == q.taskType) && (q.offer == [] || e.offer == q.offer)
  }

  function Passing(q: Query): Line -> seq<Event> {
    (l: Line) => if l.Offer? && Wanted(l.event, q) then [l.event] else []
  }

  /** The events that pass the filters, in feed order. */
  function Events(lines: seq<Line>, q: Query): seq<Event> { Collect(Passing(q), lines) }

  // ------------------------------------------------------- latest event per offer

  /** One entry per offer, in order of first appearance; a later timestamp replaces. */
  function Keep(kept: seq<Event>, e: Event): seq<Event> {
    if kept == [] then [e]
    else if kept[0].offer == e.offer then (if e.ts > kept[0].ts then [e] + kept[1..] else kept)
    else [kept[0]] + Keep(kept[1..], e)
  }

  function Latest(es: seq<Event>): seq<Event> {
    if es == [] then [] else Keep(Latest(es[..|es| - 1]), es[|es| - 1])
  }

  function InsertDescending(e: Event, es: seq<Event>): (r: seq<Event>)
    ensures forall x :: x in r <==> x == e || x in es
  {
    if es == [] then [e]
    else if e.ts >= es[0].ts then [e] + es
    else
      assert es == [es[0]] + es[1..];
      [es[0]] + InsertDescending(e, es[1..])
  }

  function SortDescending(es: seq<Event>): (r: seq<Event>)
    ensures forall x :: x in r <==> x in es
  {
    if es == [] then []
    else
      assert es == [es[0]] + es[1..];
      InsertDescending(es[0], SortDescending(es[1..]))
  }

  function Take(es: seq<Event>, n: nat): seq<Event> { if |es| <= n then es else es[..n] }

  /** The rows before the status filter. */
  function Recent(es: seq<Event>, n: nat): seq<Event> { Take(SortDescending(Latest(es)), n) }

  function Showing(status: Text): Event -> seq<Event> {
    (e: Event) => if status == [] || e.status == status then [e] else []
  }

  function WithStatus(rows: seq<Event>, status: Text): seq<Event> { Collect(Showing(status), rows) }

  function Inspected(lines: seq<Line>, q: Query): Outcome {
    if NullValue in Tail(lines, q) then Crash
    else Rows(WithStatus(Recent(Events(Tail(lines, q), q), Limit(q)), q.status))
  }

  // ------------------------------------------------------------------- the script

  method Inspect(lines: seq<Line>, q: Query) returns (o: Outcome)
    ensures o == Inspected(lines, q)
  {
    var byOffer := FoldByOffer(Tail(lines, q), q);
    if byOffer.None? {
      return Crash;
    }
    var shown := Select(Take(SortDescending(byOffer.value), Limit(q)), q.status);
    o := Rows(shown);
  }

  lemma EventsPush(lines: seq<Line>, l: Line, q: Query)
    ensures Latest(Events(lines + [l], q)) ==
            if l.Offer? && Wanted(l.event, q) then Keep(Latest(Events(lines, q)), l.event) else Latest(Events(lines, q))
  {
    CollectPush(Passing(q), lines, l);
    if l.Offer? && Wanted(l.event, q) {
      LatestPush(Events(lines, q), l.event);
    } else {
      assert Events(lines, q) + [] == Events(lines, q);
    }
  }

  /** Reading a field of null throws, so a null among the lines read ends the run. */
  method FoldByOffer(tail: seq<Line>, q: Query) returns (byOffer: Option<seq<Event>>)
    ensures byOffer == if NullValue in tail then None else Some(Latest(Events(tail, q)))
  {
    var i := 0;
    var kept: seq<Event> := [];
    while i < |tail|
      invariant 0 <= i <= |tail|
      invariant NullValue !in tail[..i]
      invariant kept == Latest(Events(tail[..i], q))
    {
      if tail[i].NullValue? {
        return None;
      }
      EventsPush(tail[..i], tail[i], q);
      assert tail[..i + 1] == tail[..i] + [tail[i]];
      if tail[i].Offer? && Wanted(tail[i].event, q) {
        kept := Keep(kept, tail[i].event);
      }
      i := i + 1;
    }
    assert tail[..i] == tail;
    byOffer := Some(kept);
  }

  method Select(rows: seq<Event>, status: Text) returns (shown: seq<Event>)
    ensures shown == WithStatus(rows, status)
  {
    shown := [];
    var i := 0;
    while i < |rows|
      invariant 0 <= i <= |rows|
      invariant shown == WithStatus(rows[..i], status)
    {
      CollectPush(Showing(status), rows[..i], rows[i]);
      assert rows[..i + 1] == rows[..i] + [rows[i]];
      if status == [] || rows[i].status == status {
        shown := shown + [rows[i]];
      } else {
        assert shown + [] == shown;
      }
      i := i + 1;
    }
    assert rows[..i] == rows;
  }

  lemma LatestPush(es: seq<Event>, e: Event)
    ensures Latest(es + [e]) == Keep(Latest(es), e)
  {
    assert (es + [e])[..|es|] == es;
  }

  // ------------------------------------------------- what every row is, for any feed

  ghost predicate OnePerOffer(es: seq<Event>) { forall i, j :: 0 <= i < j < |es| ==> es[i].offer != es[j].offer }

  ghost predicate Descending(es: seq<Event>) { forall i, j :: 0 <= i < j < |es| ==> es[i].ts >= es[j].ts }

  ghost predicate HasOffer(es: seq<Event>, offer: Text) { exists e :: e in es && e.offer == offer }

  /** An event of the feed that no event of its offer is later than. */
  ghost predicate IsLatest(es: seq<Event>, e: Event) {
    e in es && forall x :: x in es && x.offer == e.offer ==> x.ts <= e.ts
  }

  lemma {:induction false} KeepFacts(kept: seq<Event>, e: Event)
    requires OnePerOffer(kept)
    ensures OnePerOffer(Keep(kept, e))
    ensures forall x :: x in Keep(kept, e) ==>
              if x.offer != e.offer then x in kept else (x == e || x in kept) && e.ts <= x.ts
    ensures forall x :: x in kept ==> if x.offer != e.offer then x in Keep(kept, e)
              else (x in Keep(kept, e) && e.ts <= x.ts) || (e in Keep(kept, e) && x.ts < e.ts)
    ensures HasOffer(Keep(kept, e), e.offer)
  {
    if kept == [] {
      assert e in Keep(kept, e);
    } else {
      assert kept == [kept[0]] + kept[1..];
      if kept[0].offer != e.offer {
        KeepFacts(kept[1..], e);
        var x :| x in Keep(kept[1..], e) && x.offer == e.offer;
        assert x in Keep(kept, e);
      } else {
        assert Keep(kept, e)[0] in Keep(kept, e);
      }
    }
  }

  lemma {:induction false} LatestFacts(es: seq<Event>)
    ensures OnePerOffer(Latest(es))
    ensures forall e :: e in Latest(es) ==> IsLatest(es, e)
    ensures forall e :: e in es ==> HasOffer(Latest(es), e.offer)
  {
    if es != [] {
      var front, e := es[..|es| - 1], es[|es| - 1];
      assert es == front + [e];
      LatestFacts(front);
      KeepFacts(Latest(front), e);
      LatestStep(front, e);
    }
  }

  lemma LatestStep(front: seq<Event>, e: Event)
    requires forall x :: x in Latest(front) ==> IsLatest(front, x)
    requires forall x :: x in front ==> HasOffer(Latest(front), x.offer)
    requires OnePerOffer(Latest(front))
    ensures forall x :: x in Keep(Latest(front), e) ==> IsLatest(front + [e], x)
    ensures forall x :: x in front + [e] ==> HasOffer(Keep(Latest(front), e), x.offer)
  {
    var kept := Latest(front);
    KeepFacts(kept, e);
    forall x | x in Keep(kept, e) ensures IsLatest(front + [e], x) {
      forall y | y in front + [e] && y.offer == x.offer ensures y.ts <= x.ts {
        if y in front {
          var k :| k in kept && k.offer == y.offer;
          assert IsLatest(front, k);
        }
      }
    }
    forall x | x in front + [e] ensures HasOffer(Keep(kept, e), x.offer) {
      if x.offer != e.offer {
        var k :| k in kept && k.offer == x.offer;
        assert k in Keep(kept, e);
      }
    }
  }

  lemma {:induction false} SortFacts(es: seq<Event>)
    requires OnePerOffer(es)
    ensures Descending(SortDescending(es)) && OnePerOffer(SortDescending(es))
    ensures |SortDescending(es)| == |es|
  {
    if es != [] {
      assert forall i :: 0 <= i < |es[1..]| ==> es[1..][i].offer != es[0].offer;
      SortFacts(es[1..]);
      InsertOrdered(es[0], SortDescending(es[1..]));
      InsertOnePerOffer(es[0], SortDescending(es[1..]));
    }
  }

  lemma {:induction false} InsertOrdered(e: Event, es: seq<Event>)
    requires Descending(es)
    ensures Descending(InsertDescending(e, es)) && |InsertDescending(e, es)| == |es| + 1
  {
    if es != [] && e.ts < es[0].ts {
      InsertOrdered(e, es[1..]);
      assert forall x :: x in InsertDescending(e, es[1..]) ==> x.ts <= es[0].ts;
    }
  }

  lemma {:induction false} InsertOnePerOffer(e: Event, es: seq<Event>)
    requires OnePerOffer(es) && forall x :: x in es ==> x.offer != e.offer
    ensures OnePerOffer(InsertDescending(e, es))
  {
    if es != [] && e.ts < es[0].ts {
      InsertOnePerOffer(e, es[1..]);
      assert forall x :: x in es[1..] ==> x.offer != es[0].offer;
      assert es[0] in es;
      assert forall x :: x in InsertDescending(e, es[1..]) ==> x.offer != es[0].offer;
    }
  }

  /** For every feed: each row is its offer's latest event among those read, no offer has two
      rows, rows go from late to early, and an offer is left out only when the limit is reached
      by rows no earlier. */
  lemma RowsAreLatest(es: seq<Event>, n: nat)
    ensures var rows := Recent(es, n);
            && OnePerOffer(rows) && Descending(rows)
            && (forall e :: e in rows ==> IsLatest(es, e))
            && forall e :: IsLatest(es, e) && !HasOffer(rows, e.offer) ==>
                 |rows| == n && forall r :: r in rows ==> e.ts <= r.ts
  {
    LatestFacts(es);
    SortFacts(Latest(es));
    var rows := Recent(es, n);
    forall e | IsLatest(es, e) && !HasOffer(rows, e.offer)
      ensures |rows| == n && forall r :: r in rows ==> e.ts <= r.ts
    {
      SortHasOffer(es, e);
      LeftOut(es, SortDescending(Latest(es)), n, e);
    }
  }

  lemma SortHasOffer(es: seq<Event>, e: Event)
    requires e in es
    ensures HasOffer(SortDescending(Latest(es)), e.offer)
  {
    LatestFacts(es);
    var k :| k in Latest(es) && k.offer == e.offer;
    assert k in SortDescending(Latest(es));
  }

  lemma LeftOut(es: seq<Event>, all: seq<Event>, n: nat, e: Event)
    requires Descending(all) && IsLatest(es, e) && HasOffer(all, e.offer) && !HasOffer(Take(all, n), e.offer)
    requires forall x :: x in all ==> IsLatest(es, x)
    ensures |Take(all, n)| == n && forall r :: r in Take(all, n) ==> e.ts <= r.ts
  {
    var k :| k in all && k.offer == e.offer;
    var i :| 0 <= i < |all| && all[i] == k;
    assert forall j :: 0 <= j < |Take(all, n)| ==> Take(all, n)[j] in Take(all, n);
  }

  // ------------------------------------------------------- what was asked for is shown

  /** What is read are the last lines, twenty for each row that is asked for but at least 200. */
  lemma TailExactly(lines: seq<Line>, q: Query)
    ensures var tail := Tail(lines, q);
            && |tail| <= |lines| && tail == lines[|lines| - |tail|..]
            && (q.recent.Unbounded? || |lines| <= 200 ==> tail == lines)
            && (q.recent.MinusInfinity? && |lines| > 200 ==> |tail| == 200)
            && (q.recent.Finite? && |lines| > 200 ==>
                  |tail| == if 20 * q.recent.n <= 200 then 200
                            else if 20 * q.recent.n <= |lines| then 20 * q.recent.n else |lines|)
  {
  }

  /** What a query asks for by task type and offer. */
  predicate AsksFor(q: Query, e: Event) {
    (q.taskType != [] ==> e.taskType == q.taskType) && (q.offer != [] ==> e.offer == q.offer)
  }

  lemma {:induction false} EventsExactly(lines: seq<Line>, q: Query, e: Event)
    ensures e in Events(lines, q) <==> Offer(e) in lines && AsksFor(q, e)
  {
    if lines != [] {
      EventsExactly(lines[..|lines| - 1], q, e);
      assert lines == lines[..|lines| - 1] + [lines[|lines| - 1]];
    }
  }

  /** The rows that are shown at most: as many as were asked for but one at least, or fifty. */
  ghost function AtMost(q: Query): nat {
    if !q.recent.Finite? then 50 else if q.recent.n >= 1 then q.recent.n else 1
  }

  lemma ShownAtMost(lines: seq<Line>, q: Query, rows: seq<Event>)
    requires Inspected(lines, q) == Rows(rows)
    ensures |rows| <= AtMost(q)
  {
    CollectLoses(Showing(q.status), Recent(Events(Tail(lines, q), q), Limit(q)));
  }

  /** What is shown was asked for, by task type, offer and status, and stands in the lines read. */
  lemma ShownAsAsked(lines: seq<Line>, q: Query, rows: seq<Event>, r: Event)
    requires Inspected(lines, q) == Rows(rows) && r in rows
    ensures (q.taskType != [] ==> r.taskType == q.taskType) && (q.offer != [] ==> r.offer == q.offer)
    ensures (q.status != [] ==> r.status == q.status) && Offer(r) in Tail(lines, q)
  {
    var es := Events(Tail(lines, q), q);
    RowsAreLatest(es, Limit(q));
    CollectKept(Showing(q.status), Recent(es, Limit(q)));
    EventsExactly(Tail(lines, q), q, r);
  }

  /** And nothing that was asked for is skipped: of an event in the lines read with the type
      and offer, the offer is shown as it was then or later, unless some such event has another
      status, or as many other offers as are shown at most have events no earlier. */
  lemma NothingSkipped(lines: seq<Line>, q: Query, rows: seq<Event>, e: Event)
    requires Inspected(lines, q) == Rows(rows) && Offer(e) in Tail(lines, q)
    requires (q.taskType != [] ==> e.taskType == q.taskType) && (q.offer != [] ==> e.offer == q.offer)
    ensures || (exists r :: r in rows && r.offer == e.offer && e.ts <= r.ts)
            || (exists x :: Offer(x) in Tail(lines, q) && x.offer == e.offer && e.ts <= x.ts
                            && q.status != [] && x.status != q.status)
            || (exists others :: |others| == AtMost(q) && OnePerOffer(others) && !HasOffer(others, e.offer)
                                 && forall x :: x in others ==> Offer(x) in Tail(lines, q) && e.ts <= x.ts)
  {
    var es := Events(Tail(lines, q), q);
    EventsExactly(Tail(lines, q), q, e);
    OneRow(es, e, Recent(es, Limit(q)), Limit(q));
    RecentInTail(lines, q, Recent(es, Limit(q)));
    RowShown(q.status, Recent(es, Limit(q)), rows);
  }

  lemma RecentInTail(lines: seq<Line>, q: Query, recent: seq<Event>)
    requires recent == Recent(Events(Tail(lines, q), q), Limit(q))
    ensures forall x :: x in recent ==> Offer(x) in Tail(lines, q)
  {
    RowsAreLatest(Events(Tail(lines, q), q), Limit(q));
    forall x | x in recent ensures Offer(x) in Tail(lines, q) { EventsExactly(Tail(lines, q), q, x); }
  }

  lemma RowShown(status: Text, recent: seq<Event>, rows: seq<Event>)
    requires rows == WithStatus(recent, status)
    ensures forall r :: r in recent ==> r in rows || (status != [] && r.status != status)
  {
    CollectKept(Showing(status), recent);
  }

  /** An event is no later than the row of its offer, or than all of the rows, if there are as
      many as are shown. */
  lemma OneRow(es: seq<Event>, e: Event, recent: seq<Event>, n: nat)
    requires e in es && recent == Recent(es, n)
    ensures || (exists r :: r in recent && r.offer == e.offer && e.ts <= r.ts)
            || (|recent| == n && OnePerOffer(recent) && !HasOffer(recent, e.offer)
                && forall x :: x in recent ==> e.ts <= x.ts)
  {
    RowsAreLatest(es, n);
    LatestFacts(es);
    var k :| k in Latest(es) && k.offer == e.offer;
    assert IsLatest(es, k);
    if HasOffer(recent, e.offer) {
      var r :| r in recent && r.offer == e.offer;
      assert IsLatest(es, r);
    }
  }

  // ----------------------------------------------- the tail against the whole feed

  ghost predicate Increasing(es: seq<Event>) { forall i, j :: 0 <= i < j < |es| ==> es[i].ts < es[j].ts }

  function OtherThan(offer: Text): Event -> seq<Event> {
    (e: Event) => if e.offer == offer then [] else [e]
  }

  function Others(es: seq<Event>, offer: Text): (r: seq<Event>)
    ensures forall e :: e in r <==> e in es && e.offer != offer
  {
    CollectKept(OtherThan(offer), es);
    Collect(OtherThan(offer), es)
  }

  /** The answer without a clock: offers by their last appearance, latest first. */
  function Recents(es: seq<Event>): seq<Event> {
    if es == [] then []
    else
      var e := es[|es| - 1];
      [e] + Others(Recents(es[..|es| - 1]), e.offer)
  }

  ghost predicate StrictlyDescending(es: seq<Event>) { forall i, j :: 0 <= i < j < |es| ==> es[i].ts > es[j].ts }

  lemma {:induction false} OthersDescending(es: seq<Event>, offer: Text)
    requires StrictlyDescending(es)
    ensures StrictlyDescending(Others(es, offer))
  {
    if es != [] {
      var front := es[..|es| - 1];
      OthersDescending(front, offer);
      assert forall x :: x in front ==> x.ts > es[|es| - 1].ts;
      assert forall x :: x in Others(front, offer) ==> x.ts > es[|es| - 1].ts;
    }
  }

  lemma RecentsStep(front: seq<Event>, e: Event, r: seq<Event>)
    requires Increasing(front + [e]) && StrictlyDescending(r) && forall x :: x in r <==> IsLatest(front, x)
    ensures StrictlyDescending([e] + Others(r, e.offer))
    ensures forall x :: x in [e] + Others(r, e.offer) <==> IsLatest(front + [e], x)
  {
    OthersDescending(r, e.offer);
    forall x | x in front ensures x.ts < e.ts {
      var i :| 0 <= i < |front| && front[i] == x;
      assert (front + [e])[i] == x && (front + [e])[|front|] == e;
    }
    assert forall x :: x in Others(r, e.offer) ==> x.ts < e.ts;
    forall x ensures IsLatest(front + [e], x) <==> x == e || (x.offer != e.offer && IsLatest(front, x)) {
      assert forall y :: y in front + [e] <==> y in front || y == e;
    }
  }

  /** On a feed with increasing timestamps these are the latest events, from late to early. */
  lemma {:induction false} RecentsFacts(es: seq<Event>)
    requires Increasing(es)
    ensures StrictlyDescending(Recents(es))
    ensures forall e :: e in Recents(es) <==> IsLatest(es, e)
  {
    if es != [] {
      var front, e := es[..|es| - 1], es[|es| - 1];
      assert es == front + [e];
      RecentsFacts(front);
      RecentsStep(front, e, Recents(front));
    }
  }

  lemma HeadIsLatest(a: seq<Event>)
    requires StrictlyDescending(a) && a != []
    ensures forall e :: e in a[1..] <==> e in a && e != a[0]
    ensures forall e :: e in a ==> e.ts <= a[0].ts && (e.ts == a[0].ts ==> e == a[0])
  {
    assert a == [a[0]] + a[1..];
    assert forall e :: e in a[1..] ==> e.ts < a[0].ts;
  }

  lemma {:induction false} DescendingUnique(a: seq<Event>, b: seq<Event>)
    requires StrictlyDescending(a) && StrictlyDescending(b) && forall e :: e in a <==> e in b
    ensures a == b
  {
    if a == [] {
      if b != [] { HasEvent(b); assert false; }
    } else if b == [] {
      HasEvent(a);
      assert false;
    } else {
      HeadIsLatest(a);
      HeadIsLatest(b);
      assert a[0] in a && b[0] in b;
      assert a[0] == b[0];
      DescendingUnique(a[1..], b[1..]);
      assert a == [a[0]] + a[1..] && b == [b[0]] + b[1..];
    }
  }

  lemma HasEvent(es: seq<Event>)
    requires es != []
    ensures exists e :: e in es
  {
    assert es[0] in es;
  }

  lemma LatestUnique(es: seq<Event>, e: Event, x: Event)
    requires Increasing(es) && IsLatest(es, e) && IsLatest(es, x) && e.offer == x.offer
    ensures e == x
  {
    var i :| 0 <= i < |es| && es[i] == e;
    var j :| 0 <= j < |es| && es[j] == x;
  }

  lemma SortedStrictly(es: seq<Event>, rows: seq<Event>)
    requires Increasing(es) && Descending(rows) && OnePerOffer(rows) && forall e :: e in rows ==> e in es
    ensures StrictlyDescending(rows)
  {
    forall i, j | 0 <= i < j < |rows| ensures rows[i].ts > rows[j].ts {
      assert rows[i] in es && rows[j] in es;
      if rows[i].ts == rows[j].ts { SameTime(es, rows[i], rows[j]); }
    }
  }

  lemma SortedIsRecents(es: seq<Event>)
    requires Increasing(es)
    ensures SortDescending(Latest(es)) == Recents(es)
  {
    LatestFacts(es);
    SortFacts(Latest(es));
    RecentsFacts(es);
    var rows := SortDescending(Latest(es));
    SortedStrictly(es, rows);
    forall e ensures e in rows <==> e in Recents(es) {
      if IsLatest(es, e) {
        var k :| k in Latest(es) && k.offer == e.offer;
        LatestUnique(es, e, k);
      }
    }
    DescendingUnique(rows, Recents(es));
  }

  lemma SameTime(es: seq<Event>, a: Event, b: Event)
    requires Increasing(es) && a in es && b in es && a.ts == b.ts
    ensures a == b
  {
    var i :| 0 <= i < |es| && es[i] == a;
    var j :| 0 <= j < |es| && es[j] == b;
  }

  function OthersAll(es: seq<Event>, named: seq<Event>): seq<Event> {
    if named == [] then es else Others(OthersAll(es, named[..|named| - 1]), named[|named| - 1].offer)
  }

  lemma {:induction false} OthersAllIn(es: seq<Event>, named: seq<Event>)
    ensures forall e :: e in OthersAll(es, named) <==> e in es && !HasOffer(named, e.offer)
  {
    if named != [] {
      var front, x := named[..|named| - 1], named[|named| - 1];
      assert named == front + [x];
      OthersAllIn(es, front);
      forall e: Event ensures HasOffer(named, e.offer) <==> HasOffer(front, e.offer) || e.offer == x.offer {
        assert x in named;
        forall y | y in front ensures y in named {}
      }
    }
  }

  /** What came before a tail only adds its own offers after those of the tail. */
  lemma {:induction false} RecentsOfWhole(early: seq<Event>, tail: seq<Event>)
    ensures Recents(early + tail) == Recents(tail) + OthersAll(Recents(early), tail)
  {
    if tail == [] {
      assert early + tail == early;
    } else {
      var front, e := tail[..|tail| - 1], tail[|tail| - 1];
      assert (early + tail)[..|early + tail| - 1] == early + front;
      RecentsOfWhole(early, front);
      CollectAppend(OtherThan(e.offer), Recents(front), OthersAll(Recents(early), front));
      Assoc([e], Others(Recents(front), e.offer), OthersAll(Recents(early), tail));
    }
  }

  /** Whether every offer named before the tail is named in the tail. */
  ghost predicate Covers(tail: seq<Event>, early: seq<Event>) { forall e :: e in early ==> HasOffer(tail, e.offer) }

  lemma {:induction false} RecentsOffers(es: seq<Event>)
    ensures forall e :: e in Recents(es) ==> e in es
    ensures forall e :: e in es ==> HasOffer(Recents(es), e.offer)
  {
    if es != [] {
      var front, x := es[..|es| - 1], es[|es| - 1];
      assert es == front + [x];
      RecentsOffers(front);
      assert x in Recents(es);
      forall e | e in es ensures HasOffer(Recents(es), e.offer) {
        if e.offer != x.offer {
          var k :| k in Recents(front) && k.offer == e.offer;
          assert k in Recents(es);
        }
      }
    }
  }

  lemma CoversExactly(early: seq<Event>, tail: seq<Event>)
    ensures OthersAll(Recents(early), tail) == [] <==> Covers(tail, early)
  {
    RecentsOffers(early);
    OthersAllIn(Recents(early), tail);
    if OthersAll(Recents(early), tail) != [] {
      HasEvent(OthersAll(Recents(early), tail));
    }
    if !Covers(tail, early) {
      var e :| e in early && !HasOffer(tail, e.offer);
      var k :| k in Recents(early) && k.offer == e.offer;
      assert k in OthersAll(Recents(early), tail);
    }
  }

  /** The fast form is right exactly when it has enough: with increasing timestamps, the rows
      computed from the tail are those of the whole feed if and only if the tail names at
      least as many offers as there are rows to show, or every offer of the feed. */
  lemma TailIsEnough(early: seq<Event>, tail: seq<Event>, n: nat)
    requires Increasing(early + tail)
    ensures Recent(tail, n) == Recent(early + tail, n) <==> |Recents(tail)| >= n || Covers(tail, early)
  {
    assert forall i :: 0 <= i < |tail| ==> (early + tail)[|early| + i] == tail[i];
    assert Increasing(tail);
    SortedIsRecents(tail);
    SortedIsRecents(early + tail);
    RecentsOfWhole(early, tail);
    CoversExactly(early, tail);
    TakeSame(Recents(tail), OthersAll(Recents(early), tail), n);
  }

  lemma TakeSame(a: seq<Event>, b: seq<Event>, n: nat)
    ensures Take(a, n) == Take(a + b, n) <==> |a| >= n || b == []
  {
    if |a| >= n {
      assert a[..n] == (a + b)[..n];
    } else if b == [] {
      assert a + b == a;
    } else {
      assert |Take(a + b, n)| > |a|;
    }
  }

  lemma TakeSplit(a: seq<Event>, b: seq<Event>, n: nat)
    ensures Take(a + b, n) == Take(a, n) + (if |a| >= n then [] else Take(b, n - |a|))
  {
    if |a| >= n { assert (a + b)[..n] == a[..n]; }
  }

  /** More rows behind make no difference to what is shown exactly when none of them is shown. */
  lemma ShownSame(status: Text, short: seq<Event>, more: seq<Event>)
    ensures WithStatus(short, status) == WithStatus(short + more, status) <==>
            forall r :: r in more ==> status != [] && r.status != status
  {
    CollectAppend(Showing(status), short, more);
    CollectKept(Showing(status), more);
    if WithStatus(more, status) == [] {
      forall r | r in more ensures status != [] && r.status != status { assert r !in WithStatus(more, status); }
    } else {
      HasEvent(WithStatus(more, status));
    }
    assert WithStatus(short, status) + [] == WithStatus(short, status);
  }

  lemma TakeIn(es: seq<Event>, n: nat)
    ensures forall r :: r in Take(es, n) ==> r in es
  {
  }

  /** The rows that come from before the tail are those of offers the tail does not name. */
  lemma RowsBefore(tail: seq<Event>, a: seq<Event>, b: seq<Event>, n: nat, more: seq<Event>)
    requires forall r :: r in a ==> r in tail
    requires forall r :: r in b ==> !HasOffer(tail, r.offer)
    requires more == if |a| >= n then [] else Take(b, n - |a|)
    ensures forall r :: r in Take(a, n) ==> HasOffer(tail, r.offer)
    ensures forall r :: r in more ==> !HasOffer(tail, r.offer)
  {
    TakeIn(a, n);
    if |a| < n { TakeIn(b, n - |a|); }
  }

  /** Rows the tail names and rows it does not: all are shown alike exactly when none of the
      latter is shown. */
  lemma ShownAlike(tail: seq<Event>, short: seq<Event>, more: seq<Event>, status: Text)
    requires forall r :: r in short ==> HasOffer(tail, r.offer)
    requires forall r :: r in more ==> !HasOffer(tail, r.offer)
    ensures WithStatus(short, status) == WithStatus(short + more, status) <==>
            forall r :: r in short + more ==> HasOffer(tail, r.offer) || (status != [] && r.status != status)
  {
    ShownSame(status, short, more);
    forall r | r in more ensures r in short + more {}
  }

  /** The script on its tail answers as it would on every line, filters included, if and only if
      every row of the whole feed's answer is of an offer the filtered tail names, or has a status
      that is filtered out. */
  lemma InspectsWholeFeed(lines: seq<Line>, q: Query)
    requires NullValue !in lines && Increasing(Events(lines, q))
    ensures var rows := Recent(Events(lines, q), Limit(q));
            Inspected(lines, q) == Rows(WithStatus(rows, q.status)) <==>
            forall r :: r in rows ==>
              HasOffer(Events(Tail(lines, q), q), r.offer) || (q.status != [] && r.status != q.status)
  {
    var tail := Tail(lines, q);
    var early := lines[..|lines| - |tail|];
    assert lines == early + tail;
    CollectAppend(Passing(q), early, tail);
    AnswersAlike(Events(early, q), Events(tail, q), Limit(q), q.status);
  }

  lemma AnswersAlike(early: seq<Event>, tail: seq<Event>, n: nat, status: Text)
    requires Increasing(early + tail)
    ensures WithStatus(Recent(tail, n), status) == WithStatus(Recent(early + tail, n), status) <==>
            forall r :: r in Recent(early + tail, n) ==> HasOffer(tail, r.offer) || (status != [] && r.status != status)
  {
    assert forall i :: 0 <= i < |tail| ==> (early + tail)[|early| + i] == tail[i];
    assert Increasing(tail);
    SortedIsRecents(tail);
    SortedIsRecents(early + tail);
    RecentsOfWhole(early, tail);
    var a, b := Recents(tail), OthersAll(Recents(early), tail);
    var more := if |a| >= n then [] else Take(b, n - |a|);
    TakeSplit(a, b, n);
    RecentsOffers(tail);
    OthersAllIn(Recents(early), tail);
    RowsBefore(tail, a, b, n, more);
    ShownAlike(tail, Take(a, n), more, status);
    assert Recent(early + tail, n) == Take(a, n) + more && Recent(tail, n) == Take(a, n);
  }
}
