/** The relay health check: its verdict as a function of what it counts, and what a healthy
    verdict says about the relay it observes. */
module RelayHealth {
  import opened Json
  import opened Relay
  import opened RelayRegistry
  import opened RelayTheorems
  import opened Wrappers

  const WINDOW: nat := 80

  datatype Health = Unknown | Healthy | Degraded | Unhealthy

  datatype Finding =
    | NodesUnavailable | TracesUnavailable | NodeNotVisible | MultipleSessions
    | DroppedRecently | UnregisteredRecently | ReceivedWithoutForwarded

  datatype Counts = Counts(dropped: nat, unregistered: nat, received: nat, forwarded: nat)

  function Recent(ts: seq<Trace>): seq<Trace> { if |ts| > WINDOW then ts[|ts| - WINDOW..] else ts }

  predicate IsDrop(t: Trace, node: Text) { t.event == DroppedNoTarget && (t.to == Some(node) || t.from == Some(node)) }
  predicate IsUnregister(t: Trace, node: Text) { t.event == UnregisterEvent && t.from == Some(node) }
  predicate IsReceived(t: Trace, node: Text) { t.event == RelayReceived && t.to == Some(node) }
  predicate IsForwarded(t: Trace, node: Text) { t.event == ForwardedEvent && t.from == Some(node) }

  function Tally(ts: seq<Trace>, node: Text): Counts {
    if ts == [] then Counts(0, 0, 0, 0)
    else
      var c, t := Tally(ts[..|ts| - 1], node), ts[|ts| - 1];
      Counts(c.dropped + (if IsDrop(t, node) then 1 else 0), c.unregistered + (if IsUnregister(t, node) then 1 else 0),
             c.received + (if IsReceived(t, node) then 1 else 0), c.forwarded + (if IsForwarded(t, node) then 1 else 0))
  }

  function Sessions(nodes: seq<Text>, node: Text): nat {
    if nodes == [] then 0 else Sessions(nodes[..|nodes| - 1], node) + (if nodes[|nodes| - 1] == node then 1 else 0)
  }

  // ------------------------------------------------------------ the closed form

  /** Whether the recent traces hold anything that counts against a node. */
  predicate Suspicious(c: Counts) { c.dropped > 0 || c.unregistered > 0 || (c.received > 0 && c.forwarded == 0) }

  /** The verdict; an endpoint that could not be read is absent. */
  function Verdict(sessions: Option<nat>, counts: Option<Counts>): Health {
    if sessions.None? || sessions.value == 0 then Unknown
    else if sessions.value > 1 then Unhealthy
    else if counts.None? then Healthy
    else if counts.value.unregistered >= 2 then Unhealthy
    else if Suspicious(counts.value) then Degraded
    else Healthy
  }

  function TraceFindings(c: Counts): seq<Finding> {
    (if c.dropped > 0 then [DroppedRecently] else [])
    + (if c.unregistered > 0 then [UnregisteredRecently] else [])
    + (if c.received > 0 && c.forwarded == 0 then [ReceivedWithoutForwarded] else [])
  }

  function SessionFindings(sessions: nat): seq<Finding> {
    if sessions == 0 then [NodeNotVisible] else if sessions > 1 then [MultipleSessions] else []
  }

  function Findings(sessions: Option<nat>, counts: Option<Counts>): seq<Finding> {
    ((if sessions.None? then [NodesUnavailable] else []) + (if counts.None? then [TracesUnavailable] else []))
    + (if sessions.Some? then SessionFindings(sessions.value) else [])
    + (if counts.Some? then TraceFindings(counts.value) else [])
  }

  /** What the four counts count: the events of these kinds that involve the node so, among the
      last eighty. */
  lemma {:induction false} TallySays(ts: seq<Trace>, node: Text)
    ensures Tally(ts, node) ==
            Counts(HowMany((t: Trace) => t.event.DroppedNoTarget? && (t.from == Some(node) || t.to == Some(node)), ts),
                   HowMany((t: Trace) => t.event.UnregisterEvent? && t.from == Some(node), ts),
                   HowMany((t: Trace) => t.event.RelayReceived? && t.to == Some(node), ts),
                   HowMany((t: Trace) => t.event.ForwardedEvent? && t.from == Some(node), ts))
  {
    if ts != [] {
      TallySays(ts[..|ts| - 1], node);
    }
  }

  function HowMany(p: Trace -> bool, ts: seq<Trace>): nat {
    if ts == [] then 0 else HowMany(p, ts[..|ts| - 1]) + (if p(ts[|ts| - 1]) then 1 else 0)
  }

  lemma RecentExactly(ts: seq<Trace>)
    ensures |Recent(ts)| == (if |ts| <= 80 then |ts| else 80) && Recent(ts) == ts[|ts| - |Recent(ts)|..]
  {
  }

  // ----------------------------------------------------------------- the script

  method CountNodeSessions(nodes: seq<Text>, node: Text) returns (count: nat)
    ensures count == Sessions(nodes, node)
  {
    count := 0;
    var i := 0;
    while i < |nodes|
      invariant 0 <= i <= |nodes| && count == Sessions(nodes[..i], node)
    {
      assert nodes[..i + 1][..i] == nodes[..i];
      if nodes[i] == node {
        count := count + 1;
      }
      i := i + 1;
    }
    assert nodes[..i] == nodes;
  }

  method AnalyzeTraces(traces: seq<Trace>, node: Text) returns (c: Counts)
    ensures c == Tally(Recent(traces), node)
  {
    var recent := Recent(traces);
    var dropped, unregistered, received, forwarded := 0, 0, 0, 0;
    var i := 0;
    while i < |recent|
      invariant 0 <= i <= |recent|
      invariant Counts(dropped, unregistered, received, forwarded) == Tally(recent[..i], node)
    {
      assert recent[..i + 1][..i] == recent[..i];
      if IsDrop(recent[i], node) { dropped := dropped + 1; }
      if IsUnregister(recent[i], node) { unregistered := unregistered + 1; }
      if IsReceived(recent[i], node) { received := received + 1; }
      if IsForwarded(recent[i], node) { forwarded := forwarded + 1; }
      i := i + 1;
    }
    assert recent[..i] == recent;
    c := Counts(dropped, unregistered, received, forwarded);
  }

  /** The branch chain: the verdict starts from the session count and is then made worse. */
  method Judge(sessions: Option<nat>, counts: Option<Counts>) returns (health: Health, findings: seq<Finding>)
    ensures health == Verdict(sessions, counts) && findings == Findings(sessions, counts)
  {
    health, findings := Unknown, [];
    if sessions.None? { findings := [NodesUnavailable]; }
    if counts.None? { findings := findings + [TracesUnavailable]; }
    if sessions.Some? && sessions.value == 0 {
      findings := findings + [NodeNotVisible];
    }
    if sessions.Some? && sessions.value == 1 {
      health := Healthy;
    }
    if sessions.Some? && sessions.value > 1 {
      health := Unhealthy;
      findings := findings + [MultipleSessions];
    }
    assert health == Verdict(sessions, None);
    if counts.Some? {
      var more;
      health, more := Worsen(health, counts.value);
      findings := findings + more;
    }
    if sessions.None? && counts.None? {
      health := Unknown;
    }
  }

  method Worsen(before: Health, c: Counts) returns (health: Health, findings: seq<Finding>)
    ensures findings == TraceFindings(c)
    ensures health == if before != Healthy && before != Degraded then before
                      else if c.unregistered >= 2 then Unhealthy
                      else if Suspicious(c) then Degraded
                      else before
  {
    health, findings := before, [];
    if c.dropped > 0 {
      findings := findings + [DroppedRecently];
      if health == Healthy { health := Degraded; }
    }
    if c.unregistered > 0 {
      findings := findings + [UnregisteredRecently];
      if health == Healthy { health := Degraded; }
      if health == Degraded && c.unregistered >= 2 { health := Unhealthy; }
    }
    if c.received > 0 && c.forwarded == 0 {
      findings := findings + [ReceivedWithoutForwarded];
      if health == Healthy { health := Degraded; }
    }
  }

  method Check(node: Text, nodes: Option<seq<Text>>, traces: Option<seq<Trace>>)
    returns (health: Health, findings: seq<Finding>)
    ensures health == Verdict(Counted(node, nodes), Tallied(node, traces))
    ensures findings == Findings(Counted(node, nodes), Tallied(node, traces))
  {
    var sessions: Option<nat> := None;
    if nodes.Some? {
      var n := CountNodeSessions(nodes.value, node);
      sessions := Some(n);
    }
    var counts: Option<Counts> := None;
    if traces.Some? {
      var c := AnalyzeTraces(traces.value, node);
      counts := Some(c);
    }
    health, findings := Judge(sessions, counts);
  }

  function Counted(node: Text, nodes: Option<seq<Text>>): Option<nat> {
    if nodes.Some? then Some(Sessions(nodes.value, node)) else None
  }

  function Tallied(node: Text, traces: Option<seq<Trace>>): Option<Counts> {
    if traces.Some? then Some(Tally(Recent(traces.value), node)) else None
  }

  // ------------------------------------------------------------------- theorems

  function Severity(h: Health): nat
    requires h != Unknown
  {
    match h
    case Healthy => 0
    case Degraded => 1
    case Unhealthy => 2
  }

  /** More sessions, more bad events or fewer forwards never make the verdict milder. */
  lemma Monotone(m: nat, n: nat, c: Counts, d: Counts)
    requires 1 <= m <= n && c.dropped <= d.dropped && c.unregistered <= d.unregistered
    requires c.received <= d.received && d.forwarded <= c.forwarded
    ensures Verdict(Some(m), Some(c)) != Unknown && Verdict(Some(n), Some(d)) != Unknown
    ensures Severity(Verdict(Some(m), Some(c))) <= Severity(Verdict(Some(n), Some(d)))
    ensures Severity(Verdict(Some(m), None)) <= Severity(Verdict(Some(m), Some(c)))
  {
  }

  /** With both endpoints read, healthy is exactly no findings. */
  lemma HealthyExactly(n: nat, c: Counts)
    ensures Verdict(Some(n), Some(c)) == Healthy <==> Findings(Some(n), Some(c)) == []
  {
  }

  lemma {:induction false} TallyNone(ts: seq<Trace>, node: Text)
    ensures Tally(ts, node).dropped == 0 <==> forall t :: t in ts ==> !IsDrop(t, node)
    ensures Tally(ts, node).unregistered == 0 <==> forall t :: t in ts ==> !IsUnregister(t, node)
  {
    if ts != [] {
      TallyNone(ts[..|ts| - 1], node);
      assert ts == ts[..|ts| - 1] + [ts[|ts| - 1]];
    }
  }

  /** What the relay's two diagnostic endpoints show. */
  function Listed(entries: seq<Entry>): seq<Text> { seq(|entries|,
      i requires 0 <= i < |entries| => entries[i].live.ids.node) }

  lemma {:induction false} SessionsCount(entries: seq<Entry>, node: Text)
    ensures Sessions(Listed(entries), node) == 0 ==> forall e :: e in entries ==> e.live.ids.node != node
    ensures Sessions(Listed(entries), node) == 1 ==>
              exists e :: e in entries && e.live.ids.node == node
                && forall x :: x in entries && x.live.ids.node == node ==> x == e
  {
    if entries != [] {
      var front, e := entries[..|entries| - 1], entries[|entries| - 1];
      SessionsCount(front, node);
      assert Listed(entries)[..|entries| - 1] == Listed(front);
      assert entries == front + [e];
      if Sessions(Listed(entries), node) == 1 && e.live.ids.node != node {
        var x :| x in front && x.live.ids.node == node && forall y :: y in front && y.live.ids.node == node ==> y == x;
        assert x in entries;
      }
    }
  }

  /** The bounded trace is long enough for the window. */
  lemma RecentOfCap(h: seq<Trace>)
    ensures Recent(Cap(h)) == Recent(h)
  {
    if |h| > TRACE_CAP { assert Cap(h)[|Cap(h)| - WINDOW..] == h[|h| - WINDOW..]; }
  }

  lemma LastEighty(h: seq<Trace>, node: Text)
    requires forall t :: t in Recent(h) ==> !IsDrop(t, node) && !IsUnregister(t, node)
    ensures forall i :: 0 <= i < |h| && i >= |h| - 80 ==> !IsDrop(h[i], node) && !IsUnregister(h[i], node)
  {
    RecentExactly(h);
    forall i | 0 <= i < |h| && i >= |h| - 80 ensures h[i] in Recent(h) {
      assert h[i] == Recent(h)[i - (|h| - |Recent(h)|)];
    }
  }

  /** The only live session of a node. */
  ghost predicate OnlyOne(st: State, node: Text, e: Entry) {
    e in st.entries && e.live.ids.node == node && forall x :: x in st.entries && x.live.ids.node == node ==> x == e
  }

  /** A healthy verdict on a relay reached by any run at all: the node has exactly one live
      session, and the last events of the whole history hold no drop that involves the node
      and no close of its. */
  lemma HealthyMeansOneSession(inputs: seq<Input>, node: Text)
    requires var st := Run(inputs);
             Verdict(Counted(node, Some(Listed(st.entries))), Tallied(node, Some(Cap(st.history)))) == Healthy
    ensures exists e :: OnlyOne(Run(inputs), node, e)
    ensures var h := Run(inputs).history;
            forall i :: 0 <= i < |h| && i >= |h| - 80 ==>
              && !(h[i].event == DroppedNoTarget && (h[i].from == Some(node) || h[i].to == Some(node)))
              && !(h[i].event == UnregisterEvent && h[i].from == Some(node))
  {
    var st := Run(inputs);
    SessionsCount(st.entries, node);
    var e :| e in st.entries && e.live.ids.node == node
             && forall x :: x in st.entries && x.live.ids.node == node ==> x == e;
    assert OnlyOne(st, node, e);
    RecentOfCap(st.history);
    TallyNone(Recent(st.history), node);
    LastEighty(st.history, node);
  }

  /** After good registrations frames for such a node go to that session, unless its socket
      is gone. */
  lemma HealthyNodeIsReached(inputs: seq<Input>, node: Text, e: Entry)
    requires GoodRun(inputs) && OnlyOne(Run(inputs), node, e)
    ensures Target(Run(inputs), node).Some? <==> e.live.socket !in Run(inputs).destroyed
    ensures Target(Run(inputs), node).Some? ==> Target(Run(inputs), node).value.live == e.live
  {
    var st, r := Run(inputs), RegistryRun(inputs);
    RunRefines(inputs);
    RoutesToNewest(inputs, node);
    RouteFacts(r.live, node);
    var route := RouteTo(r.live, node).value;
    var x :| x in st.entries && x.live == route;
  }
}
