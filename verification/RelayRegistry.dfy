/** What the relay is for: a registry of live sessions in order of registration, and the
    proof that the routing table with its latest pointers refines it. */
module RelayRegistry {
  import opened Json
  import opened Relay
  import opened RelayFrames
  import opened Wrappers

  /** The live sessions, oldest registration first; a socket is registered as `ids` says. */
  datatype Registry = Registry(
    up: bool, live: seq<Live>, ids: map<SocketId, Ids>, destroyed: set<SocketId>, forwards: seq<Write>)

  const NOBODY := Registry(true, [], map[], {}, [])

  function Select(live: seq<Live>, p: Live -> bool): (r: seq<Live>)
    ensures forall l :: l in r <==> l in live && p(l)
  {
    if live == [] then []
    else
      assert live == [live[0]] + live[1..];
      (if p(live[0]) then [live[0]] else []) + Select(live[1..], p)
  }

  function DropIds(live: seq<Live>, ids: Ids): seq<Live> { Select(live, (l: Live) => l.ids != ids) }
  function DropSocket(live: seq<Live>, s: SocketId): seq<Live> { Select(live, (l: Live) => l.socket != s) }

  /** A node is reached over its most recently registered live session. */
  function RouteTo(live: seq<Live>, node: Text): Option<Live> {
    if live == [] then None
    else
      var last := live[|live| - 1];
      if last.ids.node == node then Some(last) else RouteTo(live[..|live| - 1], node)
  }

  /** The registry's step. It goes down with the server, at a relay frame that cannot be shown
      in the trace. */
  function RegistryStep(r: Registry, input: Input): Registry {
    if !r.up then r
    else match input
    case Receive(s, m, now) =>
      (match m
       case Register(_, _) =>
         (match RegisterIds(m)
          case Err(_) => r
          case Ok(ids) => r.(live := DropIds(r.live, ids) + [Live(ids, s, now)], ids := r.ids[s := ids]))
       case RelayTo(to, payload, _) =>
         if !Traceable(s in r.ids, m) then r.(up := false) else
         var node := if to.String? then Trim(to.s) else [];
         var route := RouteTo(r.live, node);
         if s in r.ids && node != [] && route.Some? && route.value.socket !in r.destroyed then
           r.(forwards := r.forwards + [Write(route.value.socket, Forwarded(r.ids[s].node, payload))])
         else r
       case Other => r)
    case Cleanup(s) => r.(live := DropSocket(r.live, s), ids := r.ids - {s})
    case Destroy(s) => r.(destroyed := r.destroyed + {s})
  }

  function RegistryRun(inputs: seq<Input>): Registry {
    if inputs == [] then NOBODY
    else RegistryStep(RegistryRun(inputs[..|inputs| - 1]), inputs[|inputs| - 1])
  }

  function ForwardOf(w: Write): seq<Write> { if w.frame.Forwarded? then [w] else [] }

  function Forwards(ws: seq<Write>): seq<Write> { Collect(ForwardOf, ws) }

  // -------------------------------------------------------------- refinement

  ghost predicate DistinctEntries(entries: seq<Entry>) {
    forall i, j :: 0 <= i < j < |entries| ==> RegKey(entries[i].live.ids) != RegKey(entries[j].live.ids)
  }

  ghost predicate Ascending(live: seq<Live>) {
    forall i, j :: 0 <= i < j < |live| ==> live[i].at < live[j].at
  }

  ghost predicate SameSessions(entries: seq<Entry>, live: seq<Live>) {
    && (forall e :: e in entries ==> e.live in live)
    && (forall l :: l in live ==> exists e :: e in entries && e.live == l)
  }

  ghost predicate LatestIsRoute(latest: map<Text, Text>, live: seq<Live>) {
    && (forall n :: n in latest <==> RouteTo(live, n).Some?)
    && (forall n :: n in latest ==> latest[n] == RouteTo(live, n).value.ids.session)
  }

  ghost predicate Refines(st: State, r: Registry) {
    && st.up == r.up
    && DistinctEntries(st.entries)
    && SameSessions(st.entries, r.live)
    && Ascending(r.live)
    && (forall l :: l in r.live ==> l.socket in st.regs && st.regs[l.socket] == l.ids && l.ids.session != [])
    && LatestIsRoute(st.latest, r.live)
    && st.regs == r.ids && st.destroyed == r.destroyed && Forwards(st.sent) == r.forwards
  }

  /** The condition under which a registration keeps the table a registry: every other entry
      has another key, another socket and an earlier time. */
  predicate GoodRegister(entries: seq<Entry>, s: SocketId, ids: Ids, now: nat) {
    forall e :: e in entries ==>
      e.live.ids == ids || (RegKey(e.live.ids) != RegKey(ids) && e.live.socket != s && e.live.at < now)
  }

  predicate Good(st: State, input: Input) {
    st.up && input.Receive? && input.message.Register? && RegisterIds(input.message).Ok? ==>
      GoodRegister(st.entries, input.socket, RegisterIds(input.message).value, input.now)
  }

  predicate GoodRun(inputs: seq<Input>) {
    inputs == [] ||
    (GoodRun(inputs[..|inputs| - 1]) && Good(Run(inputs[..|inputs| - 1]), inputs[|inputs| - 1]))
  }

  // ------------------------------------------------------------ table lemmas

  lemma {:induction false} PutEntries(entries: seq<Entry>, e: Entry)
    requires DistinctEntries(entries)
    ensures DistinctEntries(Put(entries, e))
    ensures forall x :: x in Put(entries, e) <==> x == e || (x in entries && RegKey(x.live.ids) != RegKey(e.live.ids))
  {
    if entries != [] {
      assert entries == [entries[0]] + entries[1..];
      if RegKey(entries[0].live.ids) != RegKey(e.live.ids) { PutEntries(entries[1..], e); }
    }
  }

  lemma {:induction false} DeleteEntries(entries: seq<Entry>, key: Text)
    requires DistinctEntries(entries)
    ensures DistinctEntries(Delete(entries, key))
    ensures forall x :: x in Delete(entries, key) <==> x in entries && RegKey(x.live.ids) != key
  {
    if entries != [] {
      assert entries == [entries[0]] + entries[1..];
      if RegKey(entries[0].live.ids) != key { DeleteEntries(entries[1..], key); }
    }
  }

  lemma FindEntry(entries: seq<Entry>, e: Entry)
    requires DistinctEntries(entries) && e in entries
    ensures Find(entries, RegKey(e.live.ids)) == Some(e)
  {
  }

  lemma {:induction false} SelectAscending(live: seq<Live>, p: Live -> bool)
    requires Ascending(live)
    ensures Ascending(Select(live, p))
  {
    if live != [] {
      SelectAscending(live[1..], p);
      assert forall l :: l in live[1..] ==> live[0].at < l.at;
    }
  }

  lemma {:induction false} SelectAll(live: seq<Live>, p: Live -> bool)
    requires forall l :: l in live ==> p(l)
    ensures Select(live, p) == live
  {
    if live != [] {
      SelectAll(live[1..], p);
      assert live == [live[0]] + live[1..];
    }
  }

  lemma {:induction false} RouteFacts(live: seq<Live>, node: Text)
    requires Ascending(live)
    ensures RouteTo(live, node).None? ==> forall l :: l in live ==> l.ids.node != node
    ensures RouteTo(live, node).Some? ==>
              var l := RouteTo(live, node).value;
              l in live && l.ids.node == node && forall k :: k in live && k.ids.node == node && k != l ==> k.at < l.at
  {
    if live != [] {
      var front := live[..|live| - 1];
      assert live == front + [live[|live| - 1]];
      RouteFacts(front, node);
    }
  }

  /** The route is the one live session of its node that no other of its node is younger than. */
  lemma RouteIs(live: seq<Live>, node: Text, l: Live)
    requires Ascending(live) && l in live && l.ids.node == node
    requires forall k :: k in live && k.ids.node == node ==> k.at <= l.at
    ensures RouteTo(live, node) == Some(l)
  {
    RouteFacts(live, node);
  }

  /** Dropping sessions of other nodes leaves a route as it is. */
  lemma RouteUntouched(live: seq<Live>, kept: seq<Live>, node: Text)
    requires Ascending(live) && Ascending(kept)
    requires forall l: Live :: l.ids.node == node ==> (l in live <==> l in kept)
    ensures RouteTo(kept, node) == RouteTo(live, node)
  {
    RouteFacts(live, node);
    RouteFacts(kept, node);
    if RouteTo(live, node).Some? { RouteIs(kept, node, RouteTo(live, node).value); }
  }

  // -------------------------------------------------------------- each step

  /** After a good registration the kept sessions are older, and on other sockets and keys. */
  lemma KeptSessions(st: State, r: Registry, s: SocketId, ids: Ids, now: nat)
    requires SameSessions(st.entries, r.live) && Ascending(r.live) && GoodRegister(st.entries, s, ids, now)
    ensures Ascending(DropIds(r.live, ids)) && Ascending(DropIds(r.live, ids) + [Live(ids, s, now)])
    ensures forall k :: k in DropIds(r.live, ids) ==>
              k in r.live && k.at < now && k.socket != s && RegKey(k.ids) != RegKey(ids)
  {
    var kept := DropIds(r.live, ids);
    SelectAscending(r.live, (k: Live) => k.ids != ids);
    forall k | k in kept ensures k.at < now && k.socket != s && RegKey(k.ids) != RegKey(ids) {
      var e :| e in st.entries && e.live == k;
    }
  }

  lemma RegisterSessions(entries: seq<Entry>, live: seq<Live>, kept: seq<Live>, e: Entry)
    requires DistinctEntries(entries) && SameSessions(entries, live)
    requires forall k :: k in kept <==> k in live && k.ids != e.live.ids
    requires forall k :: k in kept ==> RegKey(k.ids) != RegKey(e.live.ids)
    ensures DistinctEntries(Put(entries, e)) && SameSessions(Put(entries, e), kept + [e.live])
  {
    PutEntries(entries, e);
    forall k | k in kept + [e.live] ensures exists x :: x in Put(entries, e) && x.live == k {
      if k in kept {
        var x :| x in entries && x.live == k;
        assert x in Put(entries, e);
      } else {
        assert e in Put(entries, e);
      }
    }
  }

  lemma RegisterLatest(latest: map<Text, Text>, live: seq<Live>, kept: seq<Live>, l: Live)
    requires LatestIsRoute(latest, live) && Ascending(live) && Ascending(kept)
    requires forall k :: k in kept <==> k in live && k.ids != l.ids
    ensures LatestIsRoute(latest[l.ids.node := l.ids.session], kept + [l])
  {
    forall n ensures RouteTo(kept + [l], n) == if n == l.ids.node then Some(l) else RouteTo(live, n) {
      assert (kept + [l])[..|kept|] == kept;
      if n != l.ids.node { RouteUntouched(live, kept, n); }
    }
  }

  lemma OwnsLive(st: State, r: Registry, s: SocketId)
    requires Refines(st, r)
    ensures Owns(st, s) <==> exists l :: l in r.live && l.socket == s
    ensures Owns(st, s) ==> forall l :: l in r.live ==>
              (l.socket == s <==> l == Find(st.entries, RegKey(st.regs[s])).value.live)
  {
    forall l | l in r.live && l.socket == s
      ensures Owns(st, s) && l == Find(st.entries, RegKey(st.regs[s])).value.live
    {
      var e :| e in st.entries && e.live == l;
      FindEntry(st.entries, e);
    }
    if Owns(st, s) { assert Find(st.entries, RegKey(st.regs[s])).value.live in r.live; }
  }

  lemma CleanupSessions(entries: seq<Entry>, live: seq<Live>, gone: Entry, kept: seq<Live>)
    requires DistinctEntries(entries) && SameSessions(entries, live) && gone in entries
    requires forall l :: l in kept <==> l in live && l != gone.live
    ensures var left := Delete(entries, RegKey(gone.live.ids)); DistinctEntries(left) && SameSessions(left, kept)
  {
    var key := RegKey(gone.live.ids);
    DeleteEntries(entries, key);
    FindEntry(entries, gone);
    forall e | e in Delete(entries, key) ensures e.live in kept { FindEntry(entries, e); }
    forall l | l in kept ensures exists e :: e in Delete(entries, key) && e.live == l {
      var e :| e in entries && e.live == l;
      FindEntry(entries, e);
      assert e in Delete(entries, key);
    }
  }

  /** Choosing the greatest connection time finds the most recent registration. */
  lemma RecomputeIsRoute(entries: seq<Entry>, live: seq<Live>, node: Text)
    requires SameSessions(entries, live) && Ascending(live)
    ensures Best(entries, node).Some? <==> RouteTo(live, node).Some?
    ensures Best(entries, node).Some? ==> Best(entries, node).value.live == RouteTo(live, node).value
  {
    RouteFacts(live, node);
    var best := Best(entries, node);
    if RouteTo(live, node).Some? {
      var e :| e in entries && e.live == RouteTo(live, node).value;
    }
    if best.Some? {
      forall k | k in live && k.ids.node == node ensures k.at <= best.value.live.at {
        var e :| e in entries && e.live == k;
      }
      RouteIs(live, node, best.value.live);
    }
  }

  lemma CleanupLatest(latest: map<Text, Text>, live: seq<Live>, kept: seq<Live>, left: seq<Entry>, node: Text)
    requires LatestIsRoute(latest, live) && Ascending(live) && Ascending(kept) && SameSessions(left, kept)
    requires forall l: Live :: l.ids.node != node ==> (l in live <==> l in kept)
    ensures LatestIsRoute(Recompute(latest, left, node), kept)
  {
    RecomputeIsRoute(left, kept, node);
    forall n | n != node ensures RouteTo(kept, n) == RouteTo(live, n) { RouteUntouched(live, kept, n); }
  }

  lemma TargetIsRoute(st: State, r: Registry, node: Text)
    requires Refines(st, r)
    ensures var route := RouteTo(r.live, node);
            && (Target(st, node).Some? <==> route.Some? && route.value.socket !in r.destroyed)
            && (Target(st, node).Some? ==> Target(st, node).value.live == route.value)
  {
    RouteFacts(r.live, node);
    if node in st.latest {
      var l := RouteTo(r.live, node).value;
      var e :| e in st.entries && e.live == l;
      FindEntry(st.entries, e);
      assert l.ids == Ids(node, st.latest[node]);
    }
  }

  lemma TouchRefines(st: State, r: Registry, s: SocketId, now: nat)
    requires Refines(st, r)
    ensures DistinctEntries(Touch(st, s, now)) && SameSessions(Touch(st, s, now), r.live)
  {
    if Owns(st, s) {
      var e := Find(st.entries, RegKey(st.regs[s])).value;
      PutEntries(st.entries, e.(lastSeen := now));
      forall l | l in r.live ensures exists x :: x in Touch(st, s, now) && x.live == l {
        var x :| x in st.entries && x.live == l;
        FindEntry(st.entries, x);
        if RegKey(l.ids) == RegKey(e.live.ids) {
          assert e.(lastSeen := now) in Touch(st, s, now);
        } else {
          assert x in Touch(st, s, now);
        }
      }
    }
  }

  /** The frame that a relay frame leads to, if it leads to one. */
  function Relayed(st: State, s: SocketId, m: Message): seq<Write>
    requires m.RelayTo?
  {
    var node := if m.to.String? then Trim(m.to.s) else [];
    if s in st.regs && node != [] && Target(st, node).Some? then
      [Write(Target(st, node).value.live.socket, Forwarded(st.regs[s].node, m.payload))]
    else []
  }

  lemma RelayWrites(st: State, s: SocketId, m: Message)
    requires m.RelayTo?
    ensures Forwards(RelayOutput(st, s, m).writes) == Relayed(st, s, m)
  {
    var ws := RelayOutput(st, s, m).writes;
    if ws[0].frame.Forwarded? {
      assert ws == [ws[0], ws[1], ws[2]];
      CollectThree(ForwardOf, ws[0], ws[1], ws[2]);
    } else {
      CollectNone(ForwardOf, ws);
    }
  }

  lemma RelayForwards(st: State, r: Registry, s: SocketId, m: Message, now: nat, ws: seq<Write>)
    requires Refines(st, r) && m.RelayTo? && st.up && Traceable(s in st.regs, m)
    requires Forwards(ws) == Relayed(st, s, m)
    ensures Forwards(st.sent + ws) == RegistryStep(r, Receive(s, m, now)).forwards
  {
    CollectAppend(ForwardOf, st.sent, ws);
    TargetIsRoute(st, r, if m.to.String? then Trim(m.to.s) else []);
    assert r.forwards + [] == r.forwards;
  }

  lemma OtherWrites(st: State, input: Input)
    requires !(input.Receive? && input.message.RelayTo?)
    ensures Forwards(StepOutput(st, input).writes) == []
  {
    CollectNone(ForwardOf, StepOutput(st, input).writes);
  }

  lemma StepForwards(st: State, r: Registry, input: Input)
    requires Refines(st, r)
    ensures Forwards(Step(st, input).sent) == RegistryStep(r, input).forwards
  {
    if !Completes(st, input) {
      assert Step(st, input).sent == st.sent;
    } else if input.Receive? && input.message.RelayTo? {
      RelayWrites(st, input.socket, input.message);
      RelayForwards(st, r, input.socket, input.message, input.now,
                    RelayOutput(st, input.socket, input.message).writes);
    } else {
      OtherForwards(st, input);
    }
  }

  lemma OtherForwards(st: State, input: Input)
    requires !(input.Receive? && input.message.RelayTo?)
    ensures Forwards(Step(st, input).sent) == Forwards(st.sent)
  {
    CollectAppend(ForwardOf, st.sent, StepOutput(st, input).writes);
    OtherWrites(st, input);
    assert Forwards(st.sent) + [] == Forwards(st.sent);
  }

  lemma RegisterRefines(st: State, r: Registry, s: SocketId, m: Message, now: nat)
    requires Refines(st, r) && m.Register? && RegisterIds(m).Ok?
    requires st.up && GoodRegister(st.entries, s, RegisterIds(m).value, now)
    ensures Refines(Step(st, Receive(s, m, now)), RegistryStep(r, Receive(s, m, now)))
  {
    var ids := RegisterIds(m).value;
    var kept, l := DropIds(r.live, ids), Live(ids, s, now);
    StepForwards(st, r, Receive(s, m, now));
    KeptSessions(st, r, s, ids, now);
    RegisterSessions(st.entries, r.live, kept, Entry(l, now));
    RegisterLatest(st.latest, r.live, kept, l);
    RegisterSockets(st.regs, r.live, kept, l);
  }

  lemma RegisterSockets(regs: map<SocketId, Ids>, live: seq<Live>, kept: seq<Live>, l: Live)
    requires forall k :: k in live ==> k.socket in regs && regs[k.socket] == k.ids && k.ids.session != []
    requires l.ids.session != [] && forall k :: k in kept ==> k in live && k.socket != l.socket
    ensures var after := regs[l.socket := l.ids];
            forall k :: k in kept + [l] ==> k.socket in after && after[k.socket] == k.ids && k.ids.session != []
  {
  }

  lemma CleanupRefines(st: State, r: Registry, s: SocketId)
    requires Refines(st, r) && st.up
    ensures Refines(Step(st, Cleanup(s)), RegistryStep(r, Cleanup(s)))
  {
    StepForwards(st, r, Cleanup(s));
    OwnsLive(st, r, s);
    if Owns(st, s) {
      CleanupOwned(st, r, s, DropSocket(r.live, s));
    } else {
      SelectAll(r.live, (l: Live) => l.socket != s);
    }
  }

  lemma CleanupOwned(st: State, r: Registry, s: SocketId, kept: seq<Live>)
    requires Refines(st, r) && st.up && Owns(st, s) && kept == DropSocket(r.live, s)
    ensures Refines(Step(st, Cleanup(s)), RegistryStep(r, Cleanup(s)))
  {
    StepForwards(st, r, Cleanup(s));
    OwnsLive(st, r, s);
    SelectAscending(r.live, (l: Live) => l.socket != s);
    var gone := Find(st.entries, RegKey(st.regs[s])).value;
    assert gone.live.ids == st.regs[s];
    CleanupSessions(st.entries, r.live, gone, kept);
    CleanupLatest(st.latest, r.live, kept, Delete(st.entries, RegKey(st.regs[s])), st.regs[s].node);
  }

  /** Every step of the server is the registry's step, given a good registration. */
  lemma StepRefines(st: State, r: Registry, input: Input)
    requires Refines(st, r) && Good(st, input)
    ensures Refines(Step(st, input), RegistryStep(r, input))
  {
    if !st.up { return; }
    match input
    case Receive(s, Register(_, _), now) =>
      if RegisterIds(input.message).Ok? {
        RegisterRefines(st, r, s, input.message, now);
      } else {
        StepForwards(st, r, input);
      }
    case Receive(s, RelayTo(_, _, _), now) =>
      StepForwards(st, r, input);
      TouchRefines(st, r, s, now);
    case Cleanup(s) => CleanupRefines(st, r, s);
    case _ =>
  }
}
