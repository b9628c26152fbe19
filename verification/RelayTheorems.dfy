/** Results over whole runs of the relay, and the inputs on which it stops being a registry. */
module RelayTheorems {
  import opened Json
  import opened Relay
  import opened RelayFrames
  import opened RelayRegistry
  import opened Wrappers

  // ----------------------------------------------------------------- routing

  /** Over every good run the server is the registry. */
  lemma {:induction false} RunRefines(inputs: seq<Input>)
    requires GoodRun(inputs)
    ensures Refines(Run(inputs), RegistryRun(inputs))
  {
    if inputs != [] {
      var front := inputs[..|inputs| - 1];
      RunRefines(front);
      StepRefines(Run(front), RegistryRun(front), inputs[|inputs| - 1]);
    }
  }

  /** Routing: after any good run a frame for a node goes to its most recently registered live
      session, and is dropped when there is none or its socket is gone. */
  lemma RoutesToNewest(inputs: seq<Input>, node: Text)
    requires GoodRun(inputs)
    ensures var route := RouteTo(RegistryRun(inputs).live, node);
            && (Target(Run(inputs), node).Some? <==> route.Some? && route.value.socket !in Run(inputs).destroyed)
            && (Target(Run(inputs), node).Some? ==> Target(Run(inputs), node).value.live == route.value)
  {
    RunRefines(inputs);
    TargetIsRoute(Run(inputs), RegistryRun(inputs), node);
  }

  /** Whether the diagnostics list an entry as the latest of its node. */
  predicate IsLatest(st: State, e: Entry) {
    e.live.ids.node in st.latest && st.latest[e.live.ids.node] == e.live.ids.session
  }

  /** The diagnostics list every live session once and mark one entry of each listed node. */
  lemma OneLatestPerNode(inputs: seq<Input>, e: Entry)
    requires GoodRun(inputs) && e in Run(inputs).entries
    ensures exists f :: f in Run(inputs).entries && f.live.ids.node == e.live.ids.node && IsLatest(Run(inputs), f)
              && forall g :: g in Run(inputs).entries && g.live.ids.node == e.live.ids.node ==>
                   (IsLatest(Run(inputs), g) <==> g == f) && (g != f ==> g.live.at < f.live.at)
  {
    RunRefines(inputs);
    LatestExists(Run(inputs), RegistryRun(inputs), e);
  }

  lemma LatestExists(st: State, r: Registry, e: Entry)
    requires Refines(st, r) && e in st.entries
    ensures exists f :: f in st.entries && f.live.ids.node == e.live.ids.node && IsLatest(st, f)
              && forall g :: g in st.entries && g.live.ids.node == e.live.ids.node ==>
                   (IsLatest(st, g) <==> g == f) && (g != f ==> g.live.at < f.live.at)
  {
    var node := e.live.ids.node;
    RouteFacts(r.live, node);
    var f :| f in st.entries && f.live == RouteTo(r.live, node).value;
    forall g | g in st.entries && g.live.ids.node == node
      ensures (IsLatest(st, g) <==> g == f) && (g != f ==> g.live.at < f.live.at)
    {
      LatestIsUnique(st, r, f, g);
    }
  }

  lemma LatestIsUnique(st: State, r: Registry, f: Entry, g: Entry)
    requires Refines(st, r) && f in st.entries && g in st.entries && g.live.ids.node == f.live.ids.node
    requires RouteTo(r.live, f.live.ids.node) == Some(f.live)
    ensures (IsLatest(st, g) <==> g == f) && (g != f ==> g.live.at < f.live.at)
  {
    RouteFacts(r.live, f.live.ids.node);
    FindEntry(st.entries, f);
    FindEntry(st.entries, g);
    assert g.live in r.live;
    if IsLatest(st, g) { assert RegKey(g.live.ids) == RegKey(f.live.ids); }
  }

  /** Delivery: the forwarded frames of a good run are, in order and unchanged, those the
      registry prescribes; so between two sockets they arrive in the order of the frames. */
  lemma DeliversInOrder(inputs: seq<Input>)
    requires GoodRun(inputs)
    ensures Forwards(Run(inputs).sent) == RegistryRun(inputs).forwards
  {
    RunRefines(inputs);
  }

  /** Over every run at all, keys are unique. */
  lemma {:induction false} KeysUnique(inputs: seq<Input>)
    ensures DistinctEntries(Run(inputs).entries)
  {
    if inputs != [] {
      KeysUnique(inputs[..|inputs| - 1]);
      StepDistinct(Run(inputs[..|inputs| - 1]), inputs[|inputs| - 1]);
    }
  }

  lemma StepDistinct(st: State, input: Input)
    requires DistinctEntries(st.entries)
    ensures DistinctEntries(Step(st, input).entries)
  {
    match input
    case Receive(s, Register(_, _), now) =>
      if RegisterIds(input.message).Ok? {
        PutEntries(st.entries, Entry(Live(RegisterIds(input.message).value, s, now), now));
      }
    case Receive(s, RelayTo(_, _, _), now) =>
      if Owns(st, s) { PutEntries(st.entries, Find(st.entries, RegKey(st.regs[s])).value.(lastSeen := now)); }
    case Cleanup(s) =>
      if Owns(st, s) { DeleteEntries(st.entries, RegKey(st.regs[s])); }
    case _ =>
  }

  /** A close removes exactly the entry of the closing socket under the ids it registered last.
      So a late close never takes the successor of a replaced socket; but an entry the socket
      made under other ids stays, whatever the run. */
  lemma CloseExact(inputs: seq<Input>, s: SocketId, e: Entry)
    requires e in Run(inputs).entries
    ensures var st := Run(inputs);
            e !in Step(st, Cleanup(s)).entries <==>
              st.up && e.live.socket == s && s in st.regs && RegKey(st.regs[s]) == RegKey(e.live.ids)
  {
    var st := Run(inputs);
    KeysUnique(inputs);
    FindEntry(st.entries, e);
    if Owns(st, s) { DeleteEntries(st.entries, RegKey(st.regs[s])); }
  }

  /** A registration tells exactly the other socket that held the same session, if there is one. */
  lemma ReplacedIsTold(st: State, r: Registry, s: SocketId, m: Message, w: Write)
    requires Refines(st, r) && m.Register? && RegisterIds(m).Ok? && w.frame.Replaced?
    requires forall e :: e in st.entries && e.live.ids != RegisterIds(m).value ==>
               RegKey(e.live.ids) != RegKey(RegisterIds(m).value)
    ensures w in RegisterOutput(st, s, m).writes <==>
            exists l :: l in r.live && l.ids == RegisterIds(m).value && l.socket != s
              && w == Write(l.socket, Replaced(RegisterIds(m).value))
  {
    var ids := RegisterIds(m).value;
    var prev := Find(st.entries, RegKey(ids));
    forall l | l in r.live && l.ids == ids ensures prev.Some? && prev.value.live == l {
      var e :| e in st.entries && e.live == l;
      FindEntry(st.entries, e);
    }
    if prev.Some? { assert prev.value.live in r.live && prev.value.live.ids == ids; }
  }

  /** The guard is exact: while the server is up, a valid registration keeps the table a registry
      if and only if every other entry has another key, another socket and an earlier time. */
  lemma RegisterExact(st: State, r: Registry, s: SocketId, m: Message, now: nat)
    requires Refines(st, r) && m.Register? && RegisterIds(m).Ok?
    ensures Refines(Step(st, Receive(s, m, now)), RegistryStep(r, Receive(s, m, now))) <==>
            !st.up || GoodRegister(st.entries, s, RegisterIds(m).value, now)
  {
    if !st.up { return; }
    var ids := RegisterIds(m).value;
    var after, r' := Step(st, Receive(s, m, now)), RegistryStep(r, Receive(s, m, now));
    if GoodRegister(st.entries, s, ids, now) {
      RegisterRefines(st, r, s, m, now);
    } else if Refines(after, r') {
      var e :| e in st.entries && e.live.ids != ids &&
               !(RegKey(e.live.ids) != RegKey(ids) && e.live.socket != s && e.live.at < now);
      BadRegister(st, r, s, ids, now, e);
    }
  }

  lemma BadRegister(st: State, r: Registry, s: SocketId, ids: Ids, now: nat, e: Entry)
    requires DistinctEntries(st.entries) && SameSessions(st.entries, r.live)
    requires e in st.entries && e.live.ids != ids
    requires RegKey(e.live.ids) == RegKey(ids) || e.live.socket == s || e.live.at >= now
    ensures var live := DropIds(r.live, ids) + [Live(ids, s, now)];
            || !SameSessions(Put(st.entries, Entry(Live(ids, s, now), now)), live)
            || !Ascending(live)
            || exists l :: l in live && l.socket in st.regs[s := ids] && st.regs[s := ids][l.socket] != l.ids
  {
    var l := Live(ids, s, now);
    var live := DropIds(r.live, ids) + [l];
    PutEntries(st.entries, Entry(l, now));
    assert e.live in DropIds(r.live, ids) && e.live in live;
    if RegKey(e.live.ids) == RegKey(ids) {
      forall x | x in Put(st.entries, Entry(l, now)) ensures x.live != e.live {}
    } else if e.live.at >= now {
      var i :| 0 <= i < |live| - 1 && live[i] == e.live;
      assert live[|live| - 1] == l;
    }
  }

  // --------------------------------------------- where the server is no registry

  const A: Text := [0x61]
  const B: Text := [0x62]
  const C: Text := [0x63]

  predicate PlainId(t: Text) { 0 < |t| <= ID_LIMIT && !IsTrimmed(t[0]) && !IsTrimmed(t[|t| - 1]) }

  lemma TrimPlain(t: Text)
    requires PlainId(t)
    ensures Trim(t) == t
  {
  }

  function Reg(s: SocketId, node: Text, session: Text, now: nat): Input {
    Receive(s, Register(String(node), String(session)), now)
  }

  lemma RunOf(inputs: seq<Input>, input: Input)
    ensures Run(inputs + [input]) == Step(Run(inputs), input)
  {
    assert (inputs + [input])[..|inputs|] == inputs;
  }

  lemma RegisterRun(inputs: seq<Input>, s: SocketId, node: Text, session: Text, now: nat)
    requires Run(inputs).up && PlainId(node) && PlainId(session)
    ensures var st, after := Run(inputs), Run(inputs + [Reg(s, node, session, now)]);
            && after.up && after.entries == Put(st.entries, Entry(Live(Ids(node, session), s, now), now))
            && after.latest == st.latest[node := session]
            && after.regs == st.regs[s := Ids(node, session)] && after.destroyed == st.destroyed
  {
    RunOf(inputs, Reg(s, node, session, now));
    TrimPlain(node);
    TrimPlain(session);
  }

  lemma CleanupRun(inputs: seq<Input>, s: SocketId, left: seq<Entry>)
    requires Run(inputs).up && Owns(Run(inputs), s)
    requires left == Delete(Run(inputs).entries, RegKey(Run(inputs).regs[s]))
    ensures var st, after := Run(inputs), Run(inputs + [Cleanup(s)]);
            && after.up && after.entries == left && after.latest == Recompute(st.latest, left, st.regs[s].node)
            && after.regs == st.regs - {s} && after.destroyed == st.destroyed
  {
    RunOf(inputs, Cleanup(s));
  }

  lemma PlainLetters()
    ensures PlainId(A) && PlainId(B) && PlainId(C) && PlainId(COLON_B) && PlainId(A_COLON)
  {
    assert !IsTrimmed(0x61) && !IsTrimmed(0x62) && !IsTrimmed(0x63) && !IsTrimmed(COLON);
  }

  // The sessions of one node, all registered in the same millisecond.
  const TIED: seq<Input> := [Reg(1, A, A, 5), Reg(2, A, B, 5), Reg(3, A, C, 5)]
  const L1 := Live(Ids(A, A), 1, 5)
  const L2 := Live(Ids(A, B), 2, 5)
  const L3 := Live(Ids(A, C), 3, 5)

  lemma TiedRun()
    ensures Run(TIED).entries == [Entry(L1, 5), Entry(L2, 5), Entry(L3, 5)]
    ensures Run(TIED).up && Run(TIED).latest == map[A := C] && Run(TIED).destroyed == {}
    ensures 3 in Run(TIED).regs && Run(TIED).regs[3] == Ids(A, C)
  {
    var i1, i2 := [Reg(1, A, A, 5)], [Reg(1, A, A, 5), Reg(2, A, B, 5)];
    assert i1 == [] + [Reg(1, A, A, 5)] && i2 == i1 + [Reg(2, A, B, 5)] && TIED == i2 + [Reg(3, A, C, 5)];
    PlainLetters();
    RegisterRun([], 1, A, A, 5);
    RegisterRun(i1, 2, A, B, 5);
    RegisterRun(i2, 3, A, C, 5);
    DistinctKeysABC();
    assert Put([Entry(L1, 5)], Entry(L2, 5)) == [Entry(L1, 5), Entry(L2, 5)];
    PutTwo(Entry(L1, 5), Entry(L2, 5), Entry(L3, 5));
  }

  lemma DistinctKeysABC()
    ensures RegKey(L1.ids) != RegKey(L2.ids) && RegKey(L2.ids) != RegKey(L3.ids) && RegKey(L1.ids) != RegKey(L3.ids)
  {
    assert RegKey(L1.ids)[3] != RegKey(L2.ids)[3] && RegKey(L1.ids)[3] != RegKey(L3.ids)[3];
    assert RegKey(L2.ids)[3] != RegKey(L3.ids)[3];
  }

  lemma PutTwo(a: Entry, b: Entry, c: Entry)
    requires RegKey(a.live.ids) != RegKey(c.live.ids) && RegKey(b.live.ids) != RegKey(c.live.ids)
    ensures Put([a, b], c) == [a, b, c]
  {
    assert [a, b][1..] == [b] && [b][1..] == [];
    assert Put([], c) == [c];
    assert Put([b], c) == [b, c];
  }

  lemma DeleteThird(a: Entry, b: Entry, c: Entry)
    requires RegKey(a.live.ids) != RegKey(c.live.ids) && RegKey(b.live.ids) != RegKey(c.live.ids)
    ensures Find([a, b, c], RegKey(c.live.ids)) == Some(c)
    ensures Delete([a, b, c], RegKey(c.live.ids)) == [a, b]
  {
    assert [a, b, c][1..] == [b, c] && [b, c][1..] == [c] && [c][1..] == [];
    assert Delete([c], RegKey(c.live.ids)) == [];
    assert Delete([b, c], RegKey(c.live.ids)) == [b];
  }

  lemma BestOfTwo(a: Entry, b: Entry, node: Text)
    requires a.live.ids.node == node && b.live.ids.node == node && a.live.at == b.live.at
    ensures Best([a, b], node) == Some(a)
  {
    assert [a, b][..1] == [a] && [a][..0] == [];
  }

  /** Three sessions registered in one millisecond: when the newest closes, frames go to the
      oldest, because the recomputation keeps the first of equal connection times. */
  lemma TieRoutesToOldest()
    ensures Target(Run(TIED + [Cleanup(3)]), A) == Some(Entry(L1, 5))
  {
    TiedRun();
    DistinctKeysABC();
    DeleteThird(Entry(L1, 5), Entry(L2, 5), Entry(L3, 5));
    CleanupRun(TIED, 3, [Entry(L1, 5), Entry(L2, 5)]);
    BestOfTwo(Entry(L1, 5), Entry(L2, 5), A);
  }

  // ------------------------------------------------------------ key collisions

  /** The ids a registration can end up with: neither empty nor too long, and with no white
      space at either end. */
  lemma AcceptedIds(id: Text, field: IdField)
    ensures (exists raw :: ValidateId(raw, field) == Ok(id)) <==> PlainId(id)
  {
    if PlainId(id) {
      TrimPlain(id);
      assert ValidateId(String(id), field) == Ok(id);
    }
    forall raw | ValidateId(raw, field) == Ok(id) ensures PlainId(id) {
      TrimmedLeft(raw.s);
      TrimmedRight(TrimLeft(raw.s));
    }
  }

  /** Two different node ids that can be registered, the first no longer than the second, share
      a key for some session ids that can be registered exactly when the first with a double
      colon begins the second with one colon, and what follows it in the second, if anything
      does, does not begin with white space. */
  lemma KeyCollision(n1: Text, n2: Text)
    requires PlainId(n1) && PlainId(n2) && n1 != n2 && |n1| <= |n2|
    ensures (exists s1, s2 :: PlainId(s1) && PlainId(s2) && RegKey(Ids(n1, s1)) == RegKey(Ids(n2, s2)))
            <==> n1 + [COLON, COLON] <= n2 + [COLON] && (|n2| > |n1| + 2 ==> !IsTrimmed(n2[|n1| + 2]))
  {
    if n1 + [COLON, COLON] <= n2 + [COLON] && (|n2| > |n1| + 2 ==> !IsTrimmed(n2[|n1| + 2])) {
      CollidingSessions(n1, n2);
    }
    forall s1, s2 | PlainId(s1) && PlainId(s2) && RegKey(Ids(n1, s1)) == RegKey(Ids(n2, s2))
      ensures n1 + [COLON, COLON] <= n2 + [COLON] && (|n2| > |n1| + 2 ==> !IsTrimmed(n2[|n1| + 2]))
    {
      KeyPrefix(n1, s1, n2, s2);
      if |n2| > |n1| + 2 {
        assert s1[0] == RegKey(Ids(n1, s1))[|n1| + 2];
        assert n2[|n1| + 2] == RegKey(Ids(n2, s2))[|n1| + 2];
      }
    }
  }

  lemma CollidingSessions(n1: Text, n2: Text)
    requires PlainId(n1) && PlainId(n2) && n1 != n2 && |n1| <= |n2|
    requires n1 + [COLON, COLON] <= n2 + [COLON] && (|n2| > |n1| + 2 ==> !IsTrimmed(n2[|n1| + 2]))
    ensures exists s1, s2 :: PlainId(s1) && PlainId(s2) && RegKey(Ids(n1, s1)) == RegKey(Ids(n2, s2))
  {
    var k := RegKey(Ids(n2, B));
    var s1 := k[|n1| + 2..];
    PlainLetters();
    assert k == n2 + [COLON] + [COLON, 0x62];
    assert k[..|n1| + 2] == n1 + [COLON, COLON];
    assert k == k[..|n1| + 2] + s1;
    assert RegKey(Ids(n1, s1)) == k;
    assert s1[0] == k[|n1| + 2] && s1[|s1| - 1] == 0x62;
    assert !IsTrimmed(COLON) && !IsTrimmed(0x62);
  }

  lemma KeyPrefix(n1: Text, s1: Text, n2: Text, s2: Text)
    requires n1 != n2 && |n1| <= |n2| && RegKey(Ids(n1, s1)) == RegKey(Ids(n2, s2))
    ensures n1 + [COLON, COLON] <= n2 + [COLON]
  {
    var k := RegKey(Ids(n1, s1));
    assert k[..|n1|] == n1 && k[..|n2|] == n2;
    assert |n1| < |n2|;
    assert k[..|n1| + 2] == n1 + [COLON, COLON];
    assert k[..|n2| + 1] == n2 + [COLON];
    assert k[..|n1| + 2] <= k[..|n2| + 1];
  }

  const COLON_B: Text := [COLON, 0x62]
  const A_COLON: Text := [0x61, COLON]

  const HELD := Entry(Live(Ids(A, COLON_B), 1, 1), 1)
  const TAKEN := Entry(Live(Ids(A_COLON, B), 2, 2), 2)

  lemma SharedKey()
    ensures RegKey(HELD.live.ids) == RegKey(TAKEN.live.ids) && A != A_COLON
  {
    assert RegKey(HELD.live.ids) == [0x61, COLON, COLON, COLON, 0x62] == RegKey(TAKEN.live.ids);
    assert |A| != |A_COLON|;
  }

  /** Node `a` with session `:b` and node `a:` with session `b` have one key: the second
      registration replaces the first, and frames for `a` then go to the other node. */
  lemma CollisionMisroutes()
    ensures Target(Run([Reg(1, A, COLON_B, 1)] + [Reg(2, A_COLON, B, 2)]), A) == Some(TAKEN)
  {
    var i1 := [Reg(1, A, COLON_B, 1)];
    assert i1 == [] + [Reg(1, A, COLON_B, 1)];
    PlainLetters();
    RegisterRun([], 1, A, COLON_B, 1);
    RegisterRun(i1, 2, A_COLON, B, 2);
    SharedKey();
    assert Run(i1).entries == [HELD] && Put([HELD], TAKEN) == [TAKEN];
    var st := Run(i1 + [Reg(2, A_COLON, B, 2)]);
    assert st.latest[A] == COLON_B && st.entries == [TAKEN] && st.destroyed == {};
  }

  // A socket that registers under two node ids.
  const TWICE: seq<Input> := [Reg(1, A, A, 1), Reg(1, B, B, 2)]
  const FIRST := Entry(Live(Ids(A, A), 1, 1), 1)
  const SECOND := Entry(Live(Ids(B, B), 1, 2), 2)

  lemma TwiceRun()
    ensures Run(TWICE).entries == [FIRST, SECOND] && Run(TWICE).latest == map[A := A, B := B]
    ensures Run(TWICE).up && Run(TWICE).regs == map[1 := Ids(B, B)] && Run(TWICE).destroyed == {}
    ensures RegKey(Ids(A, A)) != RegKey(Ids(B, B))
  {
    var i1 := [Reg(1, A, A, 1)];
    assert i1 == [] + [Reg(1, A, A, 1)] && TWICE == i1 + [Reg(1, B, B, 2)];
    PlainLetters();
    RegisterRun([], 1, A, A, 1);
    RegisterRun(i1, 1, B, B, 2);
    assert RegKey(Ids(A, A))[0] != RegKey(Ids(B, B))[0];
    assert [FIRST][1..] == [] && Put([], SECOND) == [SECOND];
  }

  lemma BestOther(a: Entry, node: Text)
    requires a.live.ids.node != node
    ensures Best([a], node) == None
  {
    assert [a][..0] == [];
  }

  lemma SecondDeleted()
    requires RegKey(Ids(A, A)) != RegKey(Ids(B, B))
    ensures Find([FIRST, SECOND], RegKey(Ids(B, B))) == Some(SECOND) && Find([FIRST], RegKey(Ids(A, A))) == Some(FIRST)
    ensures Delete([FIRST, SECOND], RegKey(Ids(B, B))) == [FIRST]
    ensures A != B && Recompute(map[A := A, B := B], [FIRST], B) == map[A := A]
  {
    assert [FIRST, SECOND][1..] == [SECOND] && [SECOND][1..] == [];
    assert Delete([SECOND], RegKey(Ids(B, B))) == [];
    assert A[0] != B[0];
    BestOther(FIRST, B);
  }

  /** When it then closes, the first entry stays, and frames for that node still go to the
      closed socket. */
  lemma SecondKeyLeavesEntry()
    ensures var st := Run(TWICE + [Cleanup(1)]); Target(st, A) == Some(FIRST) && 1 !in st.regs
  {
    TwiceRun();
    SecondDeleted();
    CleanupRun(TWICE, 1, [FIRST]);
  }
}
