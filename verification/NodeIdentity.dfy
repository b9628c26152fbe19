/** The node id bootstrap: three files, a crash possible after any write, workspaces copied
    between machines, and a watchdog that also writes the id. */
module NodeIdentity {
  import opened Wrappers

  type Fingerprint = nat
  type Seed = nat
  type Machine = nat

  /** A derived id stands for the hash of fingerprint and seed; any other id was given. */
  datatype NodeId = Derived(fingerprint: Fingerprint, seed: Seed) | Given(name: nat)

  /** The three files, absent when missing or blank; `blank` says that the id file is there all
      the same, which only the watchdog can tell. */
  datatype Files = Files(id: Option<NodeId>, seed: Option<Seed>, fingerprint: Option<Fingerprint>, blank: bool)

  const BLANK := Files(None, None, None, false)

  datatype Write = WriteId(id: NodeId) | WriteSeed(seed: Seed) | WriteFingerprint(fingerprint: Fingerprint)

  /** What a boot brings along: the machine's fingerprint, the random seed it would draw, and
      whether a fingerprint write that may fail quietly succeeds. */
  datatype Boot = Boot(fingerprint: Fingerprint, drawn: Seed, recordOk: bool)

  // ------------------------------------------------------------------- one boot

  function Put(d: Files, w: Write): Files {
    match w
    case WriteId(id) => d.(id := Some(id), blank := false)
    case WriteSeed(s) => d.(seed := Some(s))
    case WriteFingerprint(f) => d.(fingerprint := Some(f))
  }

  function PutAll(d: Files, ws: seq<Write>): Files {
    if ws == [] then d else Put(PutAll(d, ws[..|ws| - 1]), ws[|ws| - 1])
  }

  predicate Cloned(d: Files, b: Boot) { d.fingerprint.Some? && d.fingerprint.value != b.fingerprint }

  /** The seed the id is derived from, when it is derived anew. */
  function SeedFor(d: Files, b: Boot): Seed { if Cloned(d, b) || d.seed.None? then b.drawn else d.seed.value }

  function Record(d: Files, b: Boot): seq<Write> {
    if d.fingerprint.None? && b.recordOk then [WriteFingerprint(b.fingerprint)] else []
  }

  /** The writes of a boot, in order. */
  function Plan(d: Files, b: Boot): seq<Write> {
    if Cloned(d, b) then
      [WriteSeed(b.drawn), WriteId(Derived(b.fingerprint, b.drawn)), WriteFingerprint(b.fingerprint)]
    else if d.id.Some? then Record(d, b)
    else (if d.seed.None? then
        [WriteSeed(b.drawn)] else []) + [WriteId(Derived(b.fingerprint, SeedFor(d, b)))] + Record(d, b)
  }

  /** The id a boot reports once it is through. */
  function Reports(d: Files, b: Boot): NodeId {
    if !Cloned(d, b) && d.id.Some? then d.id.value else Derived(b.fingerprint, SeedFor(d, b))
  }

  predicate Completes(d: Files, b: Boot, steps: nat) { steps >= |Plan(d, b)| }

  /** The files after at most so many writes. */
  function After(d: Files, b: Boot, steps: nat): Files {
    PutAll(d, if Completes(d, b, steps) then Plan(d, b) else Plan(d, b)[..steps])
  }

  lemma PutFew(d: Files, u: Write, v: Write, w: Write)
    ensures PutAll(d, []) == d && PutAll(d, [u]) == Put(d, u) && PutAll(d, [u, v]) == Put(Put(d, u), v)
    ensures PutAll(d, [u, v, w]) == Put(Put(Put(d, u), v), w)
  {
    assert [u][..0] == [] && [u, v][..1] == [u] && [u, v, w][..2] == [u, v];
  }

  /** The files after a crash, case by case. */
  lemma AfterSteps(d: Files, b: Boot, steps: nat)
    ensures var p := Plan(d, b);
            && (p == [] || steps == 0 ==> After(d, b, steps) == d)
            && (|p| >= 1 && steps >= 1 && (|p| == 1 || steps == 1) ==> After(d, b, steps) == Put(d, p[0]))
            && (|p| >= 2 && steps >= 2 && (|p| == 2 || steps == 2) ==> After(d, b, steps) == Put(Put(d, p[0]), p[1]))
            && (|p| == 3 && steps >= 3 ==> After(d, b, steps) == Put(Put(Put(d, p[0]), p[1]), p[2]))
  {
    var p := Plan(d, b);
    var w := WriteSeed(0);
    var u, v, x := if |p| > 0 then p[0] else w, if |p| > 1 then p[1] else w, if |p| > 2 then p[2] else w;
    PutFew(d, u, v, x);
    assert p == (if |p| == 0 then [] else if |p| == 1 then [u] else if |p| == 2 then [u, v] else [u, v, x]);
    assert |p| >= 1 ==> p[..1] == [u];
    assert |p| >= 2 ==> p[..2] == [u, v];
  }

  /** The files a boot that gets through leaves, and the id it reports, in terms of those it found:
      a known machine keeps its id; otherwise the id is derived from this machine's fingerprint and
      the seed on file, a new one if there was none or it is another machine's. The fingerprint is
      recorded but where there was none and the write failed. */
  ghost predicate Left(found: Files, b: Boot, left: Files, id: NodeId) {
    var foreign := found.fingerprint.Some? && found.fingerprint.value != b.fingerprint;
    && left.id == Some(id)
    && (if found.id.Some? && !foreign then
          left.id == found.id && left.seed == found.seed
        else
          && left.seed.Some? && id == Derived(b.fingerprint, left.seed.value)
          && left.seed == if found.seed.Some? && !foreign then found.seed else Some(b.drawn))
    && left.fingerprint == if found.fingerprint.Some? || b.recordOk then Some(b.fingerprint) else None
  }

  /** Three writes are enough for any boot, and those that get through leave just this. */
  lemma BootLeaves(d: Files, b: Boot, budget: nat)
    ensures budget >= 3 ==> Completes(d, b, budget)
    ensures Completes(d, b, budget) ==> Left(d, b, After(d, b, budget), Reports(d, b))
  {
    AfterSteps(d, b, budget);
  }

  class Workspace {
    var id: Option<NodeId>
    var seed: Option<Seed>
    var fingerprint: Option<Fingerprint>
    var blank: bool

    ghost function Contents(): Files
      reads this
    {
      Files(id, seed, fingerprint, blank)
    }

    constructor ()
      ensures Contents() == BLANK
    {
      id, seed, fingerprint, blank := None, None, None, false;
    }

    /** A boot that dies when its budget of writes is used up; it then reports nothing. */
    method Bootstrap(b: Boot, budget: nat) returns (reported: Option<NodeId>)
      modifies this
      ensures Contents() == After(old(Contents()), b, budget)
      ensures reported == if Completes(old(Contents()), b, budget) then Some(Reports(old(Contents()), b)) else None
      ensures budget >= 3 ==> reported.Some?
      ensures reported.Some? ==>
                fingerprint == if old(fingerprint).Some? || b.recordOk then Some(b.fingerprint) else None
    {
      AfterSteps(Contents(), b, budget);
      reported := None;
      if fingerprint.Some? && fingerprint.value != b.fingerprint {
        reported := Regenerate(b, budget);
        return;
      }
      if id.None? {
        reported := Create(b, budget);
        return;
      }
      if fingerprint.None? && b.recordOk {
        if budget == 0 { return; }
        fingerprint := Some(b.fingerprint);
      }
      reported := id;
    }

    /** No id and no foreign fingerprint. */
    method Create(b: Boot, budget: nat) returns (reported: Option<NodeId>)
      requires !Cloned(Contents(), b) && id.None?
      modifies this
      ensures Contents() == After(old(Contents()), b, budget)
      ensures reported == if Completes(old(Contents()), b, budget) then Some(Reports(old(Contents()), b)) else None
      ensures reported.Some? ==>
                fingerprint == if old(fingerprint).Some? || b.recordOk then Some(b.fingerprint) else None
    {
      AfterSteps(Contents(), b, budget);
      reported := None;
      var left := budget;
      var s := b.drawn;
      if seed.Some? {
        s := seed.value;
      } else {
        if left == 0 { return; }
        seed := Some(s);
        left := left - 1;
      }
      if left == 0 { return; }
      id, blank := Some(Derived(b.fingerprint, s)), false;
      left := left - 1;
      if fingerprint.None? && b.recordOk {
        if left == 0 { return; }
        fingerprint := Some(b.fingerprint);
      }
      reported := id;
    }

    method Regenerate(b: Boot, budget: nat) returns (reported: Option<NodeId>)
      requires Cloned(Contents(), b)
      modifies this
      ensures Contents() == After(old(Contents()), b, budget)
      ensures reported == if Completes(old(Contents()), b, budget) then Some(Reports(old(Contents()), b)) else None
      ensures reported.Some? ==>
                fingerprint == if old(fingerprint).Some? || b.recordOk then Some(b.fingerprint) else None
    {
      AfterSteps(Contents(), b, budget);
      reported := None;
      if budget == 0 { return; }
      seed := Some(b.drawn);
      if budget == 1 { return; }
      id, blank := Some(Derived(b.fingerprint, b.drawn)), false;
      if budget == 2 { return; }
      fingerprint := Some(b.fingerprint);
      reported := id;
    }

    /** The watchdog takes what the file holds, nothing if it is blank, and writes only where
        there is no file. */
    method ReadOrCreateHolder(name: nat) returns (holder: Option<NodeId>)
      modifies this`id
      ensures Contents() == Try(old(Contents()), Watch(name)) && holder == id
      ensures holder.None? <==> old(id).None? && blank
    {
      if id.None? && !blank {
        id := Some(Given(name));
      }
      holder := id;
    }
  }

  // -------------------------------------------------------------- on one machine

  datatype Attempt = BootUp(boot: Boot, budget: nat) | Watch(name: nat)

  function Try(d: Files, a: Attempt): Files {
    match a
    case BootUp(b, n) => After(d, b, n)
    case Watch(name) => if d.id.Some? || d.blank then d else d.(id := Some(Given(name)))
  }

  function TryAll(d: Files, attempts: seq<Attempt>): Files {
    if attempts == [] then d else Try(TryAll(d, attempts[..|attempts| - 1]), attempts[|attempts| - 1])
  }

  predicate OnMachine(attempts: seq<Attempt>, f: Fingerprint) {
    forall a :: a in attempts && a.BootUp? ==> a.boot.fingerprint == f
  }

  /** The id an attempt reports, if it gets that far. */
  function Reported(d: Files, a: Attempt): Option<NodeId> {
    if a.BootUp? && Completes(d, a.boot, a.budget) then Some(Reports(d, a.boot)) else None
  }

  /** An id is there and no foreign fingerprint is. */
  predicate Settled(d: Files, f: Fingerprint, id: NodeId) {
    d.id == Some(id) && (d.fingerprint.Some? ==> d.fingerprint.value == f)
  }

  lemma BootSettles(d: Files, b: Boot, budget: nat)
    ensures Completes(d, b, budget) ==> Settled(After(d, b, budget), b.fingerprint, Reports(d, b))
    ensures forall id :: Settled(d, b.fingerprint, id) ==>
              Settled(After(d, b, budget), b.fingerprint, id) && Reports(d, b) == id
  {
    AfterSteps(d, b, budget);
  }

  lemma {:induction false} StaysSettled(d: Files, attempts: seq<Attempt>, f: Fingerprint, id: NodeId)
    requires OnMachine(attempts, f) && Settled(d, f, id)
    ensures Settled(TryAll(d, attempts), f, id)
  {
    if attempts != [] {
      StaysSettled(d, attempts[..|attempts| - 1], f, id);
      var a := attempts[|attempts| - 1];
      if a.BootUp? { BootSettles(TryAll(d, attempts[..|attempts| - 1]), a.boot, a.budget); }
    }
  }

  /** Crash-safe identity: whatever the files were, once one boot gets through the node-id
      step, every later boot of the machine that does so reports the same id, however many
      boots crashed in between and whatever the watchdog did. */
  lemma SameIdEver(d: Files, before: Attempt, between: seq<Attempt>, last: Attempt, f: Fingerprint)
    requires OnMachine([before] + between + [last], f)
    requires Reported(d, before).Some? && Reported(TryAll(Try(d, before), between), last).Some?
    ensures Reported(TryAll(Try(d, before), between), last) == Reported(d, before)
  {
    assert before in [before] + between + [last] && last in [before] + between + [last];
    forall a | a in between ensures a in [before] + between + [last] {}
    BootSettles(d, before.boot, before.budget);
    StaysSettled(Try(d, before), between, f, Reported(d, before).value);
    BootSettles(TryAll(Try(d, before), between), last.boot, last.budget);
  }

  /** Losing the id file alone: the next boot comes to the same id, whatever it would draw,
      exactly when the id had been derived from the seed in place, by this boot or earlier. */
  lemma RecoversExactly(d: Files, b: Boot, budget: nat)
    requires Completes(d, b, budget)
    ensures var lost := After(d, b, budget).(id := None);
            (forall again: Boot :: again.fingerprint == b.fingerprint ==> Reports(lost, again) == Reports(d, b)) <==>
              Cloned(d, b) || d.id.None? || (d.seed.Some? && d.id.value == Derived(b.fingerprint, d.seed.value))
  {
    AfterSteps(d, b, budget);
    var lost := After(d, b, budget).(id := None);
    if d.id.Some? && !Cloned(d, b) && d.seed.None? {
      var other := if d.id.value.Derived? then d.id.value.seed + 1 else 0;
      assert Reports(lost, Boot(b.fingerprint, other, true)) == Derived(b.fingerprint, other);
    }
    if d.id.Some? && !Cloned(d, b) && d.seed.Some? {
      assert Reports(lost, b) == Derived(b.fingerprint, d.seed.value);
    }
  }

  // ------------------------------------------------------------- over many machines

  /** The files of each machine, and the id of its latest boot while that holds. */
  datatype World = World(files: map<Machine, Files>, reported: map<Machine, NodeId>, drawn: set<Seed>, names: set<nat>)

  datatype Act =
    | Start(machine: Machine, drawn: Seed, recordOk: bool, budget: nat)
    | Copy(from: Machine, to: Machine)
    | Supervise(machine: Machine, name: nat)

  type Machines = Machine -> Fingerprint

  function FilesOf(w: World, m: Machine): Files { if m in w.files then w.files[m] else BLANK }

  /** Draws do not repeat, and a workspace is copied only once a fingerprint is recorded in it. */
  predicate Legal(w: World, a: Act) {
    match a
    case Start(_, s, _, _) => s !in w.drawn
    case Copy(m, _) => FilesOf(w, m).fingerprint.Some?
    case Supervise(_, name) => name !in w.names
  }

  function Next(ms: Machines, w: World, a: Act): World {
    match a
    case Start(m, s, ok, budget) =>
      var d, b := FilesOf(w, m), Boot(ms(m), s, ok);
      World(w.files[m := After(d, b, budget)],
            if Completes(d, b, budget) then
                w.reported[m := Reports(d, b)] else w.reported - {m}, w.drawn + {s}, w.names)
    case Copy(m, n) => w.(files := w.files[n := FilesOf(w, m)], reported := w.reported - {n})
    case Supervise(m, name) =>
      w.(files := w.files[m := Try(FilesOf(w, m), Watch(name))], names := w.names + {name})
  }

  const NOTHING := World(map[], map[], {}, {})

  function Run(ms: Machines, acts: seq<Act>): World {
    if acts == [] then NOTHING else Next(ms, Run(ms, acts[..|acts| - 1]), acts[|acts| - 1])
  }

  predicate LegalRun(ms: Machines, acts: seq<Act>) {
    acts == [] || (LegalRun(ms, acts[..|acts| - 1]) && Legal(Run(ms, acts[..|acts| - 1]), acts[|acts| - 1]))
  }

  /** Ids and seeds on the machines were drawn before, and a fingerprint stands beside an id. */
  ghost predicate Known(w: World) {
    && (forall m :: FilesOf(w, m).fingerprint.Some? ==> FilesOf(w, m).id.Some?)
    && (forall m :: FilesOf(w, m).seed.Some? ==> FilesOf(w, m).seed.value in w.drawn)
    && (forall m :: FilesOf(w, m).id.Some? ==>
          match FilesOf(w, m).id.value
          case Derived(_, s) => s in w.drawn
          case Given(name) => name in w.names)
  }

  /** A machine that reported an id has it on file under its own fingerprint or none. */
  ghost predicate ReportsHold(ms: Machines, w: World) {
    forall m :: m in w.reported ==> Settled(FilesOf(w, m), ms(m), w.reported[m])
  }

  /** One id is on file under one fingerprint; an id on file without one, and a seed on file
      without an id, are on one machine only. */
  ghost predicate IdsApart(w: World) {
    && (forall m, n :: FilesOf(w, m).id.Some? && FilesOf(w, m).id == FilesOf(w, n).id && m != n ==>
          FilesOf(w, m).fingerprint.Some? && FilesOf(w, m).fingerprint == FilesOf(w, n).fingerprint)
    && (forall m, n, f :: FilesOf(w, m).id.None? && FilesOf(w, m).seed.Some? ==>
          FilesOf(w, n).id != Some(Derived(f, FilesOf(w, m).seed.value)))
    && (forall m, n :: FilesOf(w, m).id.None? && FilesOf(w, m).seed.Some? && m != n ==>
          FilesOf(w, n).seed != FilesOf(w, m).seed)
  }

  ghost predicate Inv(ms: Machines, w: World) { Known(w) && ReportsHold(ms, w) && IdsApart(w) }

  lemma StartFiles(ms: Machines, w: World, a: Act, m: Machine)
    requires a.Start?
    ensures FilesOf(Next(ms, w, a), m) ==
            if m == a.machine then After(FilesOf(w, m), Boot(ms(m), a.drawn, a.recordOk), a.budget) else FilesOf(w, m)
  {
  }

  /** What a boot can leave: the seed it found or drew, and an id it found, or derived from
      either seed. */
  lemma AfterBoot(d: Files, b: Boot, budget: nat)
    ensures var after := After(d, b, budget);
            && ((d.fingerprint.Some? ==> d.id.Some?) ==> (after.fingerprint.Some? ==> after.id.Some?))
            && (after.seed == d.seed || after.seed == Some(b.drawn))
            && (|| after.id == Some(Derived(b.fingerprint, b.drawn))
                || (after.id == d.id && (after.fingerprint == d.fingerprint || d.fingerprint.None?))
                || (d.id.None? && d.seed.Some? && after.id == Some(Derived(b.fingerprint, d.seed.value))))
  {
    AfterSteps(d, b, budget);
  }

  lemma StartInv(ms: Machines, w: World, a: Act)
    requires Inv(ms, w) && a.Start? && Legal(w, a)
    ensures Inv(ms, Next(ms, w, a))
  {
    var d, b := FilesOf(w, a.machine), Boot(ms(a.machine), a.drawn, a.recordOk);
    AfterBoot(d, b, a.budget);
    BootSettles(d, b, a.budget);
    forall m ensures FilesOf(Next(ms, w, a), m) == if m == a.machine then After(d, b, a.budget) else FilesOf(w, m) {
      StartFiles(ms, w, a, m);
    }
    KnownAfter(ms, w, a);
    ApartAfter(ms, w, a);
  }

  lemma KnownAfter(ms: Machines, w: World, a: Act)
    requires Known(w) && a.Start?
    ensures Known(Next(ms, w, a))
  {
    AfterBoot(FilesOf(w, a.machine), Boot(ms(a.machine), a.drawn, a.recordOk), a.budget);
    forall m ensures FilesOf(Next(ms, w, a), m) ==
        if m == a.machine then After(FilesOf(w, m), Boot(ms(m), a.drawn, a.recordOk), a.budget) else FilesOf(w, m) {
      StartFiles(ms, w, a, m);
    }
  }

  lemma ApartAfter(ms: Machines, w: World, a: Act)
    requires Known(w) && IdsApart(w) && a.Start? && Legal(w, a)
    ensures IdsApart(Next(ms, w, a))
  {
    AfterBoot(FilesOf(w, a.machine), Boot(ms(a.machine), a.drawn, a.recordOk), a.budget);
    forall m ensures FilesOf(Next(ms, w, a), m) ==
        if m == a.machine then After(FilesOf(w, m), Boot(ms(m), a.drawn, a.recordOk), a.budget) else FilesOf(w, m) {
      StartFiles(ms, w, a, m);
    }
  }

  lemma CopyInv(ms: Machines, w: World, a: Act)
    requires Inv(ms, w) && a.Copy? && Legal(w, a)
    ensures Inv(ms, Next(ms, w, a))
  {
    var after := Next(ms, w, a);
    forall m ensures FilesOf(after, m) == FilesOf(w, if m == a.to then a.from else m) {}
  }

  lemma SuperviseInv(ms: Machines, w: World, a: Act)
    requires Inv(ms, w) && a.Supervise? && Legal(w, a)
    ensures Inv(ms, Next(ms, w, a))
  {
    var after := Next(ms, w, a);
    forall m ensures FilesOf(after, m) == if m == a.machine then Try(FilesOf(w, m), Watch(a.name)) else FilesOf(w, m) {}
  }

  lemma {:induction false} RunInv(ms: Machines, acts: seq<Act>)
    requires LegalRun(ms, acts)
    ensures Inv(ms, Run(ms, acts))
  {
    if acts != [] {
      var w, a := Run(ms, acts[..|acts| - 1]), acts[|acts| - 1];
      RunInv(ms, acts[..|acts| - 1]);
      match a
      case Start(_, _, _, _) => StartInv(ms, w, a);
      case Copy(_, _) => CopyInv(ms, w, a);
      case Supervise(_, _) => SuperviseInv(ms, w, a);
    }
  }

  /** Clone uniqueness: starting from empty workspaces, with crashes after any write, quiet
      failures to record the fingerprint, and copies of recorded workspaces, two machines with
      different fingerprints never report one id. */
  lemma ClonesGetOwnIds(ms: Machines, acts: seq<Act>, m: Machine, n: Machine)
    requires LegalRun(ms, acts) && m in Run(ms, acts).reported && n in Run(ms, acts).reported && ms(m) != ms(n)
    ensures Run(ms, acts).reported[m] != Run(ms, acts).reported[n]
  {
    RunInv(ms, acts);
    assert Settled(FilesOf(Run(ms, acts), m), ms(m), Run(ms, acts).reported[m]);
    assert Settled(FilesOf(Run(ms, acts), n), ms(n), Run(ms, acts).reported[n]);
  }

  /** The law end to end: a workspace whose boot recorded the fingerprint may be copied, and on a
      machine with another one the copy reports another id. */
  lemma CopyGetsOwnId(ms: Machines, acts: seq<Act>, m: Machine, n: Machine, s: Seed, t: Seed, ok: bool)
    requires LegalRun(ms, acts) && s !in Run(ms, acts).drawn && t !in Run(ms, acts).drawn && s != t
    requires ms(m) != ms(n)
    ensures var more := acts + [Start(m, s, true, 3)] + [Copy(m, n)] + [Start(n, t, ok, 3)];
            && LegalRun(ms, more) && m in Run(ms, more).reported && n in Run(ms, more).reported
            && Run(ms, more).reported[m] != Run(ms, more).reported[n]
  {
    var first := acts + [Start(m, s, true, 3)];
    var second := first + [Copy(m, n)];
    RunPush(ms, acts, Start(m, s, true, 3));
    BootLeaves(FilesOf(Run(ms, acts), m), Boot(ms(m), s, true), 3);
    RunPush(ms, first, Copy(m, n));
    RunPush(ms, second, Start(n, t, ok, 3));
    BootLeaves(FilesOf(Run(ms, second), n), Boot(ms(n), t, ok), 3);
    ClonesGetOwnIds(ms, second + [Start(n, t, ok, 3)], m, n);
  }

  lemma RunPush(ms: Machines, acts: seq<Act>, a: Act)
    ensures Run(ms, acts + [a]) == Next(ms, Run(ms, acts), a)
    ensures LegalRun(ms, acts + [a]) <==> LegalRun(ms, acts) && Legal(Run(ms, acts), a)
  {
    assert (acts + [a])[..|acts|] == acts;
  }

  /** The condition on copies is exact: a workspace that has reported an id takes that id to a
      machine with another fingerprint if and only if the fingerprint was not recorded. */
  lemma CopyExact(d: Files, home: Fingerprint, id: NodeId, b: Boot)
    requires Settled(d, home, id) && b.fingerprint != home
    requires id.Derived? ==> id.seed != b.drawn
    ensures Reports(d, b) == id <==> d.fingerprint.None?
  {
  }
}
