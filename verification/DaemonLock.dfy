/** The daemon lock: a file naming a process, checked and then written by each daemon that
    starts, on a host where processes die and their numbers are used again. */
module DaemonLock {
  import opened Wrappers

  type Pid = nat

  /** A lock file that parses names a process, or none as number zero. */
  datatype Lock = Absent | Malformed | Names(pid: Pid)

  const SCRIPT := "scripts/run_agent_loop.mjs"
  const FLAG := "--daemon"

  /** What a check sees of a process: whether it may signal it, and its command line if that can
      be read. */
  datatype View = View(signalable: bool, commandLine: Option<string>)

  predicate Contains(s: string, part: string) { part <= s || (s != [] && Contains(s[1..], part)) }

  /** Whether a check takes a process for a daemon that lives. */
  predicate Recognises(v: View) {
    v.signalable && v.commandLine.Some? && Contains(v.commandLine.value, SCRIPT) && Contains(v.commandLine.value, FLAG)
  }

  /** The part stands somewhere in the text. */
  ghost predicate Within(s: string, part: string) { exists i :: 0 <= i <= |s| && part <= s[i..] }

  lemma {:induction false} ContainsExactly(s: string, part: string)
    ensures Contains(s, part) <==> Within(s, part)
  {
    assert s[0..] == s;
    if s != [] {
      ContainsExactly(s[1..], part);
      if Within(s[1..], part) {
        var i :| 0 <= i <= |s| - 1 && part <= s[1..][i..];
        assert s[1..][i..] == s[i + 1..];
      }
      if Within(s, part) && !(part <= s) {
        var i :| 0 <= i <= |s| && part <= s[i..];
        assert s[1..][i - 1..] == s[i..];
      }
    }
  }

  /** A check takes for a daemon what it may signal and what has both words in its command line. */
  lemma RecognisesExactly(v: View)
    ensures Recognises(v) <==>
            && v.signalable && v.commandLine.Some?
            && Within(v.commandLine.value, "scripts/run_agent_loop.mjs") && Within(v.commandLine.value, "--daemon")
  {
    if v.commandLine.Some? {
      ContainsExactly(v.commandLine.value, SCRIPT);
      ContainsExactly(v.commandLine.value, FLAG);
    }
  }

  /** A live process: whether it is a daemon, and how a check sees it. */
  datatype Process = Process(daemon: bool, view: View)

  type Processes = map<Pid, Process>

  datatype Host = Host(lock: Lock, processes: Processes)

  predicate IsDaemon(ps: Processes, pid: Pid) { pid in ps && ps[pid].daemon }

  /** Whether the lock is honoured: the process it names lives and is recognised. */
  predicate Held(lock: Lock, ps: Processes) {
    lock.Names? && lock.pid != 0 && lock.pid in ps && Recognises(ps[lock.pid].view)
  }

  class LockFile {
    var lock: Lock

    constructor (lock: Lock)
      ensures this.lock == lock
    {
      this.lock := lock;
    }

    /** Run by the process `pid` itself, so it is among the live ones. A lock that does not
        parse makes the whole step fail quietly, and the daemon goes on without a lock. */
    method Acquire(ps: Processes, pid: Pid) returns (goOn: bool)
      modifies this
      ensures goOn == !Held(old(lock), ps)
      ensures lock == if old(lock).Malformed? || !goOn then old(lock) else Names(pid)
    {
      if lock.Malformed? {
        return true;
      }
      if lock.Names? && lock.pid != 0 && lock.pid in ps {
        if Recognises(ps[lock.pid].view) {
          return false;
        }
      }
      lock := Names(pid);
      goOn := true;
    }
  }

  // ------------------------------------------------------------------ whole runs

  /** Processes that come to life as later checks will see them, and processes that die. */
  datatype Step =
    | StartDaemon(pid: Pid, view: View)
    | StartOther(pid: Pid, view: View)
    | Die(pid: Pid)

  function Alive(h: Host, pid: Pid, view: View): Host {
    h.(processes := h.processes[pid := Process(true, view)])
  }

  /** What a daemon that goes on leaves in the lock file. */
  function Written(h: Host, pid: Pid): Host { if h.lock.Malformed? then h else h.(lock := Names(pid)) }

  /** The process comes to life, checks, and exits or takes the lock, before anything else
      happens. */
  function Started(h: Host, pid: Pid, view: View): Host {
    var up := Alive(h, pid, view);
    if Held(up.lock, up.processes) then h.(processes := h.processes - {pid}) else Written(up, pid)
  }

  function Next(h: Host, s: Step): Host {
    match s
    case StartDaemon(p, view) => if p == 0 || p in h.processes then h else Started(h, p, view)
    case StartOther(p, view) =>
      if p == 0 || p in h.processes then h else h.(processes := h.processes[p := Process(false, view)])
    case Die(p) => h.(processes := h.processes - {p})
  }

  function Run(h: Host, steps: seq<Step>): Host {
    if steps == [] then h else Next(Run(h, steps[..|steps| - 1]), steps[|steps| - 1])
  }

  /** At most one daemon lives, and the lock names it. */
  ghost predicate Single(h: Host) { forall p :: IsDaemon(h.processes, p) ==> h.lock == Names(p) && p != 0 }

  /** Daemons that live are recognised. */
  ghost predicate Recognised(h: Host) { forall p :: IsDaemon(h.processes, p) ==> Recognises(h.processes[p].view) }

  /** Whether a step brings a daemon to life. */
  predicate Starts(h: Host, s: Step) { s.StartDaemon? && s.pid != 0 && s.pid !in h.processes }

  /** One start keeps the rule exactly when the lock is not malformed and the daemon that lives,
      if one does, is recognised; nothing else breaks it. */
  lemma StepExactly(h: Host, s: Step)
    requires Single(h)
    ensures Single(Next(h, s)) <==> (Starts(h, s) ==> !h.lock.Malformed? && Recognised(h))
  {
    var after := Next(h, s);
    if Starts(h, s) {
      var up := Alive(h, s.pid, s.view);
      forall d ensures IsDaemon(up.processes, d) <==> d == s.pid || IsDaemon(h.processes, d) {}
      if h.lock.Malformed? {
        assert IsDaemon(after.processes, s.pid);
      } else if !Recognised(h) {
        var d :| IsDaemon(h.processes, d) && !Recognises(h.processes[d].view);
        assert !Held(up.lock, up.processes) && IsDaemon(after.processes, d) && after.lock == Names(s.pid);
      }
    } else {
      forall d | IsDaemon(after.processes, d) ensures IsDaemon(h.processes, d) {}
    }
  }

  /** Every start of the run finds a lock that is not malformed and no daemon that it does not
      recognise. */
  ghost predicate StartsWell(h: Host, steps: seq<Step>) {
    forall i :: 0 <= i < |steps| && Starts(Run(h, steps[..i]), steps[i]) ==>
      !Run(h, steps[..i]).lock.Malformed? && Recognised(Run(h, steps[..i]))
  }

  ghost predicate AlwaysSingle(h: Host, steps: seq<Step>) {
    forall i :: 0 <= i <= |steps| ==> Single(Run(h, steps[..i]))
  }

  lemma Prefixes(steps: seq<Step>, s: Step)
    ensures forall i :: 0 <= i <= |steps| ==> (steps + [s])[..i] == steps[..i]
    ensures (steps + [s])[..|steps| + 1] == steps + [s]
  {
  }

  /** Single daemon, run by run: with starts that do not overlap, at most one daemon lives and the
      lock names it, at every moment, whatever dies and whatever number is used again, if and only
      if every start finds a proper lock and recognises the daemon that lives. */
  lemma {:induction false} RunExactly(h: Host, steps: seq<Step>)
    requires Single(h)
    ensures AlwaysSingle(h, steps) <==> StartsWell(h, steps)
  {
    if steps == [] {
      assert steps[..0] == [];
    } else {
      var front, s := steps[..|steps| - 1], steps[|steps| - 1];
      RunExactly(h, front);
      Prefixes(front, s);
      assert steps == front + [s];
      RunPush(h, front, s);
    }
  }

  lemma RunPush(h: Host, front: seq<Step>, s: Step)
    requires Single(h) && (AlwaysSingle(h, front) <==> StartsWell(h, front))
    ensures AlwaysSingle(h, front + [s]) <==> StartsWell(h, front + [s])
  {
    var steps := front + [s];
    Prefixes(front, s);
    assert front[..|front|] == front && steps[|front|] == s;
    assert Run(h, steps) == Next(Run(h, front), s);
    if AlwaysSingle(h, steps) {
      forall i | 0 <= i <= |front| ensures Single(Run(h, front[..i])) { assert Single(Run(h, steps[..i])); }
      assert Single(Run(h, steps[..|steps|]));
      StepExactly(Run(h, front), s);
      forall i | 0 <= i < |steps| && Starts(Run(h, steps[..i]), steps[i])
        ensures !Run(h, steps[..i]).lock.Malformed? && Recognised(Run(h, steps[..i])) {}
    }
    if StartsWell(h, steps) {
      forall i | 0 <= i < |front| && Starts(Run(h, front[..i]), front[i])
        ensures !Run(h, front[..i]).lock.Malformed? && Recognised(Run(h, front[..i]))
      {
        assert steps[i] == front[i];
      }
      assert Single(Run(h, front[..|front|]));
      StepExactly(Run(h, front), s);
      forall i | 0 <= i <= |steps| ensures Single(Run(h, steps[..i])) {
        if i <= |front| { assert Single(Run(h, front[..i])); }
      }
    }
  }

  /** Every daemon that starts in the run will be recognised. */
  predicate AllRecognised(steps: seq<Step>) { forall s :: s in steps && s.StartDaemon? ==> Recognises(s.view) }

  lemma {:induction false} RunRecognised(h: Host, steps: seq<Step>)
    requires Single(h) && Recognised(h) && !h.lock.Malformed? && AllRecognised(steps)
    ensures Single(Run(h, steps)) && Recognised(Run(h, steps)) && !Run(h, steps).lock.Malformed?
  {
    if steps != [] {
      var before, s := Run(h, steps[..|steps| - 1]), steps[|steps| - 1];
      RunRecognised(h, steps[..|steps| - 1]);
      StepExactly(before, s);
      forall d | IsDaemon(Next(before, s).processes, d) ensures Recognises(Next(before, s).processes[d].view) {
        assert IsDaemon(before.processes, d) || d == s.pid;
      }
    }
  }

  /** For all runs at once: if daemons that start are recognised, as is the one that may live, the
      rule holds in every run if and only if the lock file does not start out malformed. */
  lemma SingleExactly(h: Host)
    requires Single(h) && Recognised(h)
    ensures (forall steps :: AllRecognised(steps) ==> Single(Run(h, steps))) <==> !h.lock.Malformed?
  {
    if h.lock.Malformed? {
      var steps := [StartDaemon(Unused(h), PLAIN)];
      PlainIsRecognised();
      StepExactly(h, steps[0]);
      assert steps[..0] == [] && Run(h, steps) == Next(h, steps[0]);
      assert AllRecognised(steps);
    } else {
      forall steps | AllRecognised(steps) ensures Single(Run(h, steps)) {
        RunRecognised(h, steps);
      }
    }
  }

  /** The usual command line, its words ended by null characters. */
  const COMMAND: string := "node\0" + (SCRIPT + ("\0" + (FLAG + "\0")))
  const PLAIN := View(true, Some(COMMAND))

  lemma {:induction false} ContainsAfter(before: string, part: string, after: string)
    ensures Contains(before + (part + after), part)
  {
    if before == [] {
      assert before + (part + after) == part + after;
    } else {
      ContainsAfter(before[1..], part, after);
      assert (before + (part + after))[1..] == before[1..] + (part + after);
    }
  }

  lemma PlainIsRecognised()
    ensures Recognises(PLAIN)
  {
    ContainsAfter("node\0", SCRIPT, "\0" + (FLAG + "\0"));
    ContainsAfter("node\0" + SCRIPT + "\0", FLAG, "\0");
    assert COMMAND == "node\0" + SCRIPT + "\0" + (FLAG + "\0");
  }

  ghost function Bound(s: set<nat>): (b: nat)
    ensures forall x :: x in s ==> x <= b
  {
    if s == {} then 0
    else
      var x :| x in s;
      var b := Bound(s - {x});
      assert forall y :: y in s ==> y == x || y in s - {x};
      if x > b then x else b
  }

  /** A number that no process has. */
  ghost function Unused(h: Host): (p: nat)
    ensures p != 0 && p !in h.processes
  {
    Bound(h.processes.Keys) + 1
  }

  /** A daemon that is not recognised, for whatever reason: on a host where the lock is free, the
      next start takes the lock from it and both run. */
  lemma UnrecognisedDefeats(h: Host, p: Pid, q: Pid, v: View, w: View)
    requires !h.lock.Malformed? && !Held(h.lock, h.processes) && !Recognises(v)
    requires p != q && p != 0 && q != 0 && p !in h.processes && q !in h.processes
    ensures var after := Next(Next(h, StartDaemon(p, v)), StartDaemon(q, w));
            IsDaemon(after.processes, p) && IsDaemon(after.processes, q) && after.lock == Names(q)
  {
    assert Next(h, StartDaemon(p, v)) == Written(Alive(h, p, v), p);
  }

  /** Started from within its own directory, the script is not named by its path. */
  const LOCAL := View(true, Some("node\0run_agent_loop.mjs\0--daemon\0"))
  /** Started by another user, the daemon cannot be signalled, which reads as dead. */
  const FOREIGN := View(false, Some(COMMAND))

  lemma {:induction false} NoSlash(s: string, part: string)
    requires '/' in part && '/' !in s
    ensures !Contains(s, part)
  {
    var j :| 0 <= j < |part| && part[j] == '/';
    if s != [] { NoSlash(s[1..], part); }
  }

  /** The one may be signalled and lacks the path alone, the other lacks the permission alone. */
  lemma LocalAndForeignViews()
    ensures LOCAL.signalable && LOCAL.commandLine.Some? && Within(LOCAL.commandLine.value, "--daemon")
    ensures !FOREIGN.signalable && Recognises(FOREIGN.(signalable := true))
  {
    ContainsAfter("node\0run_agent_loop.mjs\0", FLAG, "\0");
    assert LOCAL.commandLine.value == "node\0run_agent_loop.mjs\0" + (FLAG + "\0");
    ContainsExactly(LOCAL.commandLine.value, FLAG);
    PlainIsRecognised();
  }

  /** Two ways in which a daemon that lives, with a command line that can be read, goes
      unrecognised and is joined by a second one. */
  lemma LocalAndForeign(h: Host, p: Pid, q: Pid, v: View, w: View)
    requires !h.lock.Malformed? && !Held(h.lock, h.processes) && (v == LOCAL || v == FOREIGN)
    requires p != q && p != 0 && q != 0 && p !in h.processes && q !in h.processes
    ensures var after := Next(Next(h, StartDaemon(p, v)), StartDaemon(q, w));
            v.commandLine.Some? && IsDaemon(after.processes, p) && IsDaemon(after.processes, q)
  {
    assert SCRIPT[7] == '/';
    NoSlash(LOCAL.commandLine.value, SCRIPT);
    UnrecognisedDefeats(h, p, q, v, w);
  }

  /** Overlapping starts defeat the lock: when two daemons come to life on a lock that is free
      for both, and each checks before the other writes, both go on. */
  lemma OverlapDefeats(h: Host, p: Pid, q: Pid, v: View)
    requires p != q && p !in h.processes && q !in h.processes
    ensures var both := Alive(Alive(h, p, v), q, v);
            !Held(both.lock, both.processes) ==> !Single(Written(Written(both, p), q))
  {
    var after := Written(Written(Alive(Alive(h, p, v), q, v), p), q);
    assert IsDaemon(after.processes, p) && IsDaemon(after.processes, q);
  }
}
