/** The deterministic probe engine: which transcripts it accepts, what it says next, and where
    driving it ends. */
module ProbeEngine {
  import opened Session
  import opened Wrappers

  datatype Token = Q | A | S | D | Unknown

  /** A transcript event: its type, and whether it has the shape that type requires. */
  datatype Entry = Entry(token: Token, shaped: bool)

  datatype Output = Ask(question: string) | Summarise(summary: string) | Finish

  datatype Fault = BadShape | BadSequence

  const QUESTION_SET := ["What are you trying to accomplish in this session?",
                         "What constraints should we follow while probing?"]
  const SUMMARY_TEXT := "Probe complete."

  const COMPLETION_ROUNDS := 2

  datatype Analysis = Analysis(rounds: nat, hasSummary: bool, hasDone: bool)

  predicate WellShaped(t: seq<Entry>) { forall e :: e in t ==> e.shaped && e.token != Unknown }

  function Tokens(t: seq<Entry>): seq<Token> { seq(|t|, i requires 0 <= i < |t| => t[i].token) }

  /** The specification: any number of rounds, then perhaps a summary, then perhaps the end. */
  function Rounds(n: nat): seq<Token> { if n == 0 then [] else Rounds(n - 1) + [Q, A] }

  function Form(a: Analysis): seq<Token> {
    Rounds(a.rounds) + (if a.hasDone then [S, D] else if a.hasSummary then [S] else [])
  }

  /** What an analysis has seen so far, an open question aside. */
  ghost predicate Describes(a: Analysis, awaiting: bool, ts: seq<Token>) {
    && (a.hasDone ==> a.hasSummary)
    && (awaiting ==> !a.hasSummary)
    && ts == if awaiting then Form(a) + [Q] else Form(a)
  }

  /** The next token a prefix can go on with. */
  predicate Continues(a: Analysis, awaiting: bool, t: Token) {
    match t
    case Q => !a.hasSummary && !awaiting
    case A => awaiting
    case S => !a.hasSummary && !awaiting
    case D => a.hasSummary && !a.hasDone
    case Unknown => false
  }

  method AnalyzeSequence(ts: seq<Token>) returns (r: Result<Analysis, Fault>)
    ensures r.Ok? ==> Describes(r.value, false, ts)
    ensures r.Err? ==> forall a :: !Describes(a, false, ts)
  {
    var a := Analysis(0, false, false);
    var awaiting := false;
    var i := 0;
    while i < |ts|
      invariant 0 <= i <= |ts|
      invariant Describes(a, awaiting, ts[..i])
    {
      var t := ts[i];
      assert ts[..i + 1] == ts[..i] + [t];
      if !Continues(a, awaiting, t) {
        DeadEnd(a, awaiting, ts, i);
        return Err(BadSequence);
      }
      Extend(a, awaiting, ts[..i], t);
      if t == Q {
        awaiting := true;
      } else if t == A {
        a := a.(rounds := a.rounds + 1);
        awaiting := false;
      } else if t == S {
        a := a.(hasSummary := true);
      } else {
        a := a.(hasDone := true);
      }
      i := i + 1;
    }
    assert ts[..i] == ts;
    if awaiting {
      Dangling(a, ts);
      return Err(BadSequence);
    }
    r := Ok(a);
  }

  /** One more token of a proper continuation. */
  lemma Extend(a: Analysis, awaiting: bool, ts: seq<Token>, t: Token)
    requires Describes(a, awaiting, ts) && Continues(a, awaiting, t)
    ensures match t
            case Q => Describes(a, true, ts + [t])
            case A => Describes(a.(rounds := a.rounds + 1), false, ts + [t])
            case S => Describes(a.(hasSummary := true), false, ts + [t])
            case D => Describes(a.(hasDone := true), false, ts + [t])
            case Unknown => false
  {
    match t
    case Q =>
    case A => assert Rounds(a.rounds) + [] + [Q] + [A] == Rounds(a.rounds) + [Q, A];
    case S => assert Rounds(a.rounds) + [] + [S] == Rounds(a.rounds) + [S];
    case D => assert Rounds(a.rounds) + [S] + [D] == Rounds(a.rounds) + [S, D];
  }

  lemma {:induction false} RoundsAt(n: nat, i: nat)
    requires i < 2 * n
    ensures |Rounds(n)| == 2 * n && Rounds(n)[i] == if i % 2 == 0 then Q else A
  {
    if n > 1 && i < 2 * (n - 1) {
      RoundsAt(n - 1, i);
    } else if n > 1 {
      RoundsAt(n - 1, 0);
    }
  }

  lemma {:induction false} RoundsLength(n: nat)
    ensures |Rounds(n)| == 2 * n
  {
    if n > 0 { RoundsLength(n - 1); }
  }

  /** The token at each place of a form. */
  lemma FormAt(a: Analysis, i: nat)
    requires (a.hasDone ==> a.hasSummary) && i < |Form(a)|
    ensures |Form(a)| == 2 * a.rounds + (if a.hasDone then 2 else if a.hasSummary then 1 else 0)
    ensures Form(a)[i] == if i == 2 * a.rounds then S else if i > 2 * a.rounds then D else if i % 2 == 0 then Q else A
  {
    RoundsLength(a.rounds);
    if i < 2 * a.rounds { RoundsAt(a.rounds, i); }
  }

  /** Forms that agree so far have seen the same rounds and summary. */
  lemma PrefixOfForm(a: Analysis, awaiting: bool, b: Analysis, i: nat)
    requires (a.hasDone ==> a.hasSummary) && (awaiting ==> !a.hasSummary) && (b.hasDone ==> b.hasSummary)
    requires i == |Form(a)| + (if awaiting then 1 else 0) && i < |Form(b)|
    requires Form(b)[..i] == if awaiting then Form(a) + [Q] else Form(a)
    ensures Continues(a, awaiting, Form(b)[i])
  {
    RoundsLength(a.rounds);
    RoundsLength(b.rounds);
    FormAt(b, i);
    if a.hasSummary {
      FormAt(a, 2 * a.rounds);
      assert Form(b)[2 * a.rounds] == S;
      FormAt(b, 2 * a.rounds);
    }
    if awaiting {
      assert Form(b)[i - 1] == Q;
      FormAt(b, i - 1);
    }
  }

  lemma DeadEnd(a: Analysis, awaiting: bool, ts: seq<Token>, i: nat)
    requires i < |ts| && Describes(a, awaiting, ts[..i]) && !Continues(a, awaiting, ts[i])
    ensures forall b :: !Describes(b, false, ts)
  {
    forall b ensures !Describes(b, false, ts) {
      if Describes(b, false, ts) { PrefixOfForm(a, awaiting, b, i); }
    }
  }

  lemma Dangling(a: Analysis, ts: seq<Token>)
    requires Describes(a, true, ts)
    ensures forall b :: !Describes(b, false, ts)
  {
    RoundsLength(a.rounds);
    assert ts[|ts| - 1] == Q && |ts| == 2 * a.rounds + 1;
    forall b ensures !Describes(b, false, ts) {
      if Describes(b, false, ts) { FormAt(b, |ts| - 1); }
    }
  }

  /** A transcript has at most one form, so what it is described by is a function of it. */
  lemma FormUnique(a: Analysis, b: Analysis)
    requires (a.hasDone ==> a.hasSummary) && (b.hasDone ==> b.hasSummary) && Form(a) == Form(b)
    ensures a == b
  {
    RoundsLength(a.rounds);
    RoundsLength(b.rounds);
    if a.hasSummary { FormAt(a, 2 * a.rounds); FormAt(b, 2 * a.rounds); }
    if b.hasSummary { FormAt(b, 2 * b.rounds); FormAt(a, 2 * b.rounds); }
  }

  /** What is to be said after a transcript of this form. */
  function Reply(a: Analysis): Option<Output> {
    if a.hasDone then None
    else if a.hasSummary then Some(Finish)
    else if a.rounds >= COMPLETION_ROUNDS then Some(Summarise(SUMMARY_TEXT))
    else Some(Ask(QUESTION_SET[a.rounds]))
  }

  /** The engine fails exactly on ill-shaped events and on transcripts without a form, and only
      in a session that is probing; otherwise its output is the reply to the form. */
  method Next(phase: Phase, t: seq<Entry>) returns (r: Result<Option<Output>, Fault>)
    ensures phase != Probing ==> r == Ok(None)
    ensures phase == Probing ==> (r.Ok? <==> WellShaped(t) && exists a :: Describes(a, false, Tokens(t)))
    ensures phase == Probing && r.Ok? ==> forall a :: Describes(a, false, Tokens(t)) ==> r.value == Reply(a)
  {
    if phase != Probing {
      return Ok(None);
    }
    var i := 0;
    while i < |t|
      invariant 0 <= i <= |t|
      invariant WellShaped(t[..i])
    {
      if !t[i].shaped || t[i].token == Unknown {
        assert t[i] in t;
        return Err(BadShape);
      }
      i := i + 1;
    }
    assert t[..i] == t;
    var analysis := AnalyzeSequence(Tokens(t));
    if analysis.Err? {
      return Err(analysis.error);
    }
    forall a | Describes(a, false, Tokens(t)) ensures a == analysis.value {
      FormUnique(a, analysis.value);
    }
    r := Ok(Reply(analysis.value));
  }

  // --------------------------------------------------- against the frozen grammar

  const STRICT: seq<Token> := [Q, A, Q, A, S, D]

  ghost predicate Accepted(ts: seq<Token>) { exists a :: Describes(a, false, ts) }

  lemma SmallForms(n: nat)
    ensures Rounds(0) == [] && Rounds(1) == [Q, A] && Rounds(2) == [Q, A, Q, A]
    ensures |Rounds(n)| == 2 * n
  {
    assert Rounds(1) == Rounds(0) + [Q, A];
    assert Rounds(2) == Rounds(1) + [Q, A];
    RoundsLength(n);
  }

  /** The engine and the strict grammar disagree in two ways and no other: a question still
      open is a prefix that is refused, and a summary after any number of rounds but two, or a
      third round, is accepted though no prefix. */
  lemma StrictGrammar(a: Analysis)
    requires a.hasDone ==> a.hasSummary
    ensures Form(a) <= STRICT <==> a.rounds <= COMPLETION_ROUNDS && (a.hasSummary ==> a.rounds == COMPLETION_ROUNDS)
  {
    SmallForms(a.rounds);
    if a.rounds > 2 {
      RoundsAt(a.rounds, 4);
      assert Form(a)[4] == Q;
    }
    if a.rounds < 2 && a.hasSummary { FormAt(a, 2 * a.rounds); }
  }

  lemma StrictPrefixes(k: nat)
    requires k <= 6
    ensures Accepted(STRICT[..k]) <==> k != 1 && k != 3
  {
    SmallForms(0);
    var forms := [Analysis(0, false, false), Analysis(0, false, false), Analysis(1, false, false), Analysis(1,
        false, false),
                  Analysis(2, false, false), Analysis(2, true, false), Analysis(2, true, true)];
    if k == 1 || k == 3 {
      assert Describes(forms[k], true, STRICT[..k]) by { assert STRICT[..k] == Rounds(forms[k].rounds) + [] + [Q]; }
      Dangling(forms[k], STRICT[..k]);
    } else {
      assert Describes(forms[k], false, STRICT[..k]) by { assert STRICT[..k] == Form(forms[k]); }
    }
  }

  // -------------------------------------------------------------- driving the engine

  /** The transcript after the engine spoke and a question was answered. */
  function Spoken(o: Output): seq<Token> {
    match o
    case Ask(_) => [Q, A]
    case Summarise(_) => [S]
    case Finish => [D]
  }

  function Speak(a: Analysis): Analysis {
    match Reply(a)
    case None => a
    case Some(Summarise(_)) => a.(hasSummary := true)
    case Some(Finish) => a.(hasDone := true)
    case Some(Ask(_)) => a.(rounds := a.rounds + 1)
  }

  function Drive(a: Analysis, steps: nat): Analysis { if steps == 0 then a else Speak(Drive(a, steps - 1)) }

  /** Each step of the drive is the engine's output, answered, appended to the transcript. */
  lemma SpeakAppends(a: Analysis)
    requires a.hasDone ==> a.hasSummary
    ensures (Speak(a).hasDone ==> Speak(a).hasSummary)
    ensures Form(Speak(a)) == Form(a) + (if Reply(a).Some? then Spoken(Reply(a).value) else [])
  {
    if a.hasDone {
      assert Form(a) + [] == Form(a);
    } else if a.hasSummary {
      Extend(a, false, Form(a), D);
    } else if a.rounds >= 2 {
      Extend(a, false, Form(a), S);
    } else {
      Extend(a, false, Form(a), Q);
      Extend(a, true, Form(a) + [Q], A);
      assert Form(a) + [Q] + [A] == Form(a) + [Q, A];
    }
  }

  lemma FourSteps(a: Analysis)
    ensures Drive(a, 4) == Speak(Speak(Speak(Speak(a))))
  {
    assert Drive(a, 1) == Speak(a);
    assert Drive(a, 2) == Speak(Speak(a));
    assert Drive(a, 3) == Speak(Speak(Speak(a)));
  }

  /** From every accepted transcript the drive ends, within four steps, in a finished one with
      at least the fixed rounds unless a summary had come early; then the engine is silent. */
  lemma DriveEnds(a: Analysis)
    requires a.hasDone ==> a.hasSummary
    ensures var b := Drive(a, 4);
            && b.hasDone && b.hasSummary && Reply(b).None?
            && b.rounds == if a.hasSummary || a.rounds > COMPLETION_ROUNDS then a.rounds else COMPLETION_ROUNDS
  {
    FourSteps(a);
  }

  /** From nothing it ends in the strict transcript. */
  lemma DriveFromNothing()
    ensures Form(Drive(Analysis(0, false, false), 4)) == STRICT
  {
    DriveEnds(Analysis(0, false, false));
    SmallForms(0);
  }

  /** What the engine says in a drive, in order. */
  function Said(a: Analysis, steps: nat): seq<Output> {
    if steps == 0 then []
    else
      var o := Reply(Drive(a, steps - 1));
      Said(a, steps - 1) + (if o.Some? then [o.value] else [])
  }

  /** The drive from nothing asks the fixed questions in their order, sums up and ends, and says
      no more however long it goes on. */
  lemma {:induction false} SaysInOrder(steps: nat)
    requires steps >= 4
    ensures Said(Analysis(0, false, false), steps) ==
            [Ask("What are you trying to accomplish in this session?"),
             Ask("What constraints should we follow while probing?"),
             Summarise("Probe complete."), Finish]
    ensures Drive(Analysis(0, false, false), steps).hasDone
  {
    var a := Analysis(0, false, false);
    if steps == 4 {
      FourSteps(a);
      assert Drive(a, 1) == Analysis(1, false, false);
      assert Drive(a, 2) == Analysis(2, false, false);
      assert Drive(a, 3) == Analysis(2, true, false);
      assert Said(a, 1) == [Reply(a).value];
      assert Said(a, 2) == Said(a, 1) + [Reply(Drive(a, 1)).value];
      assert Said(a, 3) == Said(a, 2) + [Reply(Drive(a, 2)).value];
    } else {
      SaysInOrder(steps - 1);
    }
  }
}
