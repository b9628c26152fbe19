/** What `JSON.parse` gives for a text: values a program can hold, among them infinite numbers
    for literals that are too large. */
module JsParse {
  import opened Json
  import opened JsValue
  import opened Wrappers

  // ------------------------------------------------------------- whatever is read

  lemma {:induction false} ValueWellFormed(s: Text)
    requires ParseValue(s).Some?
    ensures WellFormed(ParseValue(s).value.0)
    decreases |s|, 0
  {
    if IsSpace(s[0]) {
      ValueWellFormed(s[1..]);
    } else if s[0] == OPEN_BRACKET {
      ArrayWellFormed(s[1..]);
    } else if s[0] == OPEN_BRACE {
      ObjectWellFormed(s[1..]);
    }
  }

  lemma {:induction false} ArrayWellFormed(s: Text)
    requires ParseArray(s).Some?
    ensures WellFormed(ParseArray(s).value.0)
    decreases |s|, 2
  {
    var s1 := SkipSpace(s);
    if !(s1 != [] && s1[0] == CLOSE_BRACKET) { ItemsWellFormed(s1); }
  }

  lemma {:induction false} ItemsWellFormed(s: Text)
    requires ParseItems(s).Some?
    ensures forall x :: x in ParseItems(s).value.0 ==> WellFormed(x)
    decreases |s|, 1
  {
    ValueWellFormed(s);
    var s1 := SkipSpace(ParseValue(s).value.1);
    if s1[0] == COMMA { ItemsWellFormed(s1[1..]); }
  }

  lemma {:induction false} ObjectWellFormed(s: Text)
    requires ParseObject(s).Some?
    ensures WellFormed(ParseObject(s).value.0)
    decreases |s|, 3
  {
    var s1 := SkipSpace(s);
    if !(s1 != [] && s1[0] == CLOSE_BRACE) {
      MembersWellFormed(s1);
      AssignedAll(ParseMembers(s1).value.0);
    }
  }

  lemma {:induction false} MembersWellFormed(s: Text)
    requires ParseMembers(s).Some?
    ensures forall m :: m in ParseMembers(s).value.0 ==> WellFormed(m.value)
    decreases |s|, 2
  {
    MemberWellFormed(s);
    var s1 := SkipSpace(ParseMember(s).value.1);
    if s1[0] == COMMA { MembersWellFormed(s1[1..]); }
  }

  lemma {:induction false} MemberWellFormed(s: Text)
    requires ParseMember(s).Some?
    ensures WellFormed(ParseMember(s).value.0.value)
    decreases |s|, 1
  {
    var s0 := SkipSpace(s);
    var rest := SkipSpace(ParseString(s0[1..]).value.1);
    ValueWellFormed(rest[1..]);
  }

  /** Assigning keeps keys apart and brings no other values. */
  lemma {:induction false} Assigned(ms: seq<Member>, m: Member)
    requires DistinctKeys(ms)
    ensures DistinctKeys(Assign(ms, m))
    ensures forall x :: x in Assign(ms, m) ==> x == m || x in ms
  {
    if ms != [] && ms[0].key != m.key {
      Assigned(ms[1..], m);
      assert ms == [ms[0]] + ms[1..];
      var r := Assign(ms[1..], m);
      assert forall x :: x in r ==> x.key != ms[0].key;
    }
  }

  lemma {:induction false} AssignedAll(ms: seq<Member>)
    ensures DistinctKeys(AssignAll(ms))
    ensures forall x :: x in AssignAll(ms) ==> x in ms
  {
    if ms != [] {
      var front, m := ms[..|ms| - 1], ms[|ms| - 1];
      AssignedAll(front);
      Assigned(AssignAll(front), m);
      assert ms == front + [m];
    }
  }

  lemma {:induction false} EvaluatedProper(v: Json)
    requires WellFormed(v)
    ensures Proper(Evaluated(v))
    decreases v
  {
    match v
    case Array(items) =>
      var r := EvaluatedItems(items);
      forall x | x in r ensures Proper(x) {
        var i :| 0 <= i < |r| && r[i] == x;
        EvaluatedProper(items[i]);
      }
    case Object(ms) =>
      var r := EvaluatedMembers(ms);
      forall m | m in r ensures Proper(m.value) {
        var i :| 0 <= i < |r| && r[i] == m;
        EvaluatedProper(ms[i].value);
      }
    case _ =>
  }

  /** Every value that parsing gives is one a program can hold, so what is printed of it parses
      again, to the value with null for its infinite numbers. */
  lemma ParseGivesProper(t: Text)
    requires Parse(t).Some?
    ensures Proper(Parse(t).value)
    ensures Parse(Print(Parse(t).value)) == Some(Nulled(Parse(t).value))
  {
    ValueWellFormed(t);
    EvaluatedProper(ParseText(t).value);
    var v := Parse(t).value;
    SentAndRead(v, []);
    assert Print(v) + [] == Print(v);
  }

  // ---------------------------------------------------------------- 1e400

  lemma {:induction false} PowerSum(base: nat, a: nat, b: nat)
    ensures Power(base, a + b) == Power(base, a) * Power(base, b)
  {
    if a > 0 {
      PowerSum(base, a - 1, b);
      assert Power(base, a + b) == base * Power(base, a - 1 + b);
    }
  }

  /** Ten to a power is at least eight to it. */
  lemma {:induction false} TenAndTwo(n: nat)
    ensures Power(10, n) >= Power(2, 3 * n)
  {
    if n > 0 {
      TenAndTwo(n - 1);
      PowerSum(2, 3, 3 * (n - 1));
      assert Power(2, 3) == 8 by { assert Power(2, 1) == 2 && Power(2, 2) == 4; }
      assert 3 * n == 3 + 3 * (n - 1);
    }
  }

  lemma {:induction false} PowerGrows(a: nat, b: nat)
    requires a <= b
    ensures 1 <= Power(2, a) <= Power(2, b)
  {
    if a < b {
      PowerGrows(a, b - 1);
    } else if a > 0 {
      PowerGrows(a - 1, b - 1);
    }
  }

  const HUGE: Text := Ascii("1e400")

  lemma HugeExponent()
    ensures ReadExponent([0x65, 0x34, 0x30, 0x30]) == Some(400)
  {
    var e: Text := [0x65, 0x34, 0x30, 0x30];
    assert e[1..] == [0x34, 0x30, 0x30] && AllDigits(e[1..]);
    assert e[1..][..2] == [0x34, 0x30] && [0x34, 0x30][..1] == [0x34] && [0x34][..0] == [];
    assert DecimalValue([0x34]) == 4 && DecimalValue([0x34, 0x30]) == 40 && DecimalValue(e[1..]) == 400;
  }

  lemma HugeLexeme()
    ensures IsLexeme(HUGE) && ReadNumber(HUGE) == Some(Decimal(false, [0x31], [], 400))
  {
    var t := HUGE;
    assert t == [0x31, 0x65, 0x34, 0x30, 0x30];
    assert t[1..] == [0x65, 0x34, 0x30, 0x30] && DigitCount(t[1..]) == 0 && DigitCount(t) == 1;
    assert t[..1] == [0x31];
    HugeExponent();
  }

  lemma OverflowBound()
    ensures Overflow() <= Power(2, BITS + SHIFT)
  {
    PowerSum(2, BITS, SHIFT);
    PowerGrows(SHIFT, SHIFT);
  }

  lemma PowerBound(e: nat)
    requires e >= 342
    ensures Power(10, e) >= Overflow()
  {
    TenAndTwo(e);
    PowerGrows(BITS + SHIFT, 3 * e);
    OverflowBound();
  }

  lemma Times(m: nat, p: nat, bound: int)
    requires m > 0 && p >= bound
    ensures m * p >= bound
  {
    assert m * p >= p;
  }

  /** Whatever is not zero and has an exponent this large is read as infinite. */
  lemma TooLarge(d: Decimal)
    requires AllDigits(d.whole) && AllDigits(d.fraction)
    requires DecimalValue(d.whole + d.fraction) > 0 && d.exponent - |d.fraction| >= 342
    ensures Overflows(d)
  {
    PowerBound(d.exponent - |d.fraction|);
    Times(DecimalValue(d.whole + d.fraction), Power(10, d.exponent - |d.fraction|), Overflow());
  }

  lemma HugeOverflows()
    ensures Overflows(Decimal(false, [0x31], [], 400))
  {
    var one: Text := [0x31];
    assert one + [] == one && one[..0] == [] && DecimalValue(one) == 1;
    TooLarge(Decimal(false, one, [], 400));
  }

  /** The literal `1e400` is read as infinite, and that is printed as null. */
  lemma HugeIsInfinite()
    ensures Parse(HUGE) == Some(NotFinite(INFINITY)) && Print(NotFinite(INFINITY)) == Print(Null)
  {
    HugeLexeme();
    HugeOverflows();
    NumberPrintParse(HUGE, []);
    assert HUGE + [] == HUGE;
  }
}
