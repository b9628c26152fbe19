/** Numbers in JSON texts: the grammar of RFC 8259 section 6 as a way to write, to which the reader
    is inverse, and the size from which on a number is read as infinite. */
module Numbers {
  import opened Json
  import opened JsParse
  import opened JsValue
  import opened Wrappers

  // -------------------------------------------------------------- how numbers are written

  /** The parts of section 6 of RFC 8259, as they stand in the text: the exponent with its letter,
      its sign if there is one, and its digits. */
  datatype Exponent = NoExponent | Exponent(letter: Unit, sign: Text, digits: Text)
  datatype Written = Written(minus: bool, whole: Text, fraction: Text, exponent: Exponent)

  predicate Grammatical(w: Written) {
    && w.whole != [] && AllDigits(w.whole) && (|w.whole| > 1 ==> w.whole[0] != '0' as int)
    && AllDigits(w.fraction)
    && (w.exponent.Exponent? ==>
          && (w.exponent.letter == 'e' as int || w.exponent.letter == 'E' as int)
          && (w.exponent.sign == [] || w.exponent.sign == Ascii("+") || w.exponent.sign == Ascii("-"))
          && w.exponent.digits != [] && AllDigits(w.exponent.digits))
  }

  function SpellExponent(e: Exponent): Text {
    if e.NoExponent? then [] else [e.letter] + (e.sign + e.digits)
  }

  function SpellFraction(f: Text): Text { if f == [] then [] else Ascii(".") + f }

  function Spell(w: Written): Text {
    (if w.minus then Ascii("-") else []) + (w.whole + (SpellFraction(w.fraction) + SpellExponent(w.exponent)))
  }

  function Signed(e: Exponent): int
    requires e.Exponent? && AllDigits(e.digits)
  {
    var n: int := DecimalValue(e.digits);
    if e.sign == Ascii("-") then -n else n
  }

  function DecimalOf(w: Written): Decimal
    requires Grammatical(w)
  {
    Decimal(w.minus, w.whole, w.fraction, if w.exponent.NoExponent? then 0 else Signed(w.exponent))
  }

  lemma {:induction false} CountStops(a: Text, rest: Text)
    requires AllDigits(a) && (rest != [] ==> !IsDigit(rest[0]))
    ensures DigitCount(a + rest) == |a|
  {
    if a == [] {
      assert a + rest == rest;
    } else {
      CountStops(a[1..], rest);
      assert (a + rest)[1..] == a[1..] + rest;
    }
  }

  predicate ProperExponent(e: Exponent) { Grammatical(Written(false, [0x30], [], e)) }

  lemma ExponentReads(e: Exponent)
    requires ProperExponent(e) && e.Exponent?
    ensures ReadExponent(SpellExponent(e)) == Some(Signed(e))
  {
    var t := SpellExponent(e);
    assert t[0] == e.letter && t[1..] == e.sign + e.digits;
    if e.sign == [] {
      assert t[1..] == e.digits && t[1] == e.digits[0];
    } else {
      assert |e.sign| == 1 && t[2..] == t[1..][1..] == e.digits && t[1] == e.sign[0];
    }
  }

  lemma FractionReads(f: Text, rest: Text)
    requires AllDigits(f) && (rest != [] ==> !IsDigit(rest[0]) && rest[0] != 0x2e)
    ensures ReadFraction(SpellFraction(f) + rest) == Some((f, rest))
  {
    var t := SpellFraction(f) + rest;
    if f == [] {
      assert t == rest;
    } else {
      CountStops(f, rest);
      assert t[1..] == f + rest && (f + rest)[..|f|] == f && (f + rest)[|f|..] == rest;
    }
  }

  /** The reader, part by part. */
  lemma PartsRead(t: Text, minus: bool, u: Text, n: nat, fraction: Text, rest: Text, exponent: int)
    requires minus == (t != [] && t[0] == 0x2d) && u == (if minus then t[1..] else t)
    requires n == DigitCount(u) && n > 0 && (n > 1 ==> u[0] != 0x30)
    requires ReadFraction(u[n..]) == Some((fraction, rest)) && ReadExponent(rest) == Some(exponent)
    ensures ReadNumber(t) == Some(Decimal(minus, u[..n], fraction, exponent))
  {
  }

  /** Whatever is written so is read as what it says. */
  lemma SpelledReads(w: Written)
    requires Grammatical(w)
    ensures ReadNumber(Spell(w)) == Some(DecimalOf(w))
  {
    var e := SpellExponent(w.exponent);
    var rest := SpellFraction(w.fraction) + e;
    var u := w.whole + rest;
    if w.exponent.Exponent? { ExponentReads(w.exponent); }
    FractionReads(w.fraction, e);
    CountStops(w.whole, rest);
    assert u[..|w.whole|] == w.whole && u[|w.whole|..] == rest && u[0] == w.whole[0];
    SignFirst(w.minus, u);
    PartsRead(Spell(w), w.minus, u, |w.whole|, w.fraction, e, DecimalOf(w).exponent);
  }

  lemma SignFirst(minus: bool, u: Text)
    requires u != [] && u[0] != 0x2d
    ensures var t := (if minus then Ascii("-") else []) + u;
            t != [] && minus == (t[0] == 0x2d) && u == if minus then t[1..] else t
  {
    assert [] + u == u;
  }

  lemma ExponentWritten(t: Text) returns (e: Exponent)
    requires ReadExponent(t).Some?
    ensures ProperExponent(e) && t == SpellExponent(e)
  {
    if t == [] {
      e := NoExponent;
    } else if |t| > 1 && (t[1] == 0x2b || t[1] == 0x2d) {
      e := Exponent(t[0], [t[1]], t[2..]);
      SignedSpelled(t);
    } else {
      e := Exponent(t[0], [], t[1..]);
      assert [t[0]] + ([] + t[1..]) == t;
    }
  }

  lemma SignedSpelled(t: Text)
    requires |t| > 1 && (t[1] == 0x2b || t[1] == 0x2d)
    ensures t == [t[0]] + ([t[1]] + t[2..]) && ([t[1]] == Ascii("+") || [t[1]] == Ascii("-"))
  {
  }

  lemma FractionWritten(t: Text)
    requires ReadFraction(t).Some?
    ensures t == SpellFraction(ReadFraction(t).value.0) + ReadFraction(t).value.1
  {
    if t != [] && t[0] == 0x2e {
      var n := DigitCount(t[1..]);
      assert t == [t[0]] + (t[1..][..n] + t[1..][n..]) && [t[0]] == Ascii(".");
    } else {
      assert t == [] + t;
    }
  }

  /** Numbers are read exactly as the grammar writes them. */
  lemma NumbersExactly(t: Text)
    ensures ReadNumber(t).Some? <==> exists w :: Grammatical(w) && t == Spell(w)
    ensures forall w :: Grammatical(w) && t == Spell(w) ==> ReadNumber(t) == Some(DecimalOf(w))
  {
    forall w | Grammatical(w) && t == Spell(w) ensures ReadNumber(t) == Some(DecimalOf(w)) { SpelledReads(w); }
    if ReadNumber(t).Some? { var w := NumberWritten(t); }
  }

  lemma NumberWritten(t: Text) returns (w: Written)
    requires ReadNumber(t).Some?
    ensures Grammatical(w) && t == Spell(w)
  {
    var minus := t[0] == 0x2d;
    var u := if minus then t[1..] else t;
    var n := DigitCount(u);
    var (fraction, rest) := ReadFraction(u[n..]).value;
    FractionWritten(u[n..]);
    var e := ExponentWritten(rest);
    w := Written(minus, u[..n], fraction, e);
    PutTogether(t, u, n, w, rest);
  }

  lemma PutTogether(t: Text, u: Text, n: nat, w: Written, rest: Text)
    requires n <= |u| && w.whole == u[..n] && u[n..] == SpellFraction(w.fraction) + rest
    requires rest == SpellExponent(w.exponent)
    requires if w.minus then t != [] && t[0] == 0x2d && u == t[1..] else u == t
    ensures t == Spell(w)
  {
    assert u == w.whole + (SpellFraction(w.fraction) + SpellExponent(w.exponent));
    assert if w.minus then t == [t[0]] + u && [t[0]] == Ascii("-") else t == [] + u;
  }

  // ---------------------------------------------------------------- what numbers are

  lemma {:induction false} PowerPositive(base: nat, e: nat)
    requires base > 0
    ensures Power(base, e) > 0
  {
    if e > 0 { PowerPositive(base, e - 1); }
  }

  /** Powers of ten, those with a negative exponent too. */
  function TenTo(e: int): real {
    PowerPositive(10, if e >= 0 then e else -e);
    if e >= 0 then Power(10, e) as real else 1.0 / (Power(10, -e) as real)
  }

  lemma TenToOver(k: nat)
    ensures var n: int := k; Power(10, k) > 0 && TenTo(-n) == 1.0 / (Power(10, k) as real)
  {
    PowerPositive(10, k);
  }

  lemma TenToBack(k: nat)
    ensures var n: int := k; TenTo(n) * TenTo(-n) == 1.0
  {
    TenToOver(k);
  }

  lemma TenToLess(e: nat, k: nat)
    requires e >= k
    ensures var x: int, n: int := e, k; TenTo(x) * TenTo(-n) == TenTo(x - n)
  {
    TenToOver(k);
    PowerSum(10, e - k, k);
    Quotient(Power(10, e), Power(10, e - k), Power(10, k));
  }

  lemma TenToUnder(e: nat, k: nat)
    requires e < k
    ensures var x: int, n: int := e, k; TenTo(x) * TenTo(-n) == TenTo(x - n)
  {
    TenToOver(k);
    TenToOver(k - e);
    PowerPositive(10, e);
    PowerSum(10, e, k - e);
    Quotients(Power(10, e), Power(10, k - e), Power(10, k));
  }

  lemma TenToBelow(m: nat, k: nat)
    ensures var x: int, n: int := m, k; TenTo(-x) * TenTo(-n) == TenTo(-x - n)
  {
    TenToOver(m);
    TenToOver(k);
    TenToOver(m + k);
    PowerSum(10, m, k);
    Inverses(Power(10, m), Power(10, k), Power(10, m + k));
  }

  lemma TenToAdds(e: int, k: nat)
    ensures var n: int := k; TenTo(e) * TenTo(-n) == TenTo(e - n)
  {
    if e < 0 {
      TenToBelow(-e, k);
    } else if e < k {
      TenToUnder(e, k);
    } else {
      TenToLess(e, k);
    }
  }

  lemma Quotient(a: int, b: int, c: int)
    requires a == b * c && c > 0
    ensures (a as real) * (1.0 / (c as real)) == b as real
  {
    assert a as real == (b as real) * (c as real);
  }

  lemma Quotients(a: int, b: int, c: int)
    requires c == a * b && a > 0 && b > 0
    ensures (a as real) * (1.0 / (c as real)) == 1.0 / (b as real)
  {
    assert c as real == (a as real) * (b as real);
  }

  lemma Inverses(a: int, b: int, c: int)
    requires c == a * b && a > 0 && b > 0
    ensures (1.0 / (a as real)) * (1.0 / (b as real)) == 1.0 / (c as real)
  {
    assert c as real == (a as real) * (b as real);
  }

  lemma Shifted(a: int, p: int, f: int, digit: int)
    ensures 10 * (a * p + f) + digit == a * (10 * p) + (10 * f + digit)
  {
  }

  lemma {:induction false} DecimalAppend(a: Text, b: Text)
    requires AllDigits(a) && AllDigits(b)
    ensures DecimalValue(a + b) == DecimalValue(a) * Power(10, |b|) + DecimalValue(b)
  {
    if b == [] {
      assert a + b == a;
    } else {
      var front := b[..|b| - 1];
      DecimalAppend(a, front);
      assert (a + b)[..|a + b| - 1] == a + front;
      Shifted(DecimalValue(a), Power(10, |front|), DecimalValue(front), b[|b| - 1] - 0x30);
    }
  }

  /** Whole and fraction, the latter scaled by `q`, both by `t`. */
  function Together(w: real, f: real, q: real, t: real): real { (w + f * q) * t }

  /** The size of the number, its sign aside. */
  function SizeOf(d: Decimal): real
    requires AllDigits(d.whole) && AllDigits(d.fraction)
  {
    var k: int := |d.fraction|;
    Together(DecimalValue(d.whole) as real, DecimalValue(d.fraction) as real, TenTo(-k), TenTo(d.exponent))
  }

  lemma Scaled(size: real, w: real, f: real, p: real, q: real, t: real, m: real, r: real)
    requires size == (w + f * q) * t && p * q == 1.0 && m == w * p + f && t * q == r
    ensures size == m * r
  {
    assert w * p * q == w * (p * q) == w;
    assert size == (w * p + f) * (t * q);
  }

  lemma AddedTo(e: int, k: int, x: real, q: real, t: real)
    requires k >= 0 && x == TenTo(e) && q == TenTo(-k) && t == TenTo(e - k)
    ensures x * q == t
  {
    TenToAdds(e, k);
  }

  lemma TakenBack(k: nat, p: int, q: real)
    requires var n: int := k; p == Power(10, k) && q == TenTo(-n)
    ensures p as real * q == 1.0
  {
    TenToBack(k);
  }

  lemma SizeIs(d: Decimal, k: nat, m: nat, size: real, q: real, x: real, t: real)
    requires AllDigits(d.whole) && AllDigits(d.fraction) && k == |d.fraction|
    requires m == DecimalValue(d.whole + d.fraction) && size == SizeOf(d)
    requires var n: int := k; q == TenTo(-n) && x == TenTo(d.exponent) && t == TenTo(d.exponent - n)
    ensures size == m as real * t
  {
    var w: int, f: int, p: int := DecimalValue(d.whole), DecimalValue(d.fraction), Power(10, k);
    AddedTo(d.exponent, k, x, q, t);
    TakenBack(k, p, q);
    DecimalAppend(d.whole, d.fraction);
    SizeMeets(w, f, p, m, q, x, t, size);
  }

  lemma SizeMeets(w: int, f: int, p: int, m: int, q: real, x: real, t: real, size: real)
    requires m == w * p + f && size == Together(w as real, f as real, q, x) && p as real * q == 1.0 && x * q == t
    ensures size == m as real * t
  {
    Appended(m, w, p, f);
    Scaled(size, w as real, f as real, p as real, q, x, m as real, t);
  }

  lemma Appended(m: int, w: int, p: int, f: int)
    requires m == w * p + f
    ensures m as real == w as real * p as real + f as real
  {
  }

  const TOP: nat := 1024

  /** Half a unit in the last place below two to the power of 1024. */
  lemma OverflowIs()
    ensures Overflow() == Power(2, TOP) - Power(2, SHIFT)
  {
    PowerSum(2, BITS, SHIFT);
    OneLess(Power(2, BITS), Power(2, SHIFT));
  }

  lemma OneLess(a: int, b: int)
    ensures (a - 1) * b == a * b - b
  {
  }

  /** Digits with a power of ten, without fractions. */
  predicate AtLeast(m: nat, e: int, bound: int) {
    if e >= 0 then m * Power(10, e) >= bound else m >= bound * Power(10, -e)
  }

  lemma OverflowsParts(d: Decimal, m: nat, e: int, bound: int)
    requires AllDigits(d.whole) && AllDigits(d.fraction) && bound == Overflow()
    requires m == DecimalValue(d.whole + d.fraction) && e == d.exponent - |d.fraction|
    ensures Overflows(d) <==> AtLeast(m, e, bound)
  {
  }

  lemma OverflowsExactly(d: Decimal, bound: int)
    requires AllDigits(d.whole) && AllDigits(d.fraction) && bound == Overflow()
    ensures Overflows(d) <==> SizeOf(d) >= bound as real
  {
    var e, m := d.exponent - |d.fraction|, DecimalValue(d.whole + d.fraction);
    OverflowsParts(d, m, e, bound);
    SizeReaches(d, m, |d.fraction|, e, bound, SizeOf(d));
  }

  lemma SizeReaches(d: Decimal, m: nat, k: int, e: int, bound: int, size: real)
    requires AllDigits(d.whole) && AllDigits(d.fraction) && k == |d.fraction|
    requires m == DecimalValue(d.whole + d.fraction) && e == d.exponent - k && size == SizeOf(d)
    ensures size >= bound as real <==> AtLeast(m, e, bound)
  {
    var t := TenTo(e);
    SizeIs(d, k, m, size, TenTo(-k), TenTo(d.exponent), t);
    Reaches(m, e, bound, size, t);
  }

  lemma Reaches(m: nat, e: int, bound: int, size: real, t: real)
    requires t == TenTo(e) && size == m as real * t
    ensures size >= bound as real <==> AtLeast(m, e, bound)
  {
    if e >= 0 {
      assert (m * Power(10, e)) as real == m as real * Power(10, e) as real;
    } else {
      PowerPositive(10, -e);
      Divided(m, bound, Power(10, -e));
    }
  }

  lemma Divided(m: int, bound: int, p: int)
    requires p > 0
    ensures m >= bound * p <==> (m as real) * (1.0 / (p as real)) >= bound as real
  {
    assert (m as real) * (1.0 / (p as real)) * (p as real) == m as real;
  }

  /** A number is read as infinite, with its sign, exactly when it is at least that large. */
  lemma NumberSays(l: Text)
    requires IsLexeme(l)
    ensures NumberOf(l) ==
            if SizeOf(ReadNumber(l).value) >= (Power(2, TOP) - Power(2, SHIFT)) as real
            then NotFinite(Ascii(if ReadNumber(l).value.negative then "-Infinity" else "Infinity"))
            else Number(l)
  {
    OverflowsExactly(ReadNumber(l).value, Overflow());
    OverflowIs();
  }
}
