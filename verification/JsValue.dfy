/** What JavaScript does to a value that is, or nearly is, JSON: reading a field, converting to
    a string, and sending it through a JSON text. */
module JsValue {
  import opened Json
  import opened Wrappers

  // ------------------------------------------------------------------- fields

  /** A field of any value, null when there is none. */
  function Field(v: Json, k: Text): Json {
    if v.Object? && HasKey(v.members, k) then Lookup(v.members, k).value else Null
  }

  /** The member at place `i` is read when no member before it has the key. */
  lemma {:induction false} FieldAt(ms: seq<Member>, i: nat, k: Text)
    requires i < |ms| && ms[i].key == k && forall j :: 0 <= j < i ==> ms[j].key != k
    ensures Field(Object(ms), k) == ms[i].value && HasKey(ms, k)
  {
    assert ms[i] in ms;
    if i > 0 { FieldAt(ms[1..], i - 1, k); }
  }

  /** With different keys every member is read. */
  lemma FieldOf(ms: seq<Member>, i: nat)
    requires DistinctKeys(ms) && i < |ms|
    ensures Field(Object(ms), ms[i].key) == ms[i].value && HasKey(ms, ms[i].key)
  {
    FieldAt(ms, i, ms[i].key);
  }

  // ------------------------------------------------------- conversion to a string

  const TO_STRING: Text := Ascii("toString")
  const OBJECT_TEXT: Text := Ascii("[object Object]")

  /** What `String` makes of a value, or none when it throws: an object with a member named
      `toString`, which no JSON value makes callable, cannot be converted. */
  function Rendered(v: Json): Option<Text> {
    match v
    case Null => Some(NULL_TEXT)
    case Bool(b) => Some(if b then TRUE_TEXT else FALSE_TEXT)
    case Number(l) => Some(l)
    case NotFinite(n) => Some(n)
    case String(s) => Some(s)
    case Array(items) => RenderedItems(items)
    case Object(ms) => if HasKey(ms, TO_STRING) then None else Some(OBJECT_TEXT)
  }

  /** Elements are joined with commas, null as nothing. */
  function RenderedItems(items: seq<Json>): Option<Text> {
    if items == [] then Some([])
    else
      var first := if items[0].Null? then Some([]) else Rendered(items[0]);
      var rest := RenderedItems(items[1..]);
      if first.None? || rest.None? then None
      else if |items| == 1 then first
      else Some(first.value + [COMMA] + rest.value)
  }

  /** The values that convert, without their texts. */
  predicate Renders(v: Json) {
    match v
    case Array(items) => forall x :: x in items ==> Renders(x)
    case Object(ms) => !HasKey(ms, TO_STRING)
    case _ => true
  }

  /** Conversion succeeds exactly on values with no object named `toString` at a place that is
      converted. */
  lemma {:induction false} RendersExactly(v: Json)
    ensures Rendered(v).Some? <==> Renders(v)
    decreases v, 1
  {
    if v.Array? { ItemsRenderExactly(v.items); }
  }

  lemma {:induction false} ItemsRenderExactly(items: seq<Json>)
    ensures RenderedItems(items).Some? <==> forall x :: x in items ==> Renders(x)
    decreases items, 0
  {
    if items != [] {
      RendersExactly(items[0]);
      ItemsRenderExactly(items[1..]);
      assert items == [items[0]] + items[1..];
    }
  }

  /** Objects, and arrays element by element from the right. */
  lemma ObjectRendered(ms: seq<Member>)
    ensures Rendered(Object(ms)) == if HasKey(ms, Ascii("toString")) then None else Some(Ascii("[object Object]"))
  {
  }

  lemma {:induction false} ArrayRendered(items: seq<Json>, x: Json)
    requires Renders(Array(items)) && Renders(x)
    ensures RenderedItems(items).Some? && Rendered(x).Some?
    ensures RenderedItems(items + [x]) ==
            Some((if items == [] then [] else RenderedItems(items).value + Ascii(","))
                 + if x.Null? then [] else Rendered(x).value)
  {
    RendersExactly(x);
    RendersExactly(Array(items));
    CommaIs();
    var last := if x.Null? then [] else Rendered(x).value;
    if items == [] {
      assert items + [x] == [x] && [x][1..] == [] && [] + last == last;
    } else {
      var rest := items[1..];
      assert (items + [x])[1..] == rest + [x] && items == [items[0]] + rest;
      ArrayRendered(rest, x);
      RendersExactly(Array(rest));
      RendersExactly(items[0]);
      var first := if items[0].Null? then [] else Rendered(items[0]).value;
      if rest == [] {
        assert [] + last == last;
      } else {
        Joined(first, RenderedItems(rest).value, last);
      }
    }
  }

  lemma CommaIs()
    ensures [COMMA] == Ascii(",")
  {
  }

  lemma Joined(first: Text, rest: Text, last: Text)
    ensures first + [COMMA] + (rest + Ascii(",") + last) == first + [COMMA] + rest + Ascii(",") + last
  {
  }

  // ---------------------------------------------------------- numbers that are read

  function Power(base: nat, e: nat): nat { if e == 0 then 1 else base * Power(base, e - 1) }

  // Numbers have 53 significant bits and are below two to the power of 1024.
  const BITS: nat := 54
  const SHIFT: nat := 970

  /** The numbers from here on are rounded to infinity: halfway between the greatest finite
      number and the next power of two. */
  function Overflow(): int { (Power(2, BITS) - 1) * Power(2, SHIFT) }

  predicate Overflows(d: Decimal)
    requires AllDigits(d.whole) && AllDigits(d.fraction)
  {
    var digits := DecimalValue(d.whole + d.fraction);
    var e := d.exponent - |d.fraction|;
    if e >= 0 then digits * Power(10, e) >= Overflow() else digits >= Overflow() * Power(10, -e)
  }

  const INFINITY: Text := Ascii("Infinity")
  const MINUS_INFINITY: Text := Ascii("-Infinity")

  /** The number that a text spells. */
  function NumberOf(l: Text): Json {
    var d := ReadNumber(l);
    if d.Some? && Overflows(d.value) then NotFinite(if d.value.negative then MINUS_INFINITY else INFINITY)
    else Number(l)
  }

  /** The value with its numbers read. */
  function Evaluated(v: Json): Json
    decreases v, 0
  {
    match v
    case Number(l) => NumberOf(l)
    case Array(items) => Array(EvaluatedItems(items))
    case Object(ms) => Object(EvaluatedMembers(ms))
    case _ => v
  }

  function EvaluatedItems(items: seq<Json>): (r: seq<Json>)
    ensures |r| == |items| && forall i :: 0 <= i < |r| ==> r[i] == Evaluated(items[i])
    decreases items, 1
  {
    if items == [] then [] else [Evaluated(items[0])] + EvaluatedItems(items[1..])
  }

  function EvaluatedMembers(ms: seq<Member>): (r: seq<Member>)
    ensures |r| == |ms| && forall i :: 0 <= i < |r| ==> r[i] == Member(ms[i].key, Evaluated(ms[i].value))
    decreases ms, 1
  {
    if ms == [] then [] else [Member(ms[0].key, Evaluated(ms[0].value))] + EvaluatedMembers(ms[1..])
  }

  /** `JSON.parse`. */
  function Parse(t: Text): Option<Json> {
    match ParseText(t)
    case None => None
    case Some(v) => Some(Evaluated(v))
  }

  /** What a text says; one that is no JSON says nothing. */
  function Read(t: Text): Json {
    match Parse(t)
    case Some(v) => v
    case None => Null
  }

  // -------------------------------------------------------- values that are printed

  /** What can be printed: JSON but for numbers that are not finite. */
  ghost predicate Printable(v: Json) {
    match v
    case Number(l) => IsLexeme(l)
    case Array(items) => forall x :: x in items ==> Printable(x)
    case Object(ms) => DistinctKeys(ms) && forall m :: m in ms ==> Printable(m.value)
    case _ => true
  }

  /** No number is written so that it would be read as infinite. */
  ghost predicate InRange(v: Json) {
    match v
    case Number(l) => NumberOf(l) == Number(l)
    case Array(items) => forall x :: x in items ==> InRange(x)
    case Object(ms) => forall m :: m in ms ==> InRange(m.value)
    case _ => true
  }

  /** A value that a program holds. */
  ghost predicate Proper(v: Json) { Printable(v) && InRange(v) }

  type Value = v: Json | Proper(v) witness Null

  /** No number at any depth is NaN or infinite. */
  predicate Finite(v: Json) {
    match v
    case NotFinite(_) => false
    case Array(items) => forall x :: x in items ==> Finite(x)
    case Object(ms) => forall m :: m in ms ==> Finite(m.value)
    case _ => true
  }

  /** The value with null in place of the numbers that are not finite. */
  function Nulled(v: Json): Json
    decreases v, 0
  {
    match v
    case NotFinite(_) => Null
    case Array(items) => Array(NulledItems(items))
    case Object(ms) => Object(NulledMembers(ms))
    case _ => v
  }

  function NulledItems(items: seq<Json>): (r: seq<Json>)
    ensures |r| == |items| && forall i :: 0 <= i < |r| ==> r[i] == Nulled(items[i])
    decreases items, 1
  {
    if items == [] then [] else [Nulled(items[0])] + NulledItems(items[1..])
  }

  function NulledMembers(ms: seq<Member>): (r: seq<Member>)
    ensures |r| == |ms| && forall i :: 0 <= i < |r| ==> r[i] == Member(ms[i].key, Nulled(ms[i].value))
    decreases ms, 1
  {
    if ms == [] then [] else [Member(ms[0].key, Nulled(ms[0].value))] + NulledMembers(ms[1..])
  }

  lemma {:induction false} WellFormedExactly(v: Json)
    ensures WellFormed(v) <==> Printable(v) && Finite(v)
    decreases v
  {
    match v
    case Array(items) =>
      forall x | x in items ensures WellFormed(x) <==> Printable(x) && Finite(x) { WellFormedExactly(x); }
    case Object(ms) =>
      forall m | m in ms ensures WellFormed(m.value) <==> Printable(m.value) && Finite(m.value) {
        WellFormedExactly(m.value);
      }
    case _ =>
  }

  /** Null is well-formed, so nothing that is not remains. */
  lemma {:induction false} NulledWellFormed(v: Json)
    requires Printable(v)
    ensures WellFormed(Nulled(v)) && (InRange(v) ==> InRange(Nulled(v)))
    decreases v
  {
    match v
    case Array(items) =>
      forall x | x in NulledItems(items) ensures WellFormed(x) && (InRange(v) ==> InRange(x)) {
        var i :| 0 <= i < |items| && NulledItems(items)[i] == x;
        NulledWellFormed(items[i]);
      }
    case Object(ms) =>
      forall m | m in NulledMembers(ms) ensures WellFormed(m.value) && (InRange(v) ==> InRange(m.value)) {
        var i :| 0 <= i < |ms| && NulledMembers(ms)[i] == m;
        NulledWellFormed(ms[i].value);
      }
    case _ =>
  }

  lemma {:induction false} EvaluatedSame(v: Json)
    requires InRange(v)
    ensures Evaluated(v) == v
    decreases v
  {
    match v
    case Array(items) =>
      forall i | 0 <= i < |items| ensures Evaluated(items[i]) == items[i] { EvaluatedSame(items[i]); }
      assert EvaluatedItems(items) == items;
    case Object(ms) =>
      forall i | 0 <= i < |ms| ensures Evaluated(ms[i].value) == ms[i].value { EvaluatedSame(ms[i].value); }
      assert EvaluatedMembers(ms) == ms;
    case _ =>
  }

  lemma {:induction false} PrintNulled(v: Json)
    ensures Print(Nulled(v)) == Print(v)
    decreases v, 0
  {
    match v
    case Array(items) => ItemsPrintNulled(items);
    case Object(ms) => MembersPrintNulled(ms);
    case _ =>
  }

  lemma {:induction false} ItemsPrintNulled(items: seq<Json>)
    ensures PrintItems(NulledItems(items)) == PrintItems(items)
    decreases items, 1
  {
    if items != [] {
      PrintNulled(items[0]);
      ItemsPrintNulled(items[1..]);
      assert NulledItems(items)[1..] == NulledItems(items[1..]);
    }
  }

  lemma {:induction false} MembersPrintNulled(ms: seq<Member>)
    ensures PrintMembers(NulledMembers(ms)) == PrintMembers(ms)
    decreases ms, 1
  {
    if ms != [] {
      PrintNulled(ms[0].value);
      MembersPrintNulled(ms[1..]);
      assert NulledMembers(ms)[1..] == NulledMembers(ms[1..]);
    }
  }

  lemma {:induction false} NulledExactly(v: Json)
    ensures Nulled(v) == v <==> Finite(v)
    decreases v
  {
    match v
    case Array(items) =>
      forall x | x in items ensures Nulled(x) == x <==> Finite(x) { NulledExactly(x); }
      if Nulled(v) == v {
        forall x | x in items ensures Finite(x) {
          var i :| 0 <= i < |items| && items[i] == x;
          assert NulledItems(items)[i] == items[i];
        }
      }
      if Finite(v) {
        assert NulledItems(items) == items;
      }
    case Object(ms) =>
      forall m | m in ms ensures Nulled(m.value) == m.value <==> Finite(m.value) { NulledExactly(m.value); }
      if Nulled(v) == v {
        forall m | m in ms ensures Finite(m.value) {
          var i :| 0 <= i < |ms| && ms[i] == m;
          assert NulledMembers(ms)[i] == ms[i];
        }
      }
      if Finite(v) {
        assert NulledMembers(ms) == ms;
      }
    case _ =>
  }

  /** Printable values print alike exactly when they are alike but for numbers that are not
      finite, which print as null. */
  lemma PrintExactly(v: Json, w: Json)
    requires Printable(v) && Printable(w)
    ensures Print(v) == Print(w) <==> Nulled(v) == Nulled(w)
  {
    PrintNulled(v);
    PrintNulled(w);
    NulledWellFormed(v);
    NulledWellFormed(w);
    if Print(v) == Print(w) { PrintInjective(Nulled(v), Nulled(w)); }
  }

  /** Printing and parsing a proper value, white space after it or not, gives it back with null
      for the numbers that are not finite, so exactly the finite values survive. */
  lemma SentAndRead(v: Json, space: Text)
    requires Proper(v) && forall i :: 0 <= i < |space| ==> IsSpace(space[i])
    ensures Parse(Print(v) + space) == Some(Nulled(v))
    ensures Parse(Print(v) + space) == Some(v) <==> Finite(v)
  {
    PrintNulled(v);
    NulledWellFormed(v);
    ParsePrint(Nulled(v), space);
    EvaluatedSame(Nulled(v));
    NulledExactly(v);
  }

  lemma ReadSent(v: Value)
    ensures Read(Print(v)) == Nulled(v)
  {
    SentAndRead(v, []);
    assert Print(v) + [] == Print(v);
  }

  /** An object of proper values under different keys is proper. */
  lemma ProperObject(ms: seq<Member>)
    requires DistinctKeys(ms) && forall m :: m in ms ==> Proper(m.value)
    ensures Proper(Object(ms))
  {
  }

  lemma {:induction false} LookupNulled(ms: seq<Member>, k: Text)
    ensures HasKey(NulledMembers(ms), k) <==> HasKey(ms, k)
    ensures HasKey(ms, k) ==> Lookup(NulledMembers(ms), k) == Some(Nulled(Lookup(ms, k).value))
  {
    if ms != [] {
      LookupNulled(ms[1..], k);
      assert NulledMembers(ms)[1..] == NulledMembers(ms[1..]);
      assert ms == [ms[0]] + ms[1..];
      assert NulledMembers(ms) == [NulledMembers(ms)[0]] + NulledMembers(ms[1..]);
    }
  }

  /** Fields are read the same before and after. */
  lemma FieldNulled(v: Json, k: Text)
    ensures Field(Nulled(v), k) == Nulled(Field(v, k))
  {
    if v.Object? { LookupNulled(v.members, k); }
  }
}
