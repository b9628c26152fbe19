/** `jcsStringify`, the printer of envelopes, audit events and transcripts: where it is the
    canonical form of RFC 8785, and what it makes of objects it does not take for plain. */
module Jcs {
  import opened Json
  import opened CanonicalJson
  import opened JsParse
  import opened JsValue
  import opened Wrappers

  const CONSTRUCTOR: Text := Ascii("constructor")

  /** What is printed in place of a value: an object with a member named `constructor` is not
      taken for a plain one and is converted to a string, which may throw. */
  function Plain(v: Json): Option<Json>
    decreases v, 0
  {
    match v
    case Array(items) =>
      var r := PlainItems(items);
      if r.None? then None else Some(Array(r.value))
    case Object(ms) =>
      if HasKey(ms, CONSTRUCTOR) then
        (if Rendered(v).None? then None else Some(String(Rendered(v).value)))
      else
        var r := PlainMembers(ms);
        if r.None? then None else Some(Object(r.value))
    case _ => Some(v)
  }

  function PlainItems(items: seq<Json>): (r: Option<seq<Json>>)
    ensures r.Some? <==> forall i :: 0 <= i < |items| ==> Plain(items[i]).Some?
    ensures r.Some? ==> |r.value| == |items|
    ensures r.Some? ==> forall i :: 0 <= i < |items| ==> Plain(items[i]) == Some(r.value[i])
    decreases items, 1
  {
    if items == [] then Some([])
    else
      var first, rest := Plain(items[0]), PlainItems(items[1..]);
      assert forall i :: 0 < i < |items| ==> items[i] == items[1..][i - 1];
      assert forall i :: 0 <= i < |items| - 1 ==> items[1..][i] == items[i + 1];
      if first.None? || rest.None? then None else Some([first.value] + rest.value)
  }

  function PlainMembers(ms: seq<Member>): (r: Option<seq<Member>>)
    ensures r.Some? <==> forall i :: 0 <= i < |ms| ==> Plain(ms[i].value).Some?
    ensures r.Some? ==> |r.value| == |ms|
    ensures r.Some? ==> forall i :: 0 <= i < |ms| ==>
              r.value[i].key == ms[i].key && Plain(ms[i].value) == Some(r.value[i].value)
    decreases ms, 1
  {
    if ms == [] then Some([])
    else
      var first, rest := Plain(ms[0].value), PlainMembers(ms[1..]);
      assert forall i :: 0 < i < |ms| ==> ms[i] == ms[1..][i - 1];
      assert forall i :: 0 <= i < |ms| - 1 ==> ms[1..][i] == ms[i + 1];
      if first.None? || rest.None? then None else Some([Member(ms[0].key, first.value)] + rest.value)
  }

  /** The text, or none when the printer throws. */
  function JcsText(v: Json): Option<Text> {
    var p := Plain(v);
    if p.None? then None else Some(Stringify(Rfc8785, p.value))
  }

  /** No object at any depth has a member named `constructor`. */
  ghost predicate ConstructorFree(v: Json) {
    match v
    case Array(items) => forall x :: x in items ==> ConstructorFree(x)
    case Object(ms) => forall m :: m in ms ==> m.key != CONSTRUCTOR && ConstructorFree(m.value)
    case _ => true
  }

  lemma {:induction false} PlainPrintable(v: Json)
    requires Printable(v) && Plain(v).Some?
    ensures Printable(Plain(v).value)
    decreases v
  {
    match v
    case Array(items) =>
      var r := PlainItems(items).value;
      forall x | x in r ensures Printable(x) {
        var i :| 0 <= i < |r| && r[i] == x;
        PlainPrintable(items[i]);
      }
    case Object(ms) =>
      if !HasKey(ms, CONSTRUCTOR) {
        var r := PlainMembers(ms).value;
        forall m | m in r ensures Printable(m.value) {
          var i :| 0 <= i < |r| && r[i] == m;
          PlainPrintable(ms[i].value);
        }
      }
    case _ =>
  }

  /** Exactly the values without such members are printed as they are. */
  lemma {:induction false} PlainExactly(v: Json)
    ensures Plain(v) == Some(v) <==> ConstructorFree(v)
    decreases v
  {
    match v
    case Array(items) =>
      forall i | 0 <= i < |items| ensures Plain(items[i]) == Some(items[i]) <==> ConstructorFree(items[i]) {
        PlainExactly(items[i]);
      }
      ItemsExactly(items);
    case Object(ms) =>
      forall i | 0 <= i < |ms| ensures Plain(ms[i].value) == Some(ms[i].value) <==> ConstructorFree(ms[i].value) {
        PlainExactly(ms[i].value);
      }
      MembersExactly(ms);
    case _ =>
  }

  lemma ItemsExactly(items: seq<Json>)
    requires forall i :: 0 <= i < |items| ==> (Plain(items[i]) == Some(items[i]) <==> ConstructorFree(items[i]))
    ensures Plain(Array(items)) == Some(Array(items)) <==> ConstructorFree(Array(items))
  {
    if Plain(Array(items)) == Some(Array(items)) {
      forall x | x in items ensures ConstructorFree(x) {
        var i :| 0 <= i < |items| && items[i] == x;
      }
    }
    if ConstructorFree(Array(items)) {
      assert forall i :: 0 <= i < |items| ==> items[i] in items;
      assert PlainItems(items).value == items;
    }
  }

  lemma MembersExactly(ms: seq<Member>)
    requires forall i :: 0 <= i < |ms| ==> (Plain(ms[i].value) == Some(ms[i].value) <==> ConstructorFree(ms[i].value))
    ensures Plain(Object(ms)) == Some(Object(ms)) <==> ConstructorFree(Object(ms))
  {
    if Plain(Object(ms)) == Some(Object(ms)) {
      forall m | m in ms ensures m.key != CONSTRUCTOR && ConstructorFree(m.value) {
        var i :| 0 <= i < |ms| && ms[i] == m;
      }
    }
    if ConstructorFree(Object(ms)) {
      assert forall i :: 0 <= i < |ms| ==> ms[i] in ms;
      assert PlainMembers(ms).value == ms;
    }
  }

  // ------------------------------------------------------------ main results

  /** On values without such members the printer is the canonical form of RFC 8785: texts are
      equal exactly for values equal up to the order of members, with null for the numbers that
      are not finite, and parse back to that, with the members in key order at every depth. */
  lemma JcsCanonical(v: Json, w: Json)
    requires Proper(v) && Proper(w) && ConstructorFree(v) && ConstructorFree(w)
    ensures Printable(Nulled(v)) && Printable(Nulled(w))
    ensures JcsText(v) == Some(Stringify(Rfc8785, v))
    ensures JcsText(v) == JcsText(w) <==> MeaningOf(Rfc8785, Nulled(v)) == MeaningOf(Rfc8785, Nulled(w))
    ensures Parse(JcsText(v).value) == Some(Norm(Rfc8785, Nulled(v))) && InKeyOrder(Rfc8785, Norm(Rfc8785, Nulled(v)))
  {
    PlainExactly(v);
    PlainExactly(w);
    StringifyCanonical(Rfc8785, v, w);
    StringifyParse(Rfc8785, v, []);
    assert Stringify(Rfc8785, v) + [] == Stringify(Rfc8785, v);
  }

  /** On any values that print, texts are equal exactly when what is printed in place of them is. */
  lemma JcsEqualExactly(v: Json, w: Json)
    requires Printable(v) && Printable(w) && Plain(v).Some? && Plain(w).Some?
    ensures Printable(Nulled(Plain(v).value)) && Printable(Nulled(Plain(w).value))
    ensures JcsText(v) == JcsText(w) <==>
            MeaningOf(Rfc8785, Nulled(Plain(v).value)) == MeaningOf(Rfc8785, Nulled(Plain(w).value))
  {
    PlainPrintable(v);
    PlainPrintable(w);
    StringifyCanonical(Rfc8785, Plain(v).value, Plain(w).value);
  }

  lemma {:induction false} PlainMeaning(v: Json)
    requires Printable(v) && Plain(v).Some? && Printable(Plain(v).value)
    ensures MeaningOf(Rfc8785, Plain(v).value) == MeaningOf(Rfc8785, v) <==> ConstructorFree(v)
    decreases v
  {
    match v
    case Array(items) =>
      var r := PlainItems(items).value;
      forall i | 0 <= i < |items|
        ensures MeaningOf(Rfc8785, r[i]) == MeaningOf(Rfc8785, items[i]) <==> ConstructorFree(items[i])
      {
        assert r[i] in r && items[i] in items;
        PlainMeaning(items[i]);
      }
      ItemsMeaning(items, r);
    case Object(ms) =>
      if HasKey(ms, CONSTRUCTOR) {
        var m :| m in ms && m.key == CONSTRUCTOR;
      } else {
        var r := PlainMembers(ms).value;
        forall i | 0 <= i < |ms|
          ensures MeaningOf(Rfc8785, r[i].value) == MeaningOf(Rfc8785, ms[i].value) <==> ConstructorFree(ms[i].value)
        {
          assert r[i] in r && ms[i] in ms;
          PlainMeaning(ms[i].value);
        }
        MembersMeaning(ms, r);
      }
    case _ =>
  }

  lemma ItemsMeaning(items: seq<Json>, r: seq<Json>)
    requires Printable(Array(items)) && Printable(Array(r)) && |r| == |items|
    requires forall i :: 0 <= i < |items| ==>
               (MeaningOf(Rfc8785, r[i]) == MeaningOf(Rfc8785, items[i]) <==> ConstructorFree(items[i]))
    ensures MeaningOf(Rfc8785, Array(r)) == MeaningOf(Rfc8785, Array(items)) <==> ConstructorFree(Array(items))
  {
    var e, f := MeaningOf(Rfc8785, Array(r)).elements, MeaningOf(Rfc8785, Array(items)).elements;
    assert forall i :: 0 <= i < |items| ==> e[i] == MeaningOf(Rfc8785, r[i]) && f[i] == MeaningOf(Rfc8785, items[i]);
    if e == f {
      forall x | x in items ensures ConstructorFree(x) {
        var i :| 0 <= i < |items| && items[i] == x;
        assert e[i] == f[i];
      }
    }
    if ConstructorFree(Array(items)) {
      assert forall i :: 0 <= i < |items| ==> items[i] in items;
      assert e == f;
    }
  }

  lemma MembersMeaning(ms: seq<Member>, r: seq<Member>)
    requires Printable(Object(ms)) && Printable(Object(r)) && |r| == |ms| && !HasKey(ms, CONSTRUCTOR)
    requires forall i :: 0 <= i < |ms| ==> r[i].key == ms[i].key
    requires forall i :: 0 <= i < |ms| ==>
               (MeaningOf(Rfc8785, r[i].value) == MeaningOf(Rfc8785, ms[i].value) <==> ConstructorFree(ms[i].value))
    ensures MeaningOf(Rfc8785, Object(r)) == MeaningOf(Rfc8785, Object(ms)) <==> ConstructorFree(Object(ms))
  {
    ObjectFields(Rfc8785, ms);
    ObjectFields(Rfc8785, r);
    var f, g := FieldsOf(Rfc8785, r), FieldsOf(Rfc8785, ms);
    forall i | 0 <= i < |ms|
      ensures ms[i].key in f && ms[i].key in g
      ensures f[ms[i].key] == g[ms[i].key] <==> ConstructorFree(ms[i].value)
    {
      assert r[i] in r && ms[i] in ms;
    }
    forall k ensures k in f <==> k in g { SameKeys(ms, r, k); }
    FieldsAgree(ms, f, g);
  }

  lemma SameKeys(ms: seq<Member>, r: seq<Member>, k: Text)
    requires |r| == |ms| && forall i :: 0 <= i < |ms| ==> r[i].key == ms[i].key
    ensures HasKey(r, k) <==> HasKey(ms, k)
    ensures k in KeptKeys(Rfc8785, r) <==> k in KeptKeys(Rfc8785, ms)
  {
    if HasKey(r, k) {
      var x :| x in r && x.key == k;
      var i :| 0 <= i < |r| && r[i] == x;
      assert ms[i] in ms;
    }
    if HasKey(ms, k) {
      var x :| x in ms && x.key == k;
      var i :| 0 <= i < |ms| && ms[i] == x;
      assert r[i] in r;
    }
  }

  lemma FieldsAgree(ms: seq<Member>, f: map<Text, Meaning>, g: map<Text, Meaning>)
    requires !HasKey(ms, CONSTRUCTOR) && forall k :: k in f <==> k in g
    requires forall k :: k in g ==> HasKey(ms, k)
    requires forall i :: 0 <= i < |ms| ==>
               && ms[i].key in f && ms[i].key in g
               && (f[ms[i].key] == g[ms[i].key] <==> ConstructorFree(ms[i].value))
    ensures f == g <==> ConstructorFree(Object(ms))
  {
    if f == g {
      forall m | m in ms ensures m.key != CONSTRUCTOR && ConstructorFree(m.value) {
        var i :| 0 <= i < |ms| && ms[i] == m;
      }
    }
    if ConstructorFree(Object(ms)) {
      forall k | k in g ensures f[k] == g[k] {
        var x :| x in ms && x.key == k;
        var i :| 0 <= i < |ms| && ms[i] == x;
      }
    }
  }

  /** What is printed in place of a finite value is finite, and in range if the value is. */
  lemma {:induction false} PlainFinite(v: Json)
    requires Plain(v).Some?
    ensures Finite(v) ==> Finite(Plain(v).value)
    ensures InRange(v) ==> InRange(Plain(v).value)
    decreases v
  {
    match v
    case Array(items) =>
      var r := PlainItems(items).value;
      forall x | x in r ensures (Finite(v) ==> Finite(x)) && (InRange(v) ==> InRange(x)) {
        var i :| 0 <= i < |r| && r[i] == x;
        PlainFinite(items[i]);
      }
    case Object(ms) =>
      if !HasKey(ms, CONSTRUCTOR) {
        var r := PlainMembers(ms).value;
        forall m | m in r ensures (Finite(v) ==> Finite(m.value)) && (InRange(v) ==> InRange(m.value)) {
          var i :| 0 <= i < |r| && r[i] == m;
          PlainFinite(ms[i].value);
        }
      }
    case _ =>
  }

  /** The printer keeps everything but the order of members exactly when no object at any depth
      has a member named `constructor` and all numbers are finite. */
  lemma JcsLossless(v: Json)
    requires Proper(v) && JcsText(v).Some?
    ensures Parse(JcsText(v).value).Some? && Printable(Parse(JcsText(v).value).value)
    ensures MeaningOf(Rfc8785, Parse(JcsText(v).value).value) == MeaningOf(Rfc8785, v) <==>
            ConstructorFree(v) && Finite(v)
  {
    var p := Plain(v).value;
    PlainPrintable(v);
    PlainFinite(v);
    PlainExactly(v);
    StringifyParse(Rfc8785, p, []);
    assert Stringify(Rfc8785, p) + [] == Stringify(Rfc8785, p);
    NulledPrintable(p);
    PlainMeaning(v);
    BackFinite(p, v);
  }

  /** What is read back means what the value does only if the value is finite. */
  lemma BackFinite(p: Json, v: Json)
    requires Printable(p) && Printable(v) && Printable(Nulled(p)) && Finite(Nulled(p))
    ensures MeaningOf(Rfc8785, Nulled(p)) == MeaningOf(Rfc8785, v) ==> Finite(v)
  {
    if MeaningOf(Rfc8785, Nulled(p)) == MeaningOf(Rfc8785, v) { SameMeaningFinite(Nulled(p), v); }
  }

  /** All objects with such a member print alike, and throw if one is named `toString` besides. */
  lemma ConstructorErases(ms: seq<Member>, ns: seq<Member>)
    requires HasKey(ms, CONSTRUCTOR) && HasKey(ns, CONSTRUCTOR)
    ensures JcsText(Object(ms)).None? <==> HasKey(ms, TO_STRING)
    ensures !HasKey(ms, TO_STRING) && !HasKey(ns, TO_STRING) ==> JcsText(Object(ms)) == JcsText(Object(ns))
  {
  }

  /** Two values that mean different things and print alike. */
  lemma ConstructorIsLost()
    ensures var k := Ascii("constructor");
            var v, w := Object([Member(k, Null)]), Object([Member(k, Bool(true))]);
            && JcsText(v) == JcsText(w) == Some(Print(String(Ascii("[object Object]"))))
            && Printable(v) && Printable(w) && MeaningOf(Rfc8785, v) != MeaningOf(Rfc8785, w)
            && JcsText(Object([Member(k, Null), Member(Ascii("toString"), Null)])) == None
  {
    var a, b := Member(CONSTRUCTOR, Null), Member(CONSTRUCTOR, Bool(true));
    var t := Member(TO_STRING, Null);
    assert a in [a] && b in [b] && a in [a, t] && t in [a, t];
    assert |CONSTRUCTOR| != |TO_STRING|;
    ObjectFields(Rfc8785, [a]);
    ObjectFields(Rfc8785, [b]);
    assert FieldsOf(Rfc8785, [a])[CONSTRUCTOR] != FieldsOf(Rfc8785, [b])[CONSTRUCTOR];
  }

  /** The text {"k":1e400}, for a key k. */
  function HugeText(k: Text): Text { Print(Object([Member(k, Number(HUGE))])) }

  /** It parses to a value that prints, under both printers, like the one with null, which is what
      is read back: no member is named `constructor` or `__proto__`, and the number is lost. */
  lemma InfinityIsLost(k: Text)
    requires k != CONSTRUCTOR && k != PROTO
    ensures var v, w := Object([Member(k, NotFinite(INFINITY))]), Object([Member(k, Null)]);
            && Parse(HugeText(k)) == Some(v) && v != w && Proper(v) && Proper(w)
            && ConstructorFree(v) && ConstructorFree(w) && ProtoFree(v) && ProtoFree(w)
            && JcsText(v) == JcsText(w) == Some(Print(w)) && Stringify(Stable, v) == Stringify(Stable, w) == Print(w)
            && Parse(Print(w)) == Some(w)
  {
    HugeParses(k);
    OneText(k, Null);
    OneText(k, NotFinite(INFINITY));
    PrintNulledOne(k);
  }

  lemma PrintNulledOne(k: Text)
    ensures var v, w := Object([Member(k, NotFinite(INFINITY))]), Object([Member(k, Null)]);
            Print(v) == Print(w) && Parse(Print(w)) == Some(w)
  {
    var v, w := Object([Member(k, NotFinite(INFINITY))]), Object([Member(k, Null)]);
    assert NulledMembers(v.members) == w.members && NulledMembers(w.members) == w.members;
    PrintNulled(v);
    SentAndRead(w, []);
    assert Print(w) + [] == Print(w);
  }

  /** One member of another name is printed as it is. */
  lemma OneText(k: Text, value: Json)
    requires (value.Null? || value.NotFinite?) && k != PROTO && k != CONSTRUCTOR
    ensures var v := Object([Member(k, value)]);
            && Proper(v) && ConstructorFree(v) && ProtoFree(v)
            && JcsText(v) == Some(Print(v)) && Stringify(Stable, v) == Print(v)
  {
    PlainExactly(Object([Member(k, value)]));
    SortOne(Stable, k, value);
    SortOne(Rfc8785, k, value);
  }

  lemma SortOne(style: Style, k: Text, value: Json)
    requires (value.Null? || value.NotFinite?) && k != PROTO
    ensures Norm(style, Object([Member(k, value)])) == Object([Member(k, value)])
  {
    var m := Member(k, value);
    assert [m][1..] == [] && NormMembers(style, []) == [] && Sort(style, []) == [];
    assert NormMembers(style, [m]) == [m] + [] == [m];
    assert Sort(style, [m]) == Insert(style, m, []) == [m];
  }

  lemma HugeParses(k: Text)
    ensures Parse(HugeText(k)) == Some(Object([Member(k, NotFinite(INFINITY))]))
  {
    var t := Object([Member(k, Number(HUGE))]);
    HugeLexeme();
    HugeOverflows();
    ParsePrint(t, []);
    assert Print(t) + [] == Print(t);
    assert EvaluatedMembers(t.members) == [Member(k, NotFinite(INFINITY))];
  }
}
