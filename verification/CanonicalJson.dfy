/** Canonical printing over one theory of key order: `stableStringify`, with which releases are
    signed, and section 3.2 of RFC 8785, which the printer of envelopes is meant to follow. */
module CanonicalJson {
  import opened Json
  import opened JsValue
  import opened Wrappers

  /** RFC 8785 sorts keys by code unit. Stable assigns the sorted keys to a JavaScript object
      first, which lists array indices before all other keys, in numeric order, and loses
      the key `__proto__`. */
  datatype Style = Stable | Rfc8785

  const PROTO: Text := [0x5f, 0x5f, 0x70, 0x72, 0x6f, 0x74, 0x6f, 0x5f, 0x5f]

  lemma ProtoText()
    ensures PROTO == Ascii("__proto__")
  {
  }

  predicate Keep(style: Style, k: Text) { style.Rfc8785? || k != PROTO }

  // --------------------------------------------------------------- key order

  predicate LexLess(a: Text, b: Text) {
    if b == [] then false
    else if a == [] then true
    else if a[0] != b[0] then a[0] < b[0]
    else LexLess(a[1..], b[1..])
  }

  predicate IsDecimal(k: Text) { k != [] && AllDigits(k) && (k[0] != 0x30 || |k| == 1) }

  predicate IsArrayIndex(k: Text) { IsDecimal(k) && DecimalValue(k) < 0xffff_ffff }

  predicate KeyLess(style: Style, a: Text, b: Text) {
    if style.Stable? && IsArrayIndex(a) && IsArrayIndex(b) then DecimalValue(a) < DecimalValue(b)
    else if style.Stable? && IsArrayIndex(a) != IsArrayIndex(b) then IsArrayIndex(a)
    else LexLess(a, b)
  }

  lemma {:induction false} LexTotal(a: Text, b: Text)
    ensures a == b ==> !LexLess(a, b)
    ensures a != b ==> LexLess(a, b) != LexLess(b, a)
  {
    if a != [] && b != [] && a[0] == b[0] {
      LexTotal(a[1..], b[1..]);
      assert a == [a[0]] + a[1..] && b == [b[0]] + b[1..];
    }
  }

  lemma {:induction false} LexTransitive(a: Text, b: Text, c: Text)
    requires LexLess(a, b) && LexLess(b, c)
    ensures LexLess(a, c)
  {
    if a != [] && b != [] && a[0] == b[0] && b[0] == c[0] { LexTransitive(a[1..], b[1..], c[1..]); }
  }

  lemma {:induction false} DecimalPositive(k: Text)
    requires IsDecimal(k) && k[0] != 0x30
    ensures DecimalValue(k) > 0
  {
    if |k| > 1 { DecimalPositive(k[..|k| - 1]); }
  }

  /** Numbers written without leading zeros are written in one way only. */
  lemma {:induction false} DecimalInjective(a: Text, b: Text)
    requires IsDecimal(a) && IsDecimal(b) && DecimalValue(a) == DecimalValue(b)
    ensures a == b
    decreases |a|
  {
    var a0, b0 := a[..|a| - 1], b[..|b| - 1];
    assert a == a0 + [a[|a| - 1]] && b == b0 + [b[|b| - 1]];
    if |a| > 1 { DecimalPositive(a0); }
    if |b| > 1 { DecimalPositive(b0); }
    assert DecimalValue(a0) == DecimalValue(b0) && a[|a| - 1] == b[|b| - 1];
    if |a| > 1 && |b| > 1 { DecimalInjective(a0, b0); }
  }

  /** A number written in decimal. */
  function Digits(n: nat): (t: Text)
    ensures IsDecimal(t) && DecimalValue(t) == n && (n > 0 ==> t[0] != 0x30)
  {
    if n < 10 then
      var t: Text := [0x30 + n];
      assert t[..0] == [];
      t
    else
      var front := Digits(n / 10);
      var t: Text := front + [0x30 + n % 10];
      assert t[..|t| - 1] == front;
      t
  }

  // What the order is, in the words of the standards: these say it without the functions that
  // compare, and the printers are proved to follow them.

  /** Section 3.2.3 of RFC 8785: up to some place the keys agree, and there the one ends or has
      the smaller code unit. */
  ghost predicate Precedes(a: Text, b: Text) {
    exists k :: 0 <= k < |b| && k <= |a| && a[..k] == b[..k] && (k == |a| || a[k] < b[k])
  }

  /** The key is an array index of JavaScript: a number below 2 to the 32 less one. */
  ghost predicate Indexes(k: Text, n: nat) { n < 4_294_967_295 && k == Digits(n) }

  /** Stable has array indices in front, by number, and then all other keys as RFC 8785 does. */
  ghost predicate Ahead(style: Style, a: Text, b: Text) {
    var x, y := (exists m :: Indexes(a, m)), (exists n :: Indexes(b, n));
    if style.Rfc8785? || (!x && !y) then Precedes(a, b)
    else if x && y then exists m, n :: Indexes(a, m) && Indexes(b, n) && m < n
    else x
  }

  lemma {:induction false} LexPrecedes(a: Text, b: Text)
    requires LexLess(a, b)
    ensures Precedes(a, b)
  {
    if a == [] || a[0] != b[0] {
      assert a[..0] == b[..0];
    } else {
      LexPrecedes(a[1..], b[1..]);
      var k :| 0 <= k < |b| - 1 && k <= |a| - 1 && a[1..][..k] == b[1..][..k]
          && (k == |a| - 1 || a[1..][k] < b[1..][k]);
      assert a[..k + 1] == [a[0]] + a[1..][..k] && b[..k + 1] == [b[0]] + b[1..][..k];
    }
  }

  lemma {:induction false} PrecedesLex(a: Text, b: Text, k: nat)
    requires k < |b| && k <= |a| && a[..k] == b[..k] && (k == |a| || a[k] < b[k])
    ensures LexLess(a, b)
    decreases k
  {
    if k > 0 {
      assert a[0] == a[..k][0] == b[..k][0] == b[0];
      assert a[1..][..k - 1] == a[..k][1..] && b[1..][..k - 1] == b[..k][1..];
      PrecedesLex(a[1..], b[1..], k - 1);
    }
  }

  lemma LexExactly(a: Text, b: Text)
    ensures LexLess(a, b) <==> Precedes(a, b)
  {
    if LexLess(a, b) { LexPrecedes(a, b); }
    if Precedes(a, b) {
      var k :| 0 <= k < |b| && k <= |a| && a[..k] == b[..k] && (k == |a| || a[k] < b[k]);
      PrecedesLex(a, b, k);
    }
  }

  lemma IndexExactly(k: Text)
    ensures IsArrayIndex(k) <==> exists n :: Indexes(k, n)
    ensures forall n :: Indexes(k, n) ==> IsArrayIndex(k) && DecimalValue(k) == n
  {
    if IsArrayIndex(k) {
      DecimalInjective(k, Digits(DecimalValue(k)));
      assert Indexes(k, DecimalValue(k));
    }
  }

  lemma AheadExactly(style: Style, a: Text, b: Text)
    ensures KeyLess(style, a, b) <==> Ahead(style, a, b)
  {
    LexExactly(a, b);
    IndexExactly(a);
    IndexExactly(b);
  }

  lemma KeyTotal(style: Style, a: Text, b: Text)
    ensures a == b ==> !KeyLess(style, a, b)
    ensures a != b ==> KeyLess(style, a, b) != KeyLess(style, b, a)
  {
    LexTotal(a, b);
    if IsArrayIndex(a) && IsArrayIndex(b) && DecimalValue(a) == DecimalValue(b) { DecimalInjective(a, b); }
  }

  lemma KeyTransitive(style: Style, a: Text, b: Text, c: Text)
    requires KeyLess(style, a, b) && KeyLess(style, b, c)
    ensures KeyLess(style, a, c)
  {
    if LexLess(a, b) && LexLess(b, c) { LexTransitive(a, b, c); }
  }

  // ----------------------------------------------------------------- sorting

  ghost predicate Sorted(style: Style, ms: seq<Member>) {
    forall i, j :: 0 <= i < j < |ms| ==> KeyLess(style, ms[i].key, ms[j].key)
  }

  function Insert(style: Style, m: Member, ms: seq<Member>): (r: seq<Member>)
    ensures forall x :: x in r <==> x == m || x in ms
  {
    if ms == [] then [m]
    else if KeyLess(style, m.key, ms[0].key) then [m] + ms
    else
      assert ms == [ms[0]] + ms[1..];
      [ms[0]] + Insert(style, m, ms[1..])
  }

  function Sort(style: Style, ms: seq<Member>): (r: seq<Member>)
    ensures forall x :: x in r <==> x in ms
  {
    if ms == [] then []
    else
      assert ms == [ms[0]] + ms[1..];
      Insert(style, ms[0], Sort(style, ms[1..]))
  }

  lemma {:induction false} InsertSorted(style: Style, m: Member, ms: seq<Member>)
    requires Sorted(style, ms) && forall x :: x in ms ==> x.key != m.key
    ensures Sorted(style, Insert(style, m, ms))
  {
    if ms != [] {
      KeyTotal(style, m.key, ms[0].key);
      if KeyLess(style, m.key, ms[0].key) {
        forall x | x in ms ensures KeyLess(style, m.key, x.key) {
          if x != ms[0] { KeyTransitive(style, m.key, ms[0].key, x.key); }
        }
      } else {
        InsertSorted(style, m, ms[1..]);
        assert forall x :: x in ms[1..] ==> KeyLess(style, ms[0].key, x.key);
      }
    }
  }

  lemma {:induction false} SortSorted(style: Style, ms: seq<Member>)
    requires DistinctKeys(ms)
    ensures Sorted(style, Sort(style, ms))
  {
    if ms != [] {
      SortSorted(style, ms[1..]);
      InsertSorted(style, ms[0], Sort(style, ms[1..]));
    }
  }

  lemma SortedDistinct(style: Style, ms: seq<Member>)
    requires Sorted(style, ms)
    ensures DistinctKeys(ms)
  {
    forall i, j | 0 <= i < j < |ms| ensures ms[i].key != ms[j].key { KeyTotal(style, ms[i].key, ms[j].key); }
  }

  /** The first member of a sorted list is the one whose key is below all the others. */
  lemma SortedHead(style: Style, a: seq<Member>, b: seq<Member>)
    requires Sorted(style, a) && Sorted(style, b) && a != [] && b != []
    requires forall x :: x in a <==> x in b
    ensures a[0] == b[0]
  {
    assert a[0] in b && b[0] in a;
    KeyTotal(style, a[0].key, b[0].key);
    KeyTotal(style, b[0].key, a[0].key);
  }

  lemma HasMember(ms: seq<Member>)
    requires ms != []
    ensures exists x :: x in ms
  {
    assert ms[0] in ms;
  }

  /** There is one sorted list of a given set of members. */
  lemma {:induction false} SortedUnique(style: Style, a: seq<Member>, b: seq<Member>)
    requires Sorted(style, a) && Sorted(style, b)
    requires forall x :: x in a <==> x in b
    ensures a == b
  {
    if a == [] {
      if b != [] { HasMember(b); assert false; }
    } else {
      assert a[0] in b;
      SortedHead(style, a, b);
      SortedDistinct(style, a);
      SortedDistinct(style, b);
      assert a == [a[0]] + a[1..] && b == [b[0]] + b[1..];
      forall x ensures x in a[1..] <==> x in b[1..] {
        if x in a[1..] { assert x in b && x.key != a[0].key; }
        if x in b[1..] { assert x in a && x.key != b[0].key; }
      }
      SortedUnique(style, a[1..], b[1..]);
    }
  }

  // ------------------------------------------------------------- normal form

  function Norm(style: Style, v: Json): Json
    decreases v, 0
  {
    match v
    case Array(items) => Array(NormItems(style, items))
    case Object(ms) => Object(Sort(style, NormMembers(style, ms)))
    case _ => v
  }

  function NormItems(style: Style, items: seq<Json>): (r: seq<Json>)
    ensures |r| == |items|
    ensures forall i :: 0 <= i < |r| ==> r[i] == Norm(style, items[i])
    decreases items, 1
  {
    if items == [] then [] else [Norm(style, items[0])] + NormItems(style, items[1..])
  }

  function NormMembers(style: Style, ms: seq<Member>): seq<Member>
    decreases ms, 1
  {
    if ms == [] then []
    else
      (if Keep(style, ms[0].key) then [Member(ms[0].key, Norm(style, ms[0].value))] else [])
      + NormMembers(style, ms[1..])
  }

  function Stringify(style: Style, v: Json): Text { Print(Norm(style, v)) }

  /** What is left of a value once the order of members is forgotten. */
  datatype Meaning = Leaf(v: Json) | List(elements: seq<Meaning>) | Record(fields: map<Text, Meaning>)

  ghost function MeaningOf(style: Style, v: Json): Meaning
    requires Printable(v)
    decreases v
  {
    match v
    case Array(items) => List(seq(|items|, i requires 0 <= i < |items| => MeaningOf(style, items[i])))
    case Object(ms) => Record(FieldsOf(style, ms))
    case _ => Leaf(v)
  }

  ghost function KeptKeys(style: Style, ms: seq<Member>): set<Text> {
    set m | m in ms && Keep(style, m.key) :: m.key
  }

  ghost function FieldsOf(style: Style, ms: seq<Member>): map<Text, Meaning>
    requires DistinctKeys(ms) && forall m :: m in ms ==> Printable(m.value)
    decreases ms
  {
    map k | k in KeptKeys(style, ms) :: MeaningOf(style, Lookup(ms, k).value)
  }

  lemma {:induction false} NormMembersIn(style: Style, ms: seq<Member>)
    ensures forall m :: m in NormMembers(style, ms) ==>
              exists x :: x in ms && Keep(style, x.key) && m == Member(x.key, Norm(style, x.value))
    ensures forall x :: x in ms && Keep(style, x.key) ==> Member(x.key, Norm(style, x.value)) in NormMembers(style, ms)
  {
    if ms != [] {
      NormMembersIn(style, ms[1..]);
      assert ms == [ms[0]] + ms[1..];
    }
  }

  lemma {:induction false} NormMembersDistinct(style: Style, ms: seq<Member>)
    requires DistinctKeys(ms)
    ensures DistinctKeys(NormMembers(style, ms))
  {
    if ms != [] {
      NormMembersDistinct(style, ms[1..]);
      NormMembersIn(style, ms[1..]);
      forall m | m in NormMembers(style, ms[1..]) ensures m.key != ms[0].key {
        var x :| x in ms[1..] && m == Member(x.key, Norm(style, x.value));
      }
    }
  }

  /** The members of a normalised object: sorted, and one for each member that is kept. */
  lemma NormObject(style: Style, ms: seq<Member>)
    requires DistinctKeys(ms)
    ensures var r := Sort(style, NormMembers(style, ms));
            && Sorted(style, r) && DistinctKeys(r)
            && (forall m :: m in r ==>
                  exists x :: x in ms && Keep(style, x.key) && m == Member(x.key, Norm(style, x.value)))
            && (forall x :: x in ms && Keep(style, x.key) ==> Member(x.key, Norm(style, x.value)) in r)
  {
    NormMembersDistinct(style, ms);
    SortSorted(style, NormMembers(style, ms));
    SortedDistinct(style, Sort(style, NormMembers(style, ms)));
    NormMembersIn(style, ms);
  }

  lemma {:induction false} NormPrintable(style: Style, v: Json)
    requires Printable(v)
    ensures Printable(Norm(style, v))
    decreases v
  {
    match v
    case Array(items) =>
      forall x | x in items ensures Printable(Norm(style, x)) { NormPrintable(style, x); }
    case Object(ms) =>
      NormObject(style, ms);
      forall m | m in ms ensures Printable(Norm(style, m.value)) { NormPrintable(style, m.value); }
    case _ =>
  }

  /** At every depth the members stand in this order. */
  ghost predicate InKeyOrder(style: Style, v: Json) {
    match v
    case Array(items) => forall x :: x in items ==> InKeyOrder(style, x)
    case Object(ms) =>
      && (forall i, j :: 0 <= i < j < |ms| ==> Ahead(style, ms[i].key, ms[j].key))
      && forall m :: m in ms ==> InKeyOrder(style, m.value)
    case _ => true
  }

  lemma SortedAhead(style: Style, ms: seq<Member>)
    ensures Sorted(style, ms) <==> forall i, j :: 0 <= i < j < |ms| ==> Ahead(style, ms[i].key, ms[j].key)
  {
    forall a, b ensures KeyLess(style, a, b) <==> Ahead(style, a, b) { AheadExactly(style, a, b); }
  }

  /** A normal form is in key order. */
  lemma {:induction false} NormInKeyOrder(style: Style, v: Json)
    requires Printable(v)
    ensures InKeyOrder(style, Norm(style, v))
    decreases v
  {
    match v
    case Array(items) =>
      forall x | x in items ensures InKeyOrder(style, Norm(style, x)) { NormInKeyOrder(style, x); }
    case Object(ms) =>
      NormObject(style, ms);
      SortedAhead(style, Norm(style, v).members);
      forall m | m in ms ensures InKeyOrder(style, Norm(style, m.value)) { NormInKeyOrder(style, m.value); }
    case _ =>
  }

  lemma KeyUnique(ms: seq<Member>, x: Member)
    requires DistinctKeys(ms) && x in ms
    ensures forall y :: y in ms && y.key == x.key ==> y == x
  {
  }

  /** The fields an object means, one for each kept member. */
  lemma ObjectFields(style: Style, ms: seq<Member>)
    requires Printable(Object(ms))
    ensures MeaningOf(style, Object(ms)) == Record(FieldsOf(style, ms))
    ensures forall x :: x in ms && Keep(style, x.key) ==>
              x.key in FieldsOf(style, ms) && FieldsOf(style, ms)[x.key] == MeaningOf(style, x.value)
    ensures forall k :: k in FieldsOf(style, ms) ==> exists x :: x in ms && Keep(style, x.key) && x.key == k
  {
    var f := FieldsOf(style, ms);
    forall x | x in ms && Keep(style, x.key) ensures x.key in f && f[x.key] == MeaningOf(style, x.value) {
      KeyUnique(ms, x);
    }
  }

  /** Values that mean the same have one normal form. */
  lemma {:induction false} NormUnique(style: Style, v: Json, w: Json)
    requires Printable(v) && Printable(w) && MeaningOf(style, v) == MeaningOf(style, w)
    ensures Norm(style, v) == Norm(style, w)
    decreases v
  {
    match v
    case Array(items) =>
      var e, f := MeaningOf(style, v).elements, MeaningOf(style, w).elements;
      forall i | 0 <= i < |items| ensures Norm(style, items[i]) == Norm(style, w.items[i]) {
        assert e[i] == f[i];
        NormUnique(style, items[i], w.items[i]);
      }
    case Object(ms) =>
      ObjectFields(style, ms);
      ObjectFields(style, w.members);
      forall x, y | x in ms && y in w.members && x.key == y.key && Keep(style, x.key)
        ensures Norm(style, x.value) == Norm(style, y.value)
      {
        assert FieldsOf(style, ms)[x.key] == MeaningOf(style, y.value);
        NormUnique(style, x.value, y.value);
      }
      NormIncluded(style, ms, w.members);
      NormIncluded(style, w.members, ms);
      NormObject(style, ms);
      NormObject(style, w.members);
      SortedUnique(style, Sort(style, NormMembers(style, ms)), Sort(style, NormMembers(style, w.members)));
    case _ =>
  }

  lemma NormIncluded(style: Style, ms: seq<Member>, ws: seq<Member>)
    requires forall x :: x in ms && Keep(style, x.key) ==> exists y :: y in ws && Keep(style, y.key) && y.key == x.key
    requires forall x, y :: x in ms && y in ws && x.key == y.key && Keep(style, x.key) ==>
               Norm(style, x.value) == Norm(style, y.value)
    ensures forall m :: m in NormMembers(style, ms) ==> m in NormMembers(style, ws)
  {
    NormMembersIn(style, ms);
    NormMembersIn(style, ws);
    forall m | m in NormMembers(style, ms) ensures m in NormMembers(style, ws) {
      var x :| x in ms && Keep(style, x.key) && m == Member(x.key, Norm(style, x.value));
      var y :| y in ws && Keep(style, y.key) && y.key == x.key;
    }
  }

  /** The members of a normalised object. */
  function NormOf(style: Style, ms: seq<Member>): seq<Member> { Sort(style, NormMembers(style, ms)) }

  /** The fields of a normalised object, read in a style that keeps at least as much. */
  lemma NormFields(style: Style, wide: Style, ms: seq<Member>)
    requires Printable(Object(ms)) && (style == wide || wide.Rfc8785?)
    ensures Printable(Object(NormOf(style, ms)))
    ensures MeaningOf(wide, Object(NormOf(style, ms))) == Record(FieldsOf(wide, NormOf(style, ms)))
    ensures forall x :: x in ms && Keep(style, x.key) ==>
              && Printable(Norm(style, x.value))
              && x.key in FieldsOf(wide, NormOf(style, ms))
              && FieldsOf(wide, NormOf(style, ms))[x.key] == MeaningOf(wide, Norm(style, x.value))
    ensures forall k :: k in FieldsOf(wide, NormOf(style, ms)) ==> Keep(style, k) && exists x :: x in ms && x.key == k
  {
    NormPrintable(style, Object(ms));
    NormObject(style, ms);
    var r := NormOf(style, ms);
    ObjectFields(wide, r);
    forall x | x in ms && Keep(style, x.key) ensures Printable(Norm(style, x.value)) {
      NormPrintable(style, x.value);
    }
    var f := FieldsOf(wide, r);
    forall x | x in ms && Keep(style, x.key)
      ensures x.key in f && f[x.key] == MeaningOf(wide, Norm(style, x.value))
    {
      var m := Member(x.key, Norm(style, x.value));
      assert m in r && m.key in f && f[m.key] == MeaningOf(wide, m.value);
    }
  }

  lemma {:induction false} NormMeaning(style: Style, v: Json)
    requires Printable(v)
    ensures Printable(Norm(style, v)) && MeaningOf(style, Norm(style, v)) == MeaningOf(style, v)
    decreases v
  {
    NormPrintable(style, v);
    match v
    case Array(items) =>
      forall i | 0 <= i < |items|
        ensures Printable(Norm(style, items[i]))
            && MeaningOf(style, Norm(style, items[i])) == MeaningOf(style, items[i])
      {
        NormMeaning(style, items[i]);
      }
    case Object(ms) =>
      NormFields(style, style, ms);
      ObjectFields(style, ms);
      forall x | x in ms
        ensures Printable(Norm(style, x.value)) && MeaningOf(style, Norm(style, x.value)) == MeaningOf(style, x.value)
      {
        NormMeaning(style, x.value);
      }
      SameFields(style, ms, FieldsOf(style, NormOf(style, ms)), FieldsOf(style, ms));
    case _ =>
  }

  lemma SameFields(style: Style, ms: seq<Member>, f: map<Text, Meaning>, g: map<Text, Meaning>)
    requires forall k :: k in f ==> Keep(style, k) && exists x :: x in ms && x.key == k
    requires forall k :: k in g ==> exists x :: x in ms && Keep(style, x.key) && x.key == k
    requires forall x :: x in ms && Keep(style, x.key) ==> x.key in f && x.key in g && f[x.key] == g[x.key]
    ensures f == g
  {
    assert f.Keys == g.Keys;
  }

  // ------------------------------------------------------------ main results

  lemma NulledInsert(style: Style, m: Member, ms: seq<Member>, ns: seq<Member>)
    requires ns == NulledMembers(ms)
    ensures NulledMembers(Insert(style, m, ms)) == Insert(style, Member(m.key, Nulled(m.value)), ns)
    decreases |ms|
  {
    if ms != [] && !KeyLess(style, m.key, ms[0].key) {
      NulledInsert(style, m, ms[1..], ns[1..]);
      assert NulledMembers(Insert(style, m, ms))[1..] == NulledMembers(Insert(style, m, ms[1..]));
    } else {
      assert NulledMembers([m] + ms) == [Member(m.key, Nulled(m.value))] + ns;
    }
  }

  lemma {:induction false} NulledSort(style: Style, ms: seq<Member>)
    ensures NulledMembers(Sort(style, ms)) == Sort(style, NulledMembers(ms))
  {
    if ms != [] {
      NulledSort(style, ms[1..]);
      NulledInsert(style, ms[0], Sort(style, ms[1..]), NulledMembers(Sort(style, ms[1..])));
    }
  }

  lemma NulledCons(m: Member, ms: seq<Member>)
    ensures NulledMembers([m] + ms) == [Member(m.key, Nulled(m.value))] + NulledMembers(ms)
  {
  }

  lemma {:induction false} NulledNormMembers(style: Style, ms: seq<Member>)
    requires forall m :: m in ms ==> Nulled(Norm(style, m.value)) == Norm(style, Nulled(m.value))
    ensures NulledMembers(NormMembers(style, ms)) == NormMembers(style, NulledMembers(ms))
  {
    if ms != [] {
      var m, rest := ms[0], ms[1..];
      assert ms == [m] + rest;
      NulledNormMembers(style, rest);
      NulledCons(m, rest);
      if Keep(style, m.key) {
        NulledCons(Member(m.key, Norm(style, m.value)), NormMembers(style, rest));
      } else {
        assert [] + NormMembers(style, rest) == NormMembers(style, rest);
      }
    }
  }

  /** It does not matter whether null is put in place of a number before sorting or after. */
  lemma {:induction false} NulledNorm(style: Style, v: Json)
    ensures Nulled(Norm(style, v)) == Norm(style, Nulled(v))
    decreases v
  {
    match v
    case Array(items) =>
      forall i | 0 <= i < |items| ensures Nulled(Norm(style, items[i])) == Norm(style, Nulled(items[i])) {
        NulledNorm(style, items[i]);
      }
      assert NulledItems(NormItems(style, items)) == NormItems(style, NulledItems(items));
    case Object(ms) =>
      forall m | m in ms ensures Nulled(Norm(style, m.value)) == Norm(style, Nulled(m.value)) {
        NulledNorm(style, m.value);
      }
      NulledNormObject(style, ms);
    case _ =>
  }

  lemma NulledNormObject(style: Style, ms: seq<Member>)
    requires forall m :: m in ms ==> Nulled(Norm(style, m.value)) == Norm(style, Nulled(m.value))
    ensures Nulled(Norm(style, Object(ms))) == Norm(style, Nulled(Object(ms)))
  {
    NulledNormMembers(style, ms);
    NulledSort(style, NormMembers(style, ms));
  }

  lemma {:induction false} NormInRange(style: Style, v: Json)
    requires InRange(v)
    ensures InRange(Norm(style, v))
    decreases v
  {
    match v
    case Array(items) =>
      forall x | x in items ensures InRange(Norm(style, x)) { NormInRange(style, x); }
    case Object(ms) =>
      forall m | m in ms ensures InRange(Norm(style, m.value)) { NormInRange(style, m.value); }
      NormMembersIn(style, ms);
    case _ =>
  }

  lemma NulledPrintable(v: Json)
    requires Printable(v)
    ensures Printable(Nulled(v)) && Finite(Nulled(v)) && (Finite(v) ==> Nulled(v) == v)
  {
    NulledWellFormed(v);
    WellFormedExactly(Nulled(v));
    NulledExactly(v);
  }

  lemma StringifyNulled(style: Style, v: Json)
    ensures Stringify(style, Nulled(v)) == Stringify(style, v)
  {
    NulledNorm(style, v);
    PrintNulled(Norm(style, v));
  }

  /** Canonicity: two values print the same exactly when, with null for the numbers that are not
      finite, they are equal up to the order of members at every depth (and, for Stable, up to
      members named `__proto__`). */
  lemma StringifyCanonical(style: Style, v: Json, w: Json)
    requires Printable(v) && Printable(w)
    ensures Printable(Nulled(v)) && Printable(Nulled(w))
    ensures Stringify(style, v) == Stringify(style, w) <==> MeaningOf(style, Nulled(v)) == MeaningOf(style, Nulled(w))
  {
    NulledPrintable(v);
    NulledPrintable(w);
    NulledNorm(style, v);
    NulledNorm(style, w);
    NormMeaning(style, v);
    NormMeaning(style, w);
    NormMeaning(style, Nulled(v));
    NormMeaning(style, Nulled(w));
    PrintExactly(Norm(style, v), Norm(style, w));
    if MeaningOf(style, Nulled(v)) == MeaningOf(style, Nulled(w)) { NormUnique(style, Nulled(v), Nulled(w)); }
  }

  /** Round trip: the printed text parses, and to a value that means the same, with null for the
      numbers that are not finite, and has its members in key order at every depth. */
  lemma StringifyParse(style: Style, v: Json, space: Text)
    requires Proper(v) && forall i :: 0 <= i < |space| ==> IsSpace(space[i])
    ensures Parse(Stringify(style, v) + space) == Some(Norm(style, Nulled(v)))
    ensures Printable(Nulled(v)) && Printable(Norm(style, Nulled(v)))
    ensures MeaningOf(style, Norm(style, Nulled(v))) == MeaningOf(style, Nulled(v))
    ensures InKeyOrder(style, Norm(style, Nulled(v)))
  {
    NulledPrintable(v);
    NormMeaning(style, v);
    NormMeaning(style, Nulled(v));
    NormInRange(style, v);
    NulledNorm(style, v);
    NormInKeyOrder(style, Nulled(v));
    SentAndRead(Norm(style, v), space);
  }

  /** No object inside the value has a member named `__proto__`. */
  ghost predicate ProtoFree(v: Json) {
    match v
    case Array(items) => forall x :: x in items ==> ProtoFree(x)
    case Object(ms) => forall m :: m in ms ==> m.key != PROTO && ProtoFree(m.value)
    case _ => true
  }

  /** Every key survives, at every depth. */
  ghost predicate Kept(style: Style, v: Json) { style.Rfc8785? || ProtoFree(v) }

  lemma {:induction false} NormMembersKept(style: Style, ms: seq<Member>)
    requires forall m :: m in ms ==> Keep(style, m.key) && Norm(style, m.value) == m.value
    ensures NormMembers(style, ms) == ms
  {
    if ms != [] {
      assert ms == [ms[0]] + ms[1..];
      NormMembersKept(style, ms[1..]);
    }
  }

  lemma {:induction false} OrderedIsNormal(style: Style, v: Json)
    requires Printable(v) && InKeyOrder(style, v) && Kept(style, v)
    ensures Norm(style, v) == v
    decreases v
  {
    match v
    case Array(items) =>
      forall x | x in items ensures Norm(style, x) == x { OrderedIsNormal(style, x); }
      assert NormItems(style, items) == items;
    case Object(ms) =>
      forall m | m in ms ensures Keep(style, m.key) && Norm(style, m.value) == m.value {
        OrderedIsNormal(style, m.value);
      }
      NormMembersKept(style, ms);
      SortSorted(style, ms);
      SortedAhead(style, ms);
      SortedUnique(style, Sort(style, ms), ms);
    case _ =>
  }

  /** The canonical text is the print of the one value that means the same, keeps every key that
      can be kept and has its members in key order at every depth. */
  lemma StringifyExactly(style: Style, v: Json, w: Json)
    requires Printable(v) && Printable(w) && Finite(w) && Kept(style, w) && InKeyOrder(style, w)
    ensures Printable(Nulled(v))
    ensures Stringify(style, v) == Print(w) <==> MeaningOf(style, Nulled(v)) == MeaningOf(style, w)
  {
    NulledPrintable(w);
    OrderedIsNormal(style, w);
    StringifyCanonical(style, v, w);
  }

  // --------------------------------------------------------------- what is lost

  lemma {:induction false} NormFinite(v: Json)
    requires Printable(v)
    ensures Finite(Norm(Rfc8785, v)) <==> Finite(v)
    decreases v
  {
    match v
    case Array(items) =>
      forall x | x in items ensures Finite(Norm(Rfc8785, x)) <==> Finite(x) { NormFinite(x); }
      var r := NormItems(Rfc8785, items);
      if Finite(Array(r)) {
        forall x | x in items ensures Finite(x) {
          var i :| 0 <= i < |items| && items[i] == x;
          assert r[i] in r;
        }
      }
    case Object(ms) =>
      forall m | m in ms ensures Finite(Norm(Rfc8785, m.value)) <==> Finite(m.value) { NormFinite(m.value); }
      NormObject(Rfc8785, ms);
    case _ =>
  }

  /** Values that mean the same are both finite or both not. */
  lemma SameMeaningFinite(v: Json, w: Json)
    requires Printable(v) && Printable(w) && MeaningOf(Rfc8785, v) == MeaningOf(Rfc8785, w)
    ensures Finite(v) <==> Finite(w)
  {
    NormUnique(Rfc8785, v, w);
    NormFinite(v);
    NormFinite(w);
  }

  /** Sorting keeps everything but the order of members exactly when no member is named
      `__proto__`. */
  lemma {:induction false} SortLossless(v: Json)
    requires Printable(v)
    ensures Printable(Norm(Stable, v))
    ensures MeaningOf(Rfc8785, Norm(Stable, v)) == MeaningOf(Rfc8785, v) <==> ProtoFree(v)
    decreases v
  {
    NormPrintable(Stable, v);
    match v
    case Array(items) =>
      var n := Norm(Stable, v);
      forall x | x in items
        ensures Printable(Norm(Stable, x)) &&
                (MeaningOf(Rfc8785, Norm(Stable, x)) == MeaningOf(Rfc8785, x) <==> ProtoFree(x))
      {
        SortLossless(x);
      }
      if MeaningOf(Rfc8785, n) == MeaningOf(Rfc8785, v) {
        forall x | x in items ensures ProtoFree(x) {
          var i :| 0 <= i < |items| && items[i] == x;
          assert MeaningOf(Rfc8785, n).elements[i] == MeaningOf(Rfc8785, v).elements[i];
        }
      }
    case Object(ms) => SortLosslessObject(ms);
    case _ =>
  }

  lemma {:induction false} SortLosslessObject(ms: seq<Member>)
    requires Printable(Object(ms))
    ensures Printable(Norm(Stable, Object(ms)))
    ensures MeaningOf(Rfc8785, Norm(Stable, Object(ms))) == MeaningOf(Rfc8785, Object(ms)) <==> ProtoFree(Object(ms))
    decreases ms
  {
    NormFields(Stable, Rfc8785, ms);
    ObjectFields(Rfc8785, ms);
    var n, o := FieldsOf(Rfc8785, NormOf(Stable, ms)), FieldsOf(Rfc8785, ms);
    forall x | x in ms
      ensures Printable(Norm(Stable, x.value))
      ensures MeaningOf(Rfc8785, Norm(Stable, x.value)) == MeaningOf(Rfc8785, x.value) <==> ProtoFree(x.value)
    {
      SortLossless(x.value);
    }
    FieldsLossless(ms, n, o);
  }

  lemma FieldsLossless(ms: seq<Member>, n: map<Text, Meaning>, o: map<Text, Meaning>)
    requires forall k :: k in n ==> k != PROTO && exists x :: x in ms && x.key == k
    requires forall k :: k in o ==> exists x :: x in ms && x.key == k
    requires forall x :: x in ms ==> x.key in o
    requires forall x :: x in ms && x.key != PROTO ==> x.key in n && (n[x.key] == o[x.key] <==> ProtoFree(x.value))
    ensures n == o <==> ProtoFree(Object(ms))
  {
    if n == o {
      forall x | x in ms ensures x.key != PROTO && ProtoFree(x.value) { assert x.key in n; }
    }
    if ProtoFree(Object(ms)) {
      assert n.Keys == o.Keys;
    }
  }

  /** `stableStringify` keeps everything but the order of members exactly when no member is
      named `__proto__` and all numbers are finite. */
  lemma StableLossless(v: Json)
    requires Proper(v)
    ensures var back := Parse(Stringify(Stable, v));
            && back.Some? && Printable(back.value)
            && (MeaningOf(Rfc8785, back.value) == MeaningOf(Rfc8785, v) <==> ProtoFree(v) && Finite(v))
  {
    StringifyParse(Stable, v, []);
    assert Stringify(Stable, v) + [] == Stringify(Stable, v);
    NulledPrintable(v);
    SortLossless(v);
    var back := Norm(Stable, Nulled(v));
    if MeaningOf(Rfc8785, back) == MeaningOf(Rfc8785, v) {
      NormOfFinite(Nulled(v));
      SameMeaningFinite(back, v);
    }
  }

  lemma {:induction false} NormOfFinite(v: Json)
    requires Finite(v)
    ensures Finite(Norm(Stable, v))
  {
    NulledNorm(Stable, v);
    NulledExactly(v);
    NulledExactly(Norm(Stable, v));
  }

  // ----------------------------------------------- objects with known keys

  ghost predicate Ascending(keys: seq<Text>) {
    forall i :: 0 < i < |keys| ==> LexLess(keys[i - 1], keys[i])
  }

  /** The object with these keys and values. */
  function MembersOf(keys: seq<Text>, values: seq<Json>): (ms: seq<Member>)
    requires |keys| == |values|
    ensures |ms| == |keys| && forall i :: 0 <= i < |ms| ==> ms[i] == Member(keys[i], values[i])
  {
    seq(|keys|, i requires 0 <= i < |keys| => Member(keys[i], values[i]))
  }

  lemma {:induction false} AscendingLess(keys: seq<Text>, i: nat, j: nat)
    requires Ascending(keys) && i < j < |keys|
    ensures LexLess(keys[i], keys[j])
    decreases j
  {
    if i < j - 1 {
      AscendingLess(keys, i, j - 1);
      LexTransitive(keys[i], keys[j - 1], keys[j]);
    }
  }

  lemma RecordPrintable(keys: seq<Text>, values: seq<Json>)
    requires Ascending(keys) && |keys| == |values|
    requires forall i :: 0 <= i < |values| ==> Printable(values[i])
    ensures Printable(Object(MembersOf(keys, values)))
  {
    forall i, j | 0 <= i < j < |keys| ensures keys[i] != keys[j] {
      AscendingLess(keys, i, j);
      LexTotal(keys[i], keys[j]);
    }
  }

  lemma RecordFinite(keys: seq<Text>, values: seq<Json>)
    requires |keys| == |values| && forall i :: 0 <= i < |values| ==> Finite(values[i])
    ensures Finite(Object(MembersOf(keys, values)))
  {
  }

  /** A field of the normal form is the normal form of the field. */
  lemma FieldNorm(style: Style, v: Json, k: Text)
    requires Printable(v) && v.Object? && HasKey(v.members, k) && Keep(style, k)
    ensures Field(Norm(style, v), k) == Norm(style, Field(v, k))
  {
    NormObject(style, v.members);
    var m := Member(k, Norm(style, Field(v, k)));
    assert m in Norm(style, v).members;
    LookupDistinct(Norm(style, v).members, m);
  }

  /** The field of a record, as it is read from its normal form. */
  lemma RecordField(keys: seq<Text>, values: seq<Json>, i: nat)
    requires |keys| == |values| && i < |keys| && Printable(Object(MembersOf(keys, values)))
    ensures Field(Norm(Rfc8785, Object(MembersOf(keys, values))), keys[i]) == Norm(Rfc8785, values[i])
  {
    FieldOf(MembersOf(keys, values), i);
    FieldNorm(Rfc8785, Object(MembersOf(keys, values)), keys[i]);
  }

  /** Objects over the same keys mean the same exactly when their values do. */
  lemma RecordInjective(keys: seq<Text>, xs: seq<Json>, ys: seq<Json>)
    requires Ascending(keys) && |keys| == |xs| == |ys|
    requires forall i :: 0 <= i < |xs| ==> Printable(xs[i]) && Printable(ys[i])
    requires Printable(Object(MembersOf(keys, xs))) && Printable(Object(MembersOf(keys, ys)))
    requires MeaningOf(Rfc8785, Object(MembersOf(keys, xs))) == MeaningOf(Rfc8785, Object(MembersOf(keys, ys)))
    ensures forall i :: 0 <= i < |xs| ==> MeaningOf(Rfc8785, xs[i]) == MeaningOf(Rfc8785, ys[i])
  {
    var a, b := MembersOf(keys, xs), MembersOf(keys, ys);
    ObjectFields(Rfc8785, a);
    ObjectFields(Rfc8785, b);
    forall i | 0 <= i < |xs| ensures MeaningOf(Rfc8785, xs[i]) == MeaningOf(Rfc8785, ys[i]) {
      assert a[i] in a && b[i] in b;
      assert FieldsOf(Rfc8785, a)[keys[i]] == FieldsOf(Rfc8785, b)[keys[i]];
    }
  }

  /** An object whose only member is named `__proto__` is printed as the empty object. */
  lemma ProtoIsLost()
    ensures Stringify(Stable, Object([Member(PROTO, Null)])) == Stringify(Stable, Object([]))
    ensures Stringify(Rfc8785, Object([Member(PROTO, Null)])) != Stringify(Rfc8785, Object([]))
  {
    var one := [Member(PROTO, Null)];
    forall style ensures Stringify(style, Object(one)) == Stringify(style, Object([])) <==> style.Stable? {
      StringifyCanonical(style, Object(one), Object([]));
      assert NulledMembers(one) == one && NulledMembers([]) == [];
      ObjectFields(style, one);
      ObjectFields(style, []);
      assert one[0] in one;
      if style.Stable? { assert FieldsOf(style, one) == FieldsOf(style, []); }
    }
  }
}
