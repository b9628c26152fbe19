/** The probe transcript hash: what of a session's probe messages it depends on, and what
    a hash carried by a human entry pins down. */
module Transcript {
  import opened Json
  import opened CanonicalJson
  import opened Jcs
  import opened JsValue
  import opened Wrappers

  /** The part of an envelope that is hashed. */
  datatype Core = Core(
    v: Text, kind: Text, msgId: Text, sessionId: Text, ts: Text,
    fromActor: Text, fromKey: Text, toActor: Text, toKey: Text,
    enc: Text, kdf: Text, nonce: Text, ciphertext: Text)

  /** The other fields (label, associated data, content type, signature) are not hashed. */
  datatype Envelope = Envelope(core: Core, rest: Text)

  const PROBE_PREFIX: Text := Ascii("probe.")
  const VERSION: Text := Ascii("0.4.3")

  type Hash = Text -> Text
  type Length = Text -> nat

  ghost predicate Injective(h: Hash) { forall a, b :: h(a) == h(b) ==> a == b }

  // --------------------------------------------------------- canonical cores

  // Keys are listed in canonical order; the order of members does not reach the text.
  const PARTY_KEYS: seq<Text> := [Ascii("actor_id"), Ascii("key_fpr")]
  const CRYPTO_KEYS: seq<Text> := [Ascii("enc"), Ascii("kdf"), Ascii("nonce")]
  const BODY_KEYS: seq<Text> := [Ascii("ciphertext")]
  const CORE_KEYS: seq<Text> := [Ascii("body"), Ascii("crypto"), Ascii("from"), Ascii("msg_id"), Ascii("session_id"),
                                 Ascii("to"), Ascii("ts"), Ascii("type"), Ascii("v")]
  const ITEM_KEYS: seq<Text> := [Ascii("ciphertext_len"), Ascii("i"), Ascii("msg_hash"), Ascii("ts"), Ascii("type")]
  const TRANSCRIPT_KEYS: seq<Text> := [Ascii("probe"), Ascii("session_id"), Ascii("v")]

  lemma SmallKeysAscending()
    ensures Ascending(PARTY_KEYS) && Ascending(CRYPTO_KEYS) && Ascending(BODY_KEYS)
    ensures Ascending(ITEM_KEYS) && Ascending(TRANSCRIPT_KEYS)
  {
    assert ITEM_KEYS[3][1..] == [0x73] && ITEM_KEYS[4][1..] == [0x79, 0x70, 0x65];
  }

  lemma FirstLess(a: Text, b: Text)
    requires a != [] && b != [] && a[0] < b[0]
    ensures LexLess(a, b)
  {
  }

  lemma TimeKeysAscending()
    ensures LexLess(Ascii("to"), Ascii("ts")) && LexLess(Ascii("ts"), Ascii("type"))
  {
    FirstLess(Ascii("to")[1..], Ascii("ts")[1..]);
    FirstLess(Ascii("ts")[1..], Ascii("type")[1..]);
  }

  lemma CoreKeysAscending()
    ensures Ascending(CORE_KEYS)
  {
    TimeKeysAscending();
    forall i | 0 <= i < 8 && i != 5 && i != 6 ensures LexLess(CORE_KEYS[i], CORE_KEYS[i + 1]) {
      FirstLess(CORE_KEYS[i], CORE_KEYS[i + 1]);
    }
  }

  function Party(actor: Text, key: Text): Json { Object(MembersOf(PARTY_KEYS, [String(actor), String(key)])) }

  function CoreValues(c: Core): seq<Json> {
    [Object(MembersOf(BODY_KEYS, [String(c.ciphertext)])),
     Object(MembersOf(CRYPTO_KEYS, [String(c.enc), String(c.kdf), String(c.nonce)])),
     Party(c.fromActor, c.fromKey), String(c.msgId), String(c.sessionId),
     Party(c.toActor, c.toKey), String(c.ts), String(c.kind), String(c.v)]
  }

  /** An object with other keys is printed as it is. */
  lemma RecordPlain(keys: seq<Text>, values: seq<Json>)
    requires |keys| == |values| && forall i :: 0 <= i < |keys| ==> |keys[i]| != |CONSTRUCTOR|
    requires forall i :: 0 <= i < |values| ==> ConstructorFree(values[i])
    ensures ConstructorFree(Object(MembersOf(keys, values)))
  {
  }

  lemma CorePlain(c: Core)
    ensures ConstructorFree(CoreJson(c))
  {
    assert |CONSTRUCTOR| == 11;
    RecordPlain(BODY_KEYS, [String(c.ciphertext)]);
    RecordPlain(CRYPTO_KEYS, [String(c.enc), String(c.kdf), String(c.nonce)]);
    RecordPlain(PARTY_KEYS, [String(c.fromActor), String(c.fromKey)]);
    RecordPlain(PARTY_KEYS, [String(c.toActor), String(c.toKey)]);
    RecordPlain(CORE_KEYS, CoreValues(c));
  }

  /** The text that is hashed for an envelope. */
  function CoreText(c: Core): (t: Text)
    ensures t == Stringify(Rfc8785, CoreJson(c))
  {
    CorePlain(c);
    PlainExactly(CoreJson(c));
    JcsText(CoreJson(c)).value
  }

  function CoreJson(c: Core): Json { Object(MembersOf(CORE_KEYS, CoreValues(c))) }

  lemma PartyMeaning(a: Text, k: Text, b: Text, l: Text)
    ensures Printable(Party(a, k)) && Printable(Party(b, l))
    ensures MeaningOf(Rfc8785, Party(a, k)) == MeaningOf(Rfc8785, Party(b, l)) ==> a == b && k == l
  {
    SmallKeysAscending();
    var xs, ys := [String(a), String(k)], [String(b), String(l)];
    RecordPrintable(PARTY_KEYS, xs);
    RecordPrintable(PARTY_KEYS, ys);
    if MeaningOf(Rfc8785, Party(a, k)) == MeaningOf(Rfc8785, Party(b, l)) {
      RecordInjective(PARTY_KEYS, xs, ys);
      assert MeaningOf(Rfc8785, xs[0]) == MeaningOf(Rfc8785, ys[0]);
      assert MeaningOf(Rfc8785, xs[1]) == MeaningOf(Rfc8785, ys[1]);
    }
  }

  lemma StringsMeaning(keys: seq<Text>, xs: seq<Json>, ys: seq<Json>)
    requires Ascending(keys) && |keys| == |xs| == |ys|
    requires forall i :: 0 <= i < |xs| ==> xs[i].String? && ys[i].String?
    ensures Printable(Object(MembersOf(keys, xs))) && Printable(Object(MembersOf(keys, ys)))
    ensures MeaningOf(Rfc8785, Object(MembersOf(keys, xs))) == MeaningOf(Rfc8785, Object(MembersOf(keys, ys))) ==>
              xs == ys
  {
    RecordPrintable(keys, xs);
    RecordPrintable(keys, ys);
    if MeaningOf(Rfc8785, Object(MembersOf(keys, xs))) == MeaningOf(Rfc8785, Object(MembersOf(keys, ys))) {
      RecordInjective(keys, xs, ys);
      forall i | 0 <= i < |xs| ensures xs[i] == ys[i] {
        assert MeaningOf(Rfc8785, xs[i]) == Leaf(xs[i]) && MeaningOf(Rfc8785, ys[i]) == Leaf(ys[i]);
      }
    }
  }

  lemma CorePrintable(c: Core)
    ensures Printable(CoreJson(c))
    ensures forall i :: 0 <= i < 9 ==> Printable(CoreValues(c)[i])
  {
    SmallKeysAscending();
    CoreKeysAscending();
    PartyMeaning(c.fromActor, c.fromKey, c.toActor, c.toKey);
    StringsMeaning(BODY_KEYS, [String(c.ciphertext)], [String(c.ciphertext)]);
    var crypto := [String(c.enc), String(c.kdf), String(c.nonce)];
    StringsMeaning(CRYPTO_KEYS, crypto, crypto);
    RecordPrintable(CORE_KEYS, CoreValues(c));
  }

  /** A core holds no numbers. */
  lemma CoreFinite(c: Core)
    ensures Nulled(CoreJson(c)) == CoreJson(c)
  {
    RecordFinite(BODY_KEYS, [String(c.ciphertext)]);
    RecordFinite(CRYPTO_KEYS, [String(c.enc), String(c.kdf), String(c.nonce)]);
    RecordFinite(PARTY_KEYS, [String(c.fromActor), String(c.fromKey)]);
    RecordFinite(PARTY_KEYS, [String(c.toActor), String(c.toKey)]);
    RecordFinite(CORE_KEYS, CoreValues(c));
    NulledExactly(CoreJson(c));
  }

  /** Two cores with one canonical text are the same core, field by field. */
  lemma CoreTextInjective(c: Core, d: Core)
    requires CoreText(c) == CoreText(d)
    ensures c == d
  {
    CorePrintable(c);
    CorePrintable(d);
    StringifyCanonical(Rfc8785, CoreJson(c), CoreJson(d));
    CoreFinite(c);
    CoreFinite(d);
    CoreKeysAscending();
    var xs, ys := CoreValues(c), CoreValues(d);
    RecordInjective(CORE_KEYS, xs, ys);
    CoreFieldsEqual(c, d);
  }

  lemma CoreFieldsEqual(c: Core, d: Core)
    requires forall i :: 0 <= i < 9 ==> Printable(CoreValues(c)[i]) && Printable(CoreValues(d)[i])
    requires forall i :: 0 <= i < 9 ==> MeaningOf(Rfc8785, CoreValues(c)[i]) == MeaningOf(Rfc8785, CoreValues(d)[i])
    ensures c == d
  {
    var xs, ys := CoreValues(c), CoreValues(d);
    LeafEqual(xs[3], ys[3]);
    LeafEqual(xs[4], ys[4]);
    LeafEqual(xs[6], ys[6]);
    LeafEqual(xs[7], ys[7]);
    LeafEqual(xs[8], ys[8]);
    BodyAndCryptoEqual(c, d);
    PartyMeaning(c.fromActor, c.fromKey, d.fromActor, d.fromKey);
    assert MeaningOf(Rfc8785, xs[2]) == MeaningOf(Rfc8785, ys[2]);
    PartyMeaning(c.toActor, c.toKey, d.toActor, d.toKey);
    assert MeaningOf(Rfc8785, xs[5]) == MeaningOf(Rfc8785, ys[5]);
  }

  lemma LeafEqual(x: Json, y: Json)
    requires x.String? && y.String? && MeaningOf(Rfc8785, x) == MeaningOf(Rfc8785, y)
    ensures x == y
  {
  }

  lemma BodyAndCryptoEqual(c: Core, d: Core)
    requires forall i :: 0 <= i < 2 ==> Printable(CoreValues(c)[i]) && Printable(CoreValues(d)[i])
    requires forall i :: 0 <= i < 2 ==> MeaningOf(Rfc8785, CoreValues(c)[i]) == MeaningOf(Rfc8785, CoreValues(d)[i])
    ensures c.ciphertext == d.ciphertext && c.enc == d.enc && c.kdf == d.kdf && c.nonce == d.nonce
  {
    SmallKeysAscending();
    var body1, body2 := [String(c.ciphertext)], [String(d.ciphertext)];
    assert CoreValues(c)[0] == Object(MembersOf(BODY_KEYS, body1))
        && CoreValues(d)[0] == Object(MembersOf(BODY_KEYS, body2));
    StringsMeaning(BODY_KEYS, body1, body2);
    assert body1[0] == body2[0];
    var kx, ky := [String(c.enc), String(c.kdf), String(c.nonce)], [String(d.enc), String(d.kdf), String(d.nonce)];
    assert CoreValues(c)[1] == Object(MembersOf(CRYPTO_KEYS, kx))
        && CoreValues(d)[1] == Object(MembersOf(CRYPTO_KEYS, ky));
    StringsMeaning(CRYPTO_KEYS, kx, ky);
    assert kx[0] == ky[0] && kx[1] == ky[1] && kx[2] == ky[2];
  }

  // ---------------------------------------------------------------- ordering

  predicate Before(c: Core, d: Core) {
    LexLess(c.ts, d.ts) || (c.ts == d.ts && LexLess(c.msgId, d.msgId))
  }

  /** Insertion in front of the first core that is not before it: a stable sort. */
  function Insert(c: Core, cs: seq<Core>): (r: seq<Core>)
    ensures multiset(r) == multiset([c] + cs)
  {
    if cs == [] then [c]
    else if !Before(cs[0], c) then [c] + cs
    else
      assert [c] + cs == [c] + ([cs[0]] + cs[1..]) && cs == [cs[0]] + cs[1..];
      [cs[0]] + Insert(c, cs[1..])
  }

  function SortCores(cs: seq<Core>): (r: seq<Core>)
    ensures multiset(r) == multiset(cs)
  {
    if cs == [] then []
    else
      assert cs == [cs[0]] + cs[1..];
      Insert(cs[0], SortCores(cs[1..]))
  }

  predicate IsProbe(sessionId: Text, e: Envelope) {
    PROBE_PREFIX <= e.core.kind && e.core.sessionId == sessionId
  }

  /** The cores of the probe messages of one session, in arrival order. */
  function ProbeCores(sessionId: Text, es: seq<Envelope>): seq<Core> {
    if es == [] then []
    else (if IsProbe(sessionId, es[0]) then [es[0].core] else []) + ProbeCores(sessionId, es[1..])
  }

  /** The transcript: the probe cores by time stamp and then message id. */
  function Ordered(sessionId: Text, es: seq<Envelope>): seq<Core> {
    SortCores(ProbeCores(sessionId, es))
  }

  ghost predicate InOrder(cs: seq<Core>) {
    forall i, j :: 0 <= i < j < |cs| ==> !Before(cs[j], cs[i])
  }

  /** A time stamp and a message id belong to one core only. */
  ghost predicate KeysIdentify(cs: seq<Core>) {
    forall c, d :: c in cs && d in cs && c.ts == d.ts && c.msgId == d.msgId ==> c == d
  }

  lemma BeforeTotal(c: Core, d: Core)
    ensures !(Before(c, d) && Before(d, c))
    ensures !Before(c, d) && !Before(d, c) ==> c.ts == d.ts && c.msgId == d.msgId
  {
    LexTotal(c.ts, d.ts);
    LexTotal(c.msgId, d.msgId);
  }

  lemma BeforeTransitive(c: Core, d: Core, e: Core)
    requires Before(c, d) && !Before(e, d)
    ensures Before(c, e)
  {
    LexTotal(e.ts, d.ts);
    LexTotal(e.msgId, d.msgId);
    if LexLess(c.ts, d.ts) && LexLess(d.ts, e.ts) { LexTransitive(c.ts, d.ts, e.ts); }
    if LexLess(c.msgId, d.msgId) && LexLess(d.msgId, e.msgId) { LexTransitive(c.msgId, d.msgId, e.msgId); }
  }

  lemma {:induction false} InsertInOrder(c: Core, cs: seq<Core>)
    requires InOrder(cs)
    ensures InOrder(Insert(c, cs))
  {
    if cs != [] {
      BeforeTotal(cs[0], c);
      if !Before(cs[0], c) {
        forall x | x in cs ensures !Before(x, c) {
          if x != cs[0] && Before(x, c) {
            BeforeTotal(x, c);
            BeforeTransitive(x, c, cs[0]);
          }
        }
      } else {
        InsertInOrder(c, cs[1..]);
        var r := Insert(c, cs[1..]);
        forall x | x in r ensures !Before(x, cs[0]) {
          assert x in multiset(r) && multiset(r) == multiset([c] + cs[1..]);
          assert x in [c] + cs[1..];
        }
      }
    }
  }

  lemma {:induction false} SortInOrder(cs: seq<Core>)
    ensures InOrder(SortCores(cs))
  {
    if cs != [] {
      SortInOrder(cs[1..]);
      InsertInOrder(cs[0], SortCores(cs[1..]));
    }
  }

  /** Lists in order with the same cores are the same list when keys identify cores. */
  lemma {:induction false} InOrderUnique(a: seq<Core>, b: seq<Core>)
    requires InOrder(a) && InOrder(b) && KeysIdentify(a) && multiset(a) == multiset(b)
    ensures a == b
  {
    if a == [] || b == [] {
      assert |multiset(a)| == |a| && |multiset(b)| == |b|;
    } else {
      HeadsEqual(a, b);
      RestInOrder(a);
      RestInOrder(b);
      RestIdentify(a);
      InOrderUnique(a[1..], b[1..]);
      assert a == [a[0]] + a[1..] && b == [b[0]] + b[1..];
    }
  }

  lemma HeadsEqual(a: seq<Core>, b: seq<Core>)
    requires InOrder(a) && InOrder(b) && KeysIdentify(a) && multiset(a) == multiset(b) && a != [] && b != []
    ensures a[0] == b[0]
  {
    assert a[0] in multiset(b) && b[0] in multiset(a);
    assert a[0] in b && b[0] in a;
    BeforeTotal(a[0], b[0]);
  }

  lemma RestInOrder(a: seq<Core>)
    requires InOrder(a) && a != []
    ensures InOrder(a[1..]) && multiset(a[1..]) == multiset(a) - multiset{a[0]}
  {
    assert a == [a[0]] + a[1..];
  }

  lemma RestIdentify(a: seq<Core>)
    requires KeysIdentify(a) && a != []
    ensures KeysIdentify(a[1..])
  {
    assert forall c :: c in a[1..] ==> c in a;
  }

  // ---------------------------------------------------------------- the hash

  lemma {:induction false} AllCounted(t: Text)
    requires AllDigits(t)
    ensures DigitCount(t) == |t|
  {
    if t != [] { AllCounted(t[1..]); }
  }

  lemma DigitsLexeme(n: nat)
    ensures IsLexeme(Digits(n))
  {
    var t := Digits(n);
    AllCounted(t);
    assert t[|t|..] == [];
  }

  function ItemValues(h: Hash, length: Length, i: nat, c: Core): seq<Json> {
    [Number(Digits(length(c.ciphertext))), Number(Digits(i)), String(h(CoreText(c))),
     String(c.ts), String(c.kind)]
  }

  function ItemJson(h: Hash, length: Length, i: nat, c: Core): Json {
    Object(MembersOf(ITEM_KEYS, ItemValues(h, length, i, c)))
  }

  function ItemsJson(h: Hash, length: Length, cs: seq<Core>): (r: seq<Json>)
    ensures |r| == |cs|
  {
    seq(|cs|, i requires 0 <= i < |cs| => ItemJson(h, length, i + 1, cs[i]))
  }

  function TranscriptValues(h: Hash, length: Length, sessionId: Text, cs: seq<Core>): seq<Json> {
    [Array(ItemsJson(h, length, cs)), String(sessionId), String(VERSION)]
  }

  function TranscriptJson(h: Hash, length: Length, sessionId: Text, cs: seq<Core>): Json {
    Object(MembersOf(TRANSCRIPT_KEYS, TranscriptValues(h, length, sessionId, cs)))
  }

  lemma ItemIs(h: Hash, length: Length, cs: seq<Core>, i: nat)
    requires i < |cs|
    ensures ItemsJson(h, length, cs)[i] == ItemJson(h, length, i + 1, cs[i])
  {
  }

  lemma ItemPlain(h: Hash, length: Length, i: nat, c: Core)
    ensures ConstructorFree(ItemJson(h, length, i, c))
  {
    assert |CONSTRUCTOR| == 11;
    RecordPlain(ITEM_KEYS, ItemValues(h, length, i, c));
  }

  lemma TranscriptPlain(h: Hash, length: Length, sessionId: Text, cs: seq<Core>)
    ensures ConstructorFree(TranscriptJson(h, length, sessionId, cs))
  {
    assert |CONSTRUCTOR| == 11;
    var items := ItemsJson(h, length, cs);
    forall x | x in items ensures ConstructorFree(x) {
      var i :| 0 <= i < |cs| && x == items[i];
      ItemIs(h, length, cs, i);
      ItemPlain(h, length, i + 1, cs[i]);
    }
    RecordPlain(TRANSCRIPT_KEYS, TranscriptValues(h, length, sessionId, cs));
  }

  function TranscriptText(h: Hash, length: Length, sessionId: Text, cs: seq<Core>): (t: Text)
    ensures t == Stringify(Rfc8785, TranscriptJson(h, length, sessionId, cs))
  {
    TranscriptPlain(h, length, sessionId, cs);
    PlainExactly(TranscriptJson(h, length, sessionId, cs));
    JcsText(TranscriptJson(h, length, sessionId, cs)).value
  }

  function TranscriptHash(h: Hash, length: Length, sessionId: Text, es: seq<Envelope>): Text {
    h(TranscriptText(h, length, sessionId, Ordered(sessionId, es)))
  }

  lemma ItemPrintable(h: Hash, length: Length, i: nat, c: Core)
    ensures Printable(ItemJson(h, length, i, c))
  {
    SmallKeysAscending();
    DigitsLexeme(i);
    DigitsLexeme(length(c.ciphertext));
    RecordPrintable(ITEM_KEYS, ItemValues(h, length, i, c));
  }

  lemma ItemInjective(h: Hash, length: Length, i: nat, c: Core, d: Core, x: Json, y: Json)
    requires Injective(h)
    requires x == ItemJson(h, length, i, c) && y == ItemJson(h, length, i, d)
    requires Printable(x) && Printable(y) && MeaningOf(Rfc8785, x) == MeaningOf(Rfc8785, y)
    ensures c == d
  {
    SmallKeysAscending();
    var xs, ys := ItemValues(h, length, i, c), ItemValues(h, length, i, d);
    RecordInjective(ITEM_KEYS, xs, ys);
    assert MeaningOf(Rfc8785, xs[2]) == Leaf(xs[2]) && MeaningOf(Rfc8785, ys[2]) == Leaf(ys[2]);
    assert xs[2] == ys[2];
    CoreTextInjective(c, d);
  }

  lemma TranscriptPrintable(h: Hash, length: Length, sessionId: Text, cs: seq<Core>)
    ensures forall i :: 0 <= i < |cs| ==> Printable(ItemsJson(h, length, cs)[i])
    ensures Printable(Array(ItemsJson(h, length, cs)))
    ensures Printable(Object(MembersOf(TRANSCRIPT_KEYS, TranscriptValues(h, length, sessionId, cs))))
  {
    forall i | 0 <= i < |cs| ensures Printable(ItemsJson(h, length, cs)[i]) {
      ItemPrintable(h, length, i + 1, cs[i]);
    }
    SmallKeysAscending();
    RecordPrintable(TRANSCRIPT_KEYS, TranscriptValues(h, length, sessionId, cs));
  }

  lemma TranscriptFinite(h: Hash, length: Length, sessionId: Text, cs: seq<Core>)
    ensures var v := Object(MembersOf(TRANSCRIPT_KEYS, TranscriptValues(h, length, sessionId, cs))); Nulled(v) == v
  {
    forall i | 0 <= i < |cs| ensures Finite(ItemsJson(h, length, cs)[i]) {
      RecordFinite(ITEM_KEYS, ItemValues(h, length, i + 1, cs[i]));
    }
    RecordFinite(TRANSCRIPT_KEYS, TranscriptValues(h, length, sessionId, cs));
    NulledExactly(TranscriptJson(h, length, sessionId, cs));
  }

  lemma ArrayInjective(x: seq<Json>, y: seq<Json>)
    requires Printable(Array(x)) && Printable(Array(y))
    requires MeaningOf(Rfc8785, Array(x)) == MeaningOf(Rfc8785, Array(y))
    ensures |x| == |y| && forall i :: 0 <= i < |x| ==> Printable(x[i]) && Printable(y[i])
    ensures forall i :: 0 <= i < |x| ==> MeaningOf(Rfc8785, x[i]) == MeaningOf(Rfc8785, y[i])
  {
    var e, f := MeaningOf(Rfc8785, Array(x)).elements, MeaningOf(Rfc8785, Array(y)).elements;
    assert |e| == |x| && |f| == |y|;
    assert forall i :: 0 <= i < |x| ==> e[i] == MeaningOf(Rfc8785, x[i]);
    assert forall i :: 0 <= i < |y| ==> f[i] == MeaningOf(Rfc8785, y[i]);
  }

  lemma ItemsInjective(h: Hash, length: Length, cs: seq<Core>, ds: seq<Core>)
    requires Injective(h)
    requires Printable(Array(ItemsJson(h, length, cs))) && Printable(Array(ItemsJson(h, length, ds)))
    requires MeaningOf(Rfc8785, Array(ItemsJson(h, length, cs))) == MeaningOf(Rfc8785, Array(ItemsJson(h, length, ds)))
    ensures cs == ds
  {
    ArrayInjective(ItemsJson(h, length, cs), ItemsJson(h, length, ds));
    forall i | 0 <= i < |cs| ensures cs[i] == ds[i] {
      ItemsAt(h, length, cs, ds, i);
    }
  }

  lemma ItemsAt(h: Hash, length: Length, cs: seq<Core>, ds: seq<Core>, i: nat)
    requires Injective(h) && i < |cs| && i < |ds|
    requires Printable(ItemsJson(h, length, cs)[i]) && Printable(ItemsJson(h, length, ds)[i])
    requires MeaningOf(Rfc8785, ItemsJson(h, length, cs)[i]) == MeaningOf(Rfc8785, ItemsJson(h, length, ds)[i])
    ensures cs[i] == ds[i]
  {
    ItemIs(h, length, cs, i);
    ItemIs(h, length, ds, i);
    ItemInjective(h, length, i + 1, cs[i], ds[i], ItemsJson(h, length, cs)[i], ItemsJson(h, length, ds)[i]);
  }

  /** The hash separates: equal hashes mean the same session and the same ordered transcript,
      envelope core by envelope core, and conversely. */
  lemma HashSeparates(h: Hash, length: Length, s: Text, es: seq<Envelope>, t: Text, fs: seq<Envelope>)
    requires Injective(h)
    ensures TranscriptHash(h, length, s, es) == TranscriptHash(h, length, t, fs) <==>
            s == t && Ordered(s, es) == Ordered(t, fs)
  {
    var cs, ds := Ordered(s, es), Ordered(t, fs);
    var xs, ys := TranscriptValues(h, length, s, cs), TranscriptValues(h, length, t, ds);
    var x, y := Object(MembersOf(TRANSCRIPT_KEYS, xs)), Object(MembersOf(TRANSCRIPT_KEYS, ys));
    TranscriptPrintable(h, length, s, cs);
    TranscriptPrintable(h, length, t, ds);
    if TranscriptHash(h, length, s, es) == TranscriptHash(h, length, t, fs) {
      StringifyCanonical(Rfc8785, x, y);
      TranscriptFinite(h, length, s, cs);
      TranscriptFinite(h, length, t, ds);
      SmallKeysAscending();
      RecordInjective(TRANSCRIPT_KEYS, xs, ys);
      assert MeaningOf(Rfc8785, xs[0]) == MeaningOf(Rfc8785, ys[0]);
      assert MeaningOf(Rfc8785, xs[1]) == Leaf(xs[1]) && MeaningOf(Rfc8785, ys[1]) == Leaf(ys[1]);
      ItemsInjective(h, length, cs, ds);
    }
  }

  // ---------------------------------------------- what is hashed, in the standard's words

  /** Ordered by time stamp as text, and at one time stamp by message id. */
  ghost predicate NotLater(c: Core, d: Core) {
    Precedes(c.ts, d.ts) || (c.ts == d.ts && (Precedes(c.msgId, d.msgId) || c.msgId == d.msgId))
  }

  ghost predicate InTime(cs: seq<Core>) { forall i, j :: 0 <= i < j < |cs| ==> NotLater(cs[i], cs[j]) }

  lemma NotLaterExactly(c: Core, d: Core)
    ensures NotLater(c, d) <==> !Before(d, c)
  {
    LexExactly(c.ts, d.ts);
    LexExactly(c.msgId, d.msgId);
    LexTotal(c.ts, d.ts);
    LexTotal(c.msgId, d.msgId);
  }

  lemma InTimeExactly(cs: seq<Core>)
    ensures InTime(cs) <==> InOrder(cs)
  {
    forall c, d ensures NotLater(c, d) <==> !Before(d, c) { NotLaterExactly(c, d); }
  }

  /** The hash is that of the probe messages of the session in time order. */
  lemma HashesInTime(h: Hash, length: Length, s: Text, es: seq<Envelope>)
    ensures exists cs ::
              && InTime(cs) && multiset(cs) == multiset(ProbeCores(s, es))
              && TranscriptHash(h, length, s, es) == h(TranscriptText(h, length, s, cs))
  {
    SortInOrder(ProbeCores(s, es));
    InTimeExactly(Ordered(s, es));
  }

  /** And where a time stamp and a message id identify a message there is one such list only. */
  lemma HashedExactly(h: Hash, length: Length, s: Text, es: seq<Envelope>, cs: seq<Core>)
    requires KeysIdentify(cs) && InTime(cs) && multiset(cs) == multiset(ProbeCores(s, es))
    ensures TranscriptHash(h, length, s, es) == h(TranscriptText(h, length, s, cs))
  {
    SortInOrder(ProbeCores(s, es));
    InTimeExactly(cs);
    InOrderUnique(cs, Ordered(s, es));
  }

  /** What counts as a probe message of the session. */
  lemma {:induction false} ProbeCoresExactly(s: Text, es: seq<Envelope>, c: Core)
    ensures c in ProbeCores(s, es) <==>
            exists e :: e in es && e.core == c && Ascii("probe.") <= c.kind && c.sessionId == s
  {
    if es != [] {
      ProbeCoresExactly(s, es[1..], c);
      assert es == [es[0]] + es[1..];
    }
  }

  /** The normal form of a finite value is what its text reads. */
  lemma NormalRead(v: Json)
    requires Printable(v) && Nulled(v) == v
    ensures ParseText(Stringify(Rfc8785, v)) == Some(Norm(Rfc8785, v))
  {
    NulledWellFormed(v);
    NulledNorm(Rfc8785, v);
    NormPrintable(Rfc8785, v);
    NulledWellFormed(Norm(Rfc8785, v));
    ParsePrint(Norm(Rfc8785, v), []);
    assert Stringify(Rfc8785, v) + [] == Stringify(Rfc8785, v);
  }

  /** What a parsed core says, under the names of the envelope. */
  ghost predicate SaysCore(v: Json, c: Core) {
    && Field(v, Ascii("v")) == String(c.v) && Field(v, Ascii("type")) == String(c.kind)
    && Field(v, Ascii("msg_id")) == String(c.msgId) && Field(v, Ascii("session_id")) == String(c.sessionId)
    && Field(v, Ascii("ts")) == String(c.ts)
    && SaysParty(Field(v, Ascii("from")), c.fromActor, c.fromKey)
    && SaysParty(Field(v, Ascii("to")), c.toActor, c.toKey)
    && SaysCrypto(Field(v, Ascii("crypto")), c)
    && Field(Field(v, Ascii("body")), Ascii("ciphertext")) == String(c.ciphertext)
  }

  ghost predicate SaysParty(v: Json, actor: Text, key: Text) {
    Field(v, Ascii("actor_id")) == String(actor) && Field(v, Ascii("key_fpr")) == String(key)
  }

  ghost predicate SaysCrypto(v: Json, c: Core) {
    && Field(v, Ascii("enc")) == String(c.enc) && Field(v, Ascii("kdf")) == String(c.kdf)
    && Field(v, Ascii("nonce")) == String(c.nonce)
  }

  /** The text of a core says what the envelope says. */
  lemma CoreSays(c: Core)
    ensures ParseText(CoreText(c)).Some? && SaysCore(ParseText(CoreText(c)).value, c)
  {
    CorePrintable(c);
    CoreFinite(c);
    NormalRead(CoreJson(c));
    CoreRead(c, CoreValues(c), Norm(Rfc8785, CoreJson(c)));
  }

  lemma CoreField(c: Core, v: Json, i: nat, k: Text, x: Json)
    requires Printable(CoreJson(c)) && v == Norm(Rfc8785, CoreJson(c))
    requires i < 9 && k == CORE_KEYS[i] && x == CoreValues(c)[i]
    ensures Field(v, k) == Norm(Rfc8785, x)
  {
    RecordField(CORE_KEYS, CoreValues(c), i);
  }

  lemma CoreRead(c: Core, values: seq<Json>, v: Json)
    requires Printable(CoreJson(c)) && values == CoreValues(c) && v == Norm(Rfc8785, CoreJson(c))
    ensures SaysCore(v, c)
  {
    CoreStrings(c, values, v);
    CoreBody(c, v, values[0]);
    CoreCrypto(c, v, values[1]);
    CoreParties(c, values, v);
  }

  lemma CoreBody(c: Core, v: Json, x: Json)
    requires Printable(CoreJson(c)) && x == CoreValues(c)[0] && v == Norm(Rfc8785, CoreJson(c))
    ensures Field(Field(v, Ascii("body")), Ascii("ciphertext")) == String(c.ciphertext)
  {
    CoreField(c, v, 0, Ascii("body"), x);
    BodySays(c, x);
  }

  lemma CoreCrypto(c: Core, v: Json, x: Json)
    requires Printable(CoreJson(c)) && x == CoreValues(c)[1] && v == Norm(Rfc8785, CoreJson(c))
    ensures SaysCrypto(Field(v, Ascii("crypto")), c)
  {
    CoreField(c, v, 1, Ascii("crypto"), x);
    CryptoSays(c, x);
  }

  lemma CoreStrings(c: Core, values: seq<Json>, v: Json)
    requires Printable(CoreJson(c)) && values == CoreValues(c) && v == Norm(Rfc8785, CoreJson(c))
    ensures Field(v, Ascii("v")) == String(c.v) && Field(v, Ascii("type")) == String(c.kind)
    ensures Field(v, Ascii("msg_id")) == String(c.msgId) && Field(v, Ascii("session_id")) == String(c.sessionId)
    ensures Field(v, Ascii("ts")) == String(c.ts)
  {
    CoreField(c, v, 3, Ascii("msg_id"), values[3]);
    CoreField(c, v, 4, Ascii("session_id"), values[4]);
    CoreField(c, v, 6, Ascii("ts"), values[6]);
    CoreField(c, v, 7, Ascii("type"), values[7]);
    CoreField(c, v, 8, Ascii("v"), values[8]);
  }

  lemma CoreParties(c: Core, values: seq<Json>, v: Json)
    requires Printable(CoreJson(c)) && values == CoreValues(c) && v == Norm(Rfc8785, CoreJson(c))
    ensures SaysParty(Field(v, Ascii("from")), c.fromActor, c.fromKey)
    ensures SaysParty(Field(v, Ascii("to")), c.toActor, c.toKey)
  {
    CoreField(c, v, 2, Ascii("from"), values[2]);
    PartySays(c.fromActor, c.fromKey);
    CoreField(c, v, 5, Ascii("to"), values[5]);
    PartySays(c.toActor, c.toKey);
  }

  lemma PartySays(actor: Text, key: Text)
    ensures SaysParty(Norm(Rfc8785, Party(actor, key)), actor, key)
  {
    SmallKeysAscending();
    RecordPrintable(PARTY_KEYS, [String(actor), String(key)]);
    RecordField(PARTY_KEYS, [String(actor), String(key)], 0);
    RecordField(PARTY_KEYS, [String(actor), String(key)], 1);
  }

  lemma CryptoSays(c: Core, v: Json)
    requires v == Object(MembersOf(CRYPTO_KEYS, [String(c.enc), String(c.kdf), String(c.nonce)]))
    ensures SaysCrypto(Norm(Rfc8785, v), c)
  {
    SmallKeysAscending();
    var crypto := [String(c.enc), String(c.kdf), String(c.nonce)];
    RecordPrintable(CRYPTO_KEYS, crypto);
    RecordField(CRYPTO_KEYS, crypto, 0);
    RecordField(CRYPTO_KEYS, crypto, 1);
    RecordField(CRYPTO_KEYS, crypto, 2);
  }

  lemma BodySays(c: Core, v: Json)
    requires v == Object(MembersOf(BODY_KEYS, [String(c.ciphertext)]))
    ensures Field(Norm(Rfc8785, v), Ascii("ciphertext")) == String(c.ciphertext)
  {
    SmallKeysAscending();
    RecordPrintable(BODY_KEYS, [String(c.ciphertext)]);
    RecordField(BODY_KEYS, [String(c.ciphertext)], 0);
  }

  /** What a parsed transcript item says. */
  ghost predicate SaysItem(v: Json, h: Hash, length: Length, i: nat, c: Core) {
    && Field(v, Ascii("i")) == Number(Digits(i)) && Field(v, Ascii("ts")) == String(c.ts)
    && Field(v, Ascii("type")) == String(c.kind) && Field(v, Ascii("msg_hash")) == String(h(CoreText(c)))
    && Field(v, Ascii("ciphertext_len")) == Number(Digits(length(c.ciphertext)))
  }

  /** The hashed text says session and version, and of each message its place counted from one,
      its time stamp, its type, the hash of its core and the length of its ciphertext. */
  lemma TranscriptSays(h: Hash, length: Length, s: Text, cs: seq<Core>)
    ensures var v := ParseText(TranscriptText(h, length, s, cs));
            && v.Some? && Field(v.value, Ascii("session_id")) == String(s)
            && Field(v.value, Ascii("v")) == String(Ascii("0.4.3"))
            && var probe := Field(v.value, Ascii("probe"));
               && probe.Array? && |probe.items| == |cs|
               && forall i :: 0 <= i < |cs| ==> SaysItem(probe.items[i], h, length, i + 1, cs[i])
  {
    var v := TranscriptJson(h, length, s, cs);
    TranscriptPrintable(h, length, s, cs);
    TranscriptFinite(h, length, s, cs);
    NormalRead(v);
    TranscriptRead(h, length, s, cs, Norm(Rfc8785, v));
    var items := ItemsJson(h, length, cs);
    ItemsSay(h, length, cs, items, NormItems(Rfc8785, items));
  }

  lemma TranscriptRead(h: Hash, length: Length, s: Text, cs: seq<Core>, v: Json)
    requires Printable(TranscriptJson(h, length, s, cs)) && v == Norm(Rfc8785, TranscriptJson(h, length, s, cs))
    ensures Field(v, Ascii("session_id")) == String(s) && Field(v, Ascii("v")) == String(Ascii("0.4.3"))
    ensures Field(v, Ascii("probe")) == Array(NormItems(Rfc8785, ItemsJson(h, length, cs)))
  {
    var values := TranscriptValues(h, length, s, cs);
    RecordField(TRANSCRIPT_KEYS, values, 0);
    RecordField(TRANSCRIPT_KEYS, values, 1);
    RecordField(TRANSCRIPT_KEYS, values, 2);
  }

  lemma ItemsSay(h: Hash, length: Length, cs: seq<Core>, items: seq<Json>, r: seq<Json>)
    requires items == ItemsJson(h, length, cs) && r == NormItems(Rfc8785, items)
    ensures |r| == |cs| && forall i :: 0 <= i < |cs| ==> SaysItem(r[i], h, length, i + 1, cs[i])
  {
    forall i | 0 <= i < |cs| ensures SaysItem(r[i], h, length, i + 1, cs[i]) {
      ItemIs(h, length, cs, i);
      ItemSays(h, length, i + 1, cs[i], items[i], r[i]);
    }
  }

  lemma ItemSays(h: Hash, length: Length, i: nat, c: Core, item: Json, v: Json)
    requires item == ItemJson(h, length, i, c) && v == Norm(Rfc8785, item)
    ensures SaysItem(v, h, length, i, c)
  {
    var values := ItemValues(h, length, i, c);
    ItemPrintable(h, length, i, c);
    RecordField(ITEM_KEYS, values, 0);
    RecordField(ITEM_KEYS, values, 1);
    RecordField(ITEM_KEYS, values, 2);
    RecordField(ITEM_KEYS, values, 3);
    RecordField(ITEM_KEYS, values, 4);
  }

  /** The hash does not depend on arrival order, and on nothing less than the collection of
      cores: in a session whose keys identify messages, two nodes compute the same hash
      exactly when they hold the same probe messages, each equally often. */
  lemma HashOfCollection(h: Hash, length: Length, s: Text, es: seq<Envelope>, fs: seq<Envelope>)
    requires Injective(h) && KeysIdentify(ProbeCores(s, es))
    ensures TranscriptHash(h, length, s, es) == TranscriptHash(h, length, s, fs) <==>
            multiset(ProbeCores(s, es)) == multiset(ProbeCores(s, fs))
  {
    HashSeparates(h, length, s, es, s, fs);
    var cs, ds := ProbeCores(s, es), ProbeCores(s, fs);
    if multiset(cs) == multiset(ds) {
      SortInOrder(cs);
      SortInOrder(ds);
      forall c | c in SortCores(cs) ensures c in cs { assert c in multiset(cs); }
      InOrderUnique(SortCores(cs), SortCores(ds));
    }
  }

  lemma {:induction false} ProbeCoresAppend(s: Text, es: seq<Envelope>, e: Envelope)
    ensures ProbeCores(s, es + [e]) == ProbeCores(s, es) + (if IsProbe(s, e) then [e.core] else [])
  {
    if es == [] {
      assert es + [e] == [e] && [e][1..] == [];
    } else {
      ProbeCoresAppend(s, es[1..], e);
      assert (es + [e])[1..] == es[1..] + [e];
    }
  }

  lemma SortLength(cs: seq<Core>)
    ensures |SortCores(cs)| == |cs|
  {
    assert |multiset(SortCores(cs))| == |multiset(cs)|;
  }

  /** Keeping one more message, a second delivery of an old one included, changes the hash
      exactly when the message is a probe of the session. */
  lemma ExtraMessageShows(h: Hash, length: Length, s: Text, es: seq<Envelope>, e: Envelope)
    requires Injective(h)
    ensures TranscriptHash(h, length, s, es + [e]) == TranscriptHash(h, length, s, es) <==>
            !(Ascii("probe.") <= e.core.kind && e.core.sessionId == s)
  {
    HashSeparates(h, length, s, es + [e], s, es);
    ProbeCoresAppend(s, es, e);
    if IsProbe(s, e) {
      SortLength(ProbeCores(s, es + [e]));
      SortLength(ProbeCores(s, es));
    } else {
      assert ProbeCores(s, es) + [] == ProbeCores(s, es);
    }
  }
}
