/** Signing a release manifest and verifying the file it is published as. */
module Release {
  import opened Json
  import opened CanonicalJson
  import opened JsValue
  import opened Wrappers

  const SIGNATURE: Text := [0x73, 0x69, 0x67, 0x6e, 0x61, 0x74, 0x75, 0x72, 0x65]
  const NEWLINE: Unit := 0x0a

  type Signer = Text -> Text

  /** Whether a base64 text is a signature of a message under the release key. */
  type KeyCheck = (Text, Text) -> bool

  /** The file written for a release: its canonical text is signed, the signature is added
      as a member, and the result is printed canonically with a final newline. */
  function SignedFile(release: seq<Member>, sign: Signer): Text {
    var signature := sign(Stringify(Stable, Object(release)));
    Stringify(Stable, Object(Assign(release, Member(SIGNATURE, String(signature))))) + [NEWLINE]
  }

  datatype Verdict = Verified | NotObject | MissingSignature | InvalidSignature | Threw

  function Without(ms: seq<Member>, k: Text): (r: seq<Member>)
    ensures forall m :: m in r <==> m in ms && m.key != k
  {
    if ms == [] then []
    else
      assert ms == [ms[0]] + ms[1..];
      (if ms[0].key == k then [] else [ms[0]]) + Without(ms[1..], k)
  }

  /** The values that count as false in a condition. */
  predicate Falsy(v: Json) {
    match v
    case Null => true
    case Bool(b) => !b
    case Number(l) => l == [0x30] || l == [0x2d, 0x30]
    case NotFinite(n) => n == Ascii("NaN")
    case String(s) => s == []
    case _ => false
  }

  /** `String(x || '')`, or none when the conversion throws. */
  function SignatureText(v: Json): Option<Text> { if Falsy(v) then Some([]) else Rendered(v) }

  function Verify(manifest: Json, check: KeyCheck): Verdict {
    match manifest
    case Array(_) => MissingSignature
    case Object(ms) =>
      var signature := SignatureText(Field(manifest, SIGNATURE));
      if signature.None? then Threw
      else if Trim(signature.value) == [] then MissingSignature
      else if check(Stringify(Stable, Object(Without(ms, SIGNATURE))), Trim(signature.value)) then Verified
      else InvalidSignature
    case _ => NotObject
  }

  lemma {:induction false} WithoutDistinct(ms: seq<Member>, k: Text)
    requires DistinctKeys(ms)
    ensures DistinctKeys(Without(ms, k))
  {
    if ms != [] { WithoutDistinct(ms[1..], k); }
  }

  /** Dropping a member drops its field and no other. */
  lemma WithoutFields(ms: seq<Member>, k: Text)
    requires Printable(Object(ms))
    ensures Printable(Object(Without(ms, k)))
    ensures MeaningOf(Stable, Object(Without(ms, k))) == Record(MeaningOf(Stable, Object(ms)).fields - {k})
  {
    WithoutDistinct(ms, k);
    ObjectFields(Stable, ms);
    ObjectFields(Stable, Without(ms, k));
    RestOfFields(ms, k, FieldsOf(Stable, Without(ms, k)), FieldsOf(Stable, ms));
  }

  lemma RestOfFields(ms: seq<Member>, k: Text, f: map<Text, Meaning>, g: map<Text, Meaning>)
    requires forall j :: j in f ==> exists x :: x in Without(ms, k) && Keep(Stable, x.key) && x.key == j
    requires forall j :: j in g ==> exists x :: x in ms && Keep(Stable, x.key) && x.key == j
    requires forall x :: x in ms && Keep(Stable, x.key) ==> x.key in g
    requires forall x :: x in Without(ms, k) && Keep(Stable, x.key) ==> x.key in f && f[x.key] == g[x.key]
    ensures f == g - {k}
  {
    var h := g - {k};
    forall j ensures j in f <==> j in h {
      if j in h {
        var x :| x in ms && Keep(Stable, x.key) && x.key == j;
        assert x in Without(ms, k);
      }
    }
    forall j | j in f ensures f[j] == h[j] {
      var x :| x in Without(ms, k) && Keep(Stable, x.key) && x.key == j;
    }
  }

  /** A manifest stripped of its signature prints as the release did, whatever else the
      printing and parsing of the signed file reordered or dropped. */
  lemma StrippedText(release: seq<Member>, signature: Text)
    requires Printable(Object(release)) && !HasKey(release, SIGNATURE)
    ensures var signed := Assign(release, Member(SIGNATURE, String(signature)));
            && Printable(Object(signed)) && Printable(Object(NormOf(Stable, signed)))
            && Member(SIGNATURE, String(signature)) in NormOf(Stable, signed)
            && Stringify(Stable, Object(Without(NormOf(Stable, signed), SIGNATURE))) ==
                Stringify(Stable, Object(release))
  {
    var m := Member(SIGNATURE, String(signature));
    AssignFresh(release, m);
    var signed := release + [m];
    SignedPrintable(release, m);
    var back := NormOf(Stable, signed);
    NormObject(Stable, signed);
    assert m in signed && Member(m.key, Norm(Stable, m.value)) in back;
    assert Object(back) == Norm(Stable, Object(signed));
    NormMeaning(Stable, Object(signed));
    WithoutFields(back, SIGNATURE);
    WithoutFields(signed, SIGNATURE);
    WithoutAppended(release, m);
    NormUnique(Stable, Object(Without(back, SIGNATURE)), Object(release));
  }

  lemma SignedPrintable(release: seq<Member>, m: Member)
    requires Printable(Object(release)) && m.value.String?
    requires forall x :: x in release ==> x.key != m.key
    ensures Printable(Object(release + [m]))
  {
    var signed := release + [m];
    assert DistinctKeys(signed);
  }

  lemma {:induction false} WithoutAppended(ms: seq<Member>, m: Member)
    requires forall x :: x in ms ==> x.key != m.key
    ensures Without(ms + [m], m.key) == ms
  {
    if ms == [] {
      assert ms + [m] == [m] && [m][1..] == [];
    } else {
      WithoutAppended(ms[1..], m);
      assert (ms + [m])[1..] == ms[1..] + [m] && ms == [ms[0]] + ms[1..];
    }
  }

  /** Every published release file parses, and the parsed manifest verifies: the verifier
      recovers the signed text unit for unit. */
  lemma SignThenVerify(release: seq<Member>, sign: Signer, check: KeyCheck)
    requires Proper(Object(release)) && !HasKey(release, SIGNATURE)
    requires var msg := Stringify(Stable, Object(release));
             sign(msg) != [] && Trim(sign(msg)) == sign(msg) && check(msg, sign(msg))
    ensures var manifest := Parse(SignedFile(release, sign));
            && manifest.Some? && manifest.value.Object?
            && Stringify(Stable, Object(Without(manifest.value.members, SIGNATURE))) ==
                Stringify(Stable, Object(release))
            && Field(manifest.value, Ascii("signature")) == String(sign(Stringify(Stable, Object(release))))
            && Verify(manifest.value, check) == Verified
  {
    SignatureName();
    var signature := sign(Stringify(Stable, Object(release)));
    FileParses(release, signature);
    FileStripped(release, signature);
    LookupDistinct(ReadBack(release, signature), Member(SIGNATURE, String(signature)));
    VerifyStripped(ReadBack(release, signature), signature, check);
  }

  /** The members of the parsed file. */
  function ReadBack(release: seq<Member>, signature: Text): seq<Member> {
    NormOf(Stable, Assign(NulledMembers(release), Member(SIGNATURE, String(signature))))
  }

  lemma FileParses(release: seq<Member>, signature: Text)
    requires Proper(Object(release)) && !HasKey(release, SIGNATURE)
    ensures Parse(Stringify(Stable, Object(Assign(release, Member(SIGNATURE, String(signature))))) + [NEWLINE]) ==
            Some(Object(ReadBack(release, signature)))
  {
    var m := Member(SIGNATURE, String(signature));
    AssignSigned(release, m);
    SignedProper(release, m);
    ParseSigned(Object(release + [m]), Object(NulledMembers(release) + [m]));
  }

  lemma ParseSigned(v: Json, read: Json)
    requires Proper(v) && Nulled(v) == read
    ensures Parse(Stringify(Stable, v) + [NEWLINE]) == Some(Norm(Stable, read))
  {
    StringifyParse(Stable, v, [NEWLINE]);
  }

  lemma AssignSigned(release: seq<Member>, m: Member)
    requires !HasKey(release, m.key)
    ensures Assign(release, m) == release + [m] && Assign(NulledMembers(release), m) == NulledMembers(release) + [m]
  {
    LookupNulled(release, m.key);
    AssignFresh(release, m);
    AssignFresh(NulledMembers(release), m);
  }

  lemma SignedProper(release: seq<Member>, m: Member)
    requires Proper(Object(release)) && m.value.String? && !HasKey(release, m.key)
    ensures Proper(Object(release + [m])) && Nulled(Object(release + [m])) == Object(NulledMembers(release) + [m])
  {
    assert !HasKey(release, m.key) ==> forall x :: x in release ==> x.key != m.key;
    SignedPrintable(release, m);
    SignedInRange(release, m);
    NulledPush(release, m);
  }

  lemma SignedInRange(release: seq<Member>, m: Member)
    requires InRange(Object(release)) && m.value.String?
    ensures InRange(Object(release + [m]))
  {
  }

  lemma NulledPush(ms: seq<Member>, m: Member)
    requires m.value.String?
    ensures NulledMembers(ms + [m]) == NulledMembers(ms) + [m]
  {
  }

  lemma FileStripped(release: seq<Member>, signature: Text)
    requires Printable(Object(release)) && !HasKey(release, SIGNATURE)
    ensures var back := ReadBack(release, signature);
            && Printable(Object(back)) && Member(SIGNATURE, String(signature)) in back
            && Stringify(Stable, Object(Without(back, SIGNATURE))) == Stringify(Stable, Object(release))
  {
    NulledPrintable(Object(release));
    LookupNulled(release, SIGNATURE);
    StringifyNulled(Stable, Object(release));
    StrippedText(NulledMembers(release), signature);
  }

  lemma VerifyStripped(ms: seq<Member>, signature: Text, check: KeyCheck)
    requires DistinctKeys(ms) && Member(SIGNATURE, String(signature)) in ms
    requires signature != [] && Trim(signature) == signature
    ensures Verify(Object(ms), check) ==
            if check(Stringify(Stable, Object(Without(ms, SIGNATURE))), signature) then Verified else InvalidSignature
  {
    LookupDistinct(ms, Member(SIGNATURE, String(signature)));
  }

  lemma SignatureName()
    ensures SIGNATURE == Ascii("signature")
  {
  }

  /** What counts as false: null, false, zero of either sign, NaN and the empty string. */
  lemma FalsyExactly(v: Json)
    ensures Falsy(v) <==>
            || v == Null || v == Bool(false) || v == Number(Ascii("0")) || v == Number(Ascii("-0"))
            || v == NotFinite(Ascii("NaN")) || v == String([])
  {
    assert Ascii("0") == [0x30] && Ascii("-0") == [0x2d, 0x30];
  }

  /** The verdict from the fields of the manifest: a signature that says nothing is missing, one
      that cannot be a string throws, and any other is checked, without white space around it,
      against the text of the manifest without it. */
  lemma VerdictSays(manifest: Json, check: KeyCheck)
    ensures var s := Field(manifest, Ascii("signature"));
            if !manifest.Object? then Verify(manifest, check) == if manifest.Array? then MissingSignature else NotObject
            else if Rendered(s).None? then Verify(manifest, check) == Threw
            else if Falsy(s) || forall i :: 0 <= i < |Rendered(s).value| ==> IsTrimmed(Rendered(s).value[i])
              then Verify(manifest, check) == MissingSignature
            else
              var rest := Without(manifest.members, Ascii("signature"));
              Verify(manifest, check) ==
              if check(Stringify(Stable, Object(rest)), Trim(Rendered(s).value)) then Verified else InvalidSignature
  {
    SignatureName();
    var s := Field(manifest, SIGNATURE);
    if Rendered(s).Some? { TrimNothing(Rendered(s).value); }
  }

  /** A manifest whose signature cannot be converted to a string is refused with the other
      failures: it never verifies, and it throws exactly then. */
  lemma ThrowsExactly(ms: seq<Member>, check: KeyCheck)
    ensures Verify(Object(ms), check) == Threw <==> HasKey(ms, SIGNATURE) && !Renders(Lookup(ms, SIGNATURE).value)
  {
    RendersExactly(Field(Object(ms), SIGNATURE));
  }

  /** With a signature that checks only against the text it was made for, a manifest that
      carries it verifies exactly when it says what the release said, as far as the text tells:
      a number that is not finite says null. */
  lemma TamperEvident(release: seq<Member>, signature: Text, manifest: Json, check: KeyCheck)
    requires Printable(Object(release)) && Printable(manifest) && manifest.Object?
    requires Member(SIGNATURE, String(signature)) in manifest.members
    requires signature != [] && Trim(signature) == signature
    requires forall t :: check(t, signature) <==> t == Stringify(Stable, Object(release))
    ensures Printable(Nulled(Object(Without(manifest.members, SIGNATURE)))) && Printable(Nulled(Object(release)))
    ensures Verify(manifest, check) == Verified <==>
            MeaningOf(Stable, Nulled(Object(Without(manifest.members, SIGNATURE)))) ==
            MeaningOf(Stable, Nulled(Object(release)))
  {
    WithoutFields(manifest.members, SIGNATURE);
    VerifyStripped(manifest.members, signature, check);
    StringifyCanonical(Stable, Object(Without(manifest.members, SIGNATURE)), Object(release));
  }
}
