/** JSON values, the printer of `JSON.stringify` without spacing, and a reader for the grammar of
    RFC 8259 sections 2 to 7, over texts that are sequences of UTF-16 code units. The reader keeps
    numbers as they are written and members in the order of the text. */
module Json {
  import opened Wrappers

  type Unit = c: int | 0 <= c < 0x10000
  type Text = seq<Unit>

  /** A finite number is represented by the text it prints as, so minus zero is zero, NaN and the
      infinities, which print as null, by their name; an object keeps its members in enumeration
      order. */
  datatype Json =
    | Null
    | Bool(b: bool)
    | Number(lexeme: Text)
    | NotFinite(name: Text)
    | String(s: Text)
    | Array(items: seq<Json>)
    | Object(members: seq<Member>)

  datatype Member = Member(key: Text, value: Json)

  const QUOTE: Unit := 0x22
  const COMMA: Unit := 0x2c
  const COLON: Unit := 0x3a
  const BACKSLASH: Unit := 0x5c
  const OPEN_BRACKET: Unit := 0x5b
  const CLOSE_BRACKET: Unit := 0x5d
  const OPEN_BRACE: Unit := 0x7b
  const CLOSE_BRACE: Unit := 0x7d
  const LOWER_U: Unit := 0x75

  const NULL_TEXT: Text := [0x6e, 0x75, 0x6c, 0x6c]
  const TRUE_TEXT: Text := [0x74, 0x72, 0x75, 0x65]
  const FALSE_TEXT: Text := [0x66, 0x61, 0x6c, 0x73, 0x65]

  /** The text of an ASCII literal. */
  function Ascii(s: string): (t: Text)
    ensures |t| == |s| && forall i :: 0 <= i < |t| ==> t[i] < 0x80
  {
    seq(|s|, i requires 0 <= i < |s| => (s[i] as int) % 0x80)
  }

  predicate IsSpace(c: Unit) { c == 0x20 || c == 0x09 || c == 0x0a || c == 0x0d }

  /** The white space and line terminators that `trim` removes. */
  predicate IsTrimmed(c: Unit) {
    || IsSpace(c) || c == 0x0b || c == 0x0c || c == 0xa0 || c == 0x1680 || 0x2000 <= c <= 0x200a
    || c == 0x2028 || c == 0x2029 || c == 0x202f || c == 0x205f || c == 0x3000 || c == 0xfeff
  }

  /** The white space and line terminators of ECMAScript: tab to carriage return, the space, the
      space separators of Unicode, the two separators of lines and paragraphs, and the byte order
      mark. */
  lemma WhiteSpaceExactly(c: Unit)
    ensures IsTrimmed(c) <==>
            || 9 <= c <= 13 || c in {32, 160, 5760, 8239, 8287, 12288} || 8192 <= c <= 8202 || c in {8232, 8233, 65279}
  {
  }

  function TrimLeft(s: Text): Text {
    if s != [] && IsTrimmed(s[0]) then TrimLeft(s[1..]) else s
  }

  function TrimRight(s: Text): Text {
    if s != [] && IsTrimmed(s[|s| - 1]) then TrimRight(s[..|s| - 1]) else s
  }

  function Trim(s: Text): Text { TrimRight(TrimLeft(s)) }

  lemma {:induction false} TrimmedLeft(t: Text)
    ensures TrimLeft(t) != [] ==> !IsTrimmed(TrimLeft(t)[0])
    ensures |TrimLeft(t)| <= |t|
  {
    if t != [] && IsTrimmed(t[0]) { TrimmedLeft(t[1..]); }
  }

  lemma {:induction false} TrimmedRight(t: Text)
    ensures TrimRight(t) != [] ==> !IsTrimmed(TrimRight(t)[|TrimRight(t)| - 1])
    ensures TrimRight(t) <= t
  {
    if t != [] && IsTrimmed(t[|t| - 1]) { TrimmedRight(t[..|t| - 1]); }
  }

  /** Trimming again changes nothing. */
  lemma TrimTwice(t: Text)
    ensures Trim(Trim(t)) == Trim(t)
  {
    TrimmedLeft(t);
    TrimmedRight(TrimLeft(t));
  }

  lemma {:induction false} TrimLeftExactly(t: Text)
    ensures |TrimLeft(t)| <= |t| && TrimLeft(t) == t[|t| - |TrimLeft(t)|..]
    ensures forall i :: 0 <= i < |t| - |TrimLeft(t)| ==> IsTrimmed(t[i])
  {
    if t != [] && IsTrimmed(t[0]) {
      TrimLeftExactly(t[1..]);
      assert forall i :: 0 < i < |t| ==> t[i] == t[1..][i - 1];
    }
  }

  lemma {:induction false} TrimRightExactly(t: Text)
    ensures forall i :: |TrimRight(t)| <= i < |t| ==> IsTrimmed(t[i])
  {
    TrimmedRight(t);
    if t != [] && IsTrimmed(t[|t| - 1]) { TrimRightExactly(t[..|t| - 1]); }
  }

  /** White space up to `n` and from `m` on, and none at the ends of what is between. */
  ghost predicate Between(t: Text, n: nat, m: nat) {
    && n <= m <= |t|
    && (forall i :: 0 <= i < n ==> IsTrimmed(t[i])) && (forall i :: m <= i < |t| ==> IsTrimmed(t[i]))
    && (n < m ==> !IsTrimmed(t[n]) && !IsTrimmed(t[m - 1]))
  }

  lemma TrimBetween(t: Text, n: nat)
    requires n <= |t| && TrimLeft(t) == t[n..] && forall i :: 0 <= i < n ==> IsTrimmed(t[i])
    ensures n + |Trim(t)| <= |t| && Trim(t) == t[n..n + |Trim(t)|] && Between(t, n, n + |Trim(t)|)
  {
    var u, m := t[n..], n + |Trim(t)|;
    TrimmedLeft(t);
    TrimRightExactly(u);
    TrimmedRight(u);
    forall i | m <= i < |t| ensures IsTrimmed(t[i]) { assert t[i] == u[i - n]; }
    if n < m { assert t[n] == u[0] && t[m - 1] == Trim(t)[m - n - 1]; }
  }

  /** Trimming takes white space and line terminators off both ends, and as much as there is. */
  lemma TrimExactly(t: Text)
    ensures exists n: nat, m: nat :: Between(t, n, m) && Trim(t) == t[n..m]
  {
    TrimLeftExactly(t);
    TrimBetween(t, |t| - |TrimLeft(t)|);
  }

  /** Nothing is left exactly of texts without anything else. */
  lemma TrimNothing(t: Text)
    ensures Trim(t) == [] <==> forall i :: 0 <= i < |t| ==> IsTrimmed(t[i])
  {
    TrimExactly(t);
    var n: nat, m: nat :| Between(t, n, m) && Trim(t) == t[n..m];
  }

  predicate IsDigit(c: Unit) { 0x30 <= c <= 0x39 }

  /** The characters a JSON number is written with: digits, sign, point, exponent. */
  predicate IsNumberChar(c: Unit) {
    IsDigit(c) || c == 0x2b || c == 0x2d || c == 0x2e || c == 0x45 || c == 0x65
  }

  predicate AllDigits(k: Text) { forall i :: 0 <= i < |k| ==> IsDigit(k[i]) }

  function DecimalValue(k: Text): nat
    requires AllDigits(k)
  {
    if k == [] then 0 else 10 * DecimalValue(k[..|k| - 1]) + (k[|k| - 1] - 0x30)
  }

  /** The number of digits a text begins with. */
  function DigitCount(t: Text): (n: nat)
    ensures n <= |t| && AllDigits(t[..n])
    ensures n < |t| ==> !IsDigit(t[n])
  {
    if t != [] && IsDigit(t[0]) then
      var n := DigitCount(t[1..]);
      assert t[..n + 1] == [t[0]] + t[1..][..n];
      n + 1
    else 0
  }

  /** A number as it is written: sign, digits before and after the point, exponent. */
  datatype Decimal = Decimal(negative: bool, whole: Text, fraction: Text, exponent: int)

  /** The optional fraction, and what follows it. */
  function ReadFraction(t: Text): (r: Option<(Text, Text)>)
    ensures r.Some? ==> AllDigits(r.value.0)
  {
    if t == [] || t[0] != 0x2e then Some(([], t))
    else
      var n := DigitCount(t[1..]);
      if n == 0 then None else Some((t[1..][..n], t[1..][n..]))
  }

  /** The optional exponent, which ends the number. */
  function ReadExponent(t: Text): Option<int> {
    if t == [] then Some(0)
    else if t[0] != 0x45 && t[0] != 0x65 then None
    else
      var signed := |t| > 1 && (t[1] == 0x2b || t[1] == 0x2d);
      var digits := if signed then t[2..] else t[1..];
      if digits == [] || !AllDigits(digits) then None
      else
        var n: int := DecimalValue(digits);
        Some(if signed && t[1] == 0x2d then -n else n)
  }

  /** The grammar of numbers, section 6 of RFC 8259. */
  function ReadNumber(t: Text): (r: Option<Decimal>)
    ensures r.Some? ==> AllDigits(r.value.whole) && AllDigits(r.value.fraction)
    ensures r.Some? ==> t != [] && (IsDigit(t[0]) || t[0] == 0x2d)
  {
    var negative := t != [] && t[0] == 0x2d;
    var u := if negative then t[1..] else t;
    var n := DigitCount(u);
    if n == 0 || (n > 1 && u[0] == 0x30) then None
    else
      match ReadFraction(u[n..])
      case None => None
      case Some((fraction, rest)) =>
        match ReadExponent(rest)
        case None => None
        case Some(e) => Some(Decimal(negative, u[..n], fraction, e))
  }

  predicate IsLexeme(t: Text) { (forall i :: 0 <= i < |t| ==> IsNumberChar(t[i])) && ReadNumber(t).Some? }

  ghost predicate DistinctKeys(ms: seq<Member>) {
    forall i, j :: 0 <= i < j < |ms| ==> ms[i].key != ms[j].key
  }

  /** What holds of every value a JSON text spells, numbers being taken as written. */
  ghost predicate WellFormed(v: Json) {
    match v
    case Number(l) => IsLexeme(l)
    case NotFinite(_) => false
    case Array(items) => forall x :: x in items ==> WellFormed(x)
    case Object(ms) => DistinctKeys(ms) && forall m :: m in ms ==> WellFormed(m.value)
    case _ => true
  }

  // ------------------------------------------------------------------- fields

  predicate HasKey(ms: seq<Member>, k: Text) { exists m :: m in ms && m.key == k }

  function Lookup(ms: seq<Member>, k: Text): (r: Option<Json>)
    ensures r.Some? <==> HasKey(ms, k)
    ensures r.Some? ==> Member(k, r.value) in ms
  {
    if ms == [] then None
    else if ms[0].key == k then Some(ms[0].value)
    else
      assert ms == [ms[0]] + ms[1..];
      Lookup(ms[1..], k)
  }

  lemma LookupDistinct(ms: seq<Member>, m: Member)
    requires DistinctKeys(ms) && m in ms
    ensures Lookup(ms, m.key) == Some(m.value)
  {
  }

  // ---------------------------------------------------------------- printing

  function HexDigit(n: nat): Unit
    requires n < 16
  {
    if n < 10 then 0x30 + n else 0x61 + (n - 10)
  }

  predicate IsHighSurrogate(c: Unit) { 0xd800 <= c < 0xdc00 }
  predicate IsLowSurrogate(c: Unit) { 0xdc00 <= c < 0xe000 }

  function UnicodeEscape(c: Unit): Text {
    [BACKSLASH, LOWER_U, HexDigit(c / 4096), HexDigit(c / 256 % 16), HexDigit(c / 16 % 16), HexDigit(c % 16)]
  }

  /** The escape of one code unit that is not part of a surrogate pair. */
  function EscapeUnit(c: Unit): Text {
    if c == QUOTE || c == BACKSLASH then [BACKSLASH, c]
    else if c == 0x08 then [BACKSLASH, 0x62]
    else if c == 0x09 then [BACKSLASH, 0x74]
    else if c == 0x0a then [BACKSLASH, 0x6e]
    else if c == 0x0c then [BACKSLASH, 0x66]
    else if c == 0x0d then [BACKSLASH, 0x72]
    else if c < 0x20 || IsHighSurrogate(c) || IsLowSurrogate(c) then UnicodeEscape(c)
    else [c]
  }

  /** Section 3.2.2.2 of RFC 8785: the two-character escapes where there is one, lower-case hex
      for the other controls and for surrogates, and everything else as it is. */
  lemma EscapeExactly(c: Unit)
    ensures var e := EscapeUnit(c);
            && (e == [c] <==> c >= 0x20 && c != 0x22 && c != 0x5c && !(0xd800 <= c <= 0xdfff))
            && (|e| == 2 <==> c in {0x08, 0x09, 0x0a, 0x0c, 0x0d, 0x22, 0x5c})
            && (|e| == 1 || |e| == 2 || |e| == 6) && (|e| > 1 ==> e[0] == 0x5c)
            && (|e| == 6 ==> e[1] == 0x75 && forall i :: 2 <= i < 6 ==> 0x30 <= e[i] <= 0x39 || 0x61 <= e[i] <= 0x66)
  {
  }

  function Escape(s: Text): Text {
    if s == [] then []
    else if StartsWithPair(s) then s[..2] + Escape(s[2..])
    else EscapeUnit(s[0]) + Escape(s[1..])
  }

  function PrintString(s: Text): Text { [QUOTE] + Escape(s) + [QUOTE] }

  function Print(v: Json): Text
    decreases v, 0
  {
    match v
    case Null => NULL_TEXT
    case Bool(b) => if b then TRUE_TEXT else FALSE_TEXT
    case Number(l) => l
    case NotFinite(_) => NULL_TEXT
    case String(s) => PrintString(s)
    case Array(items) => [OPEN_BRACKET] + PrintItems(items) + [CLOSE_BRACKET]
    case Object(ms) => [OPEN_BRACE] + PrintMembers(ms) + [CLOSE_BRACE]
  }

  function PrintItems(items: seq<Json>): Text
    decreases items, 1
  {
    if items == [] then []
    else if |items| == 1 then Print(items[0])
    else Print(items[0]) + [COMMA] + PrintItems(items[1..])
  }

  function PrintMember(m: Member): Text
    decreases m, 1
  {
    PrintString(m.key) + [COLON] + Print(m.value)
  }

  function PrintMembers(ms: seq<Member>): Text
    decreases ms, 2
  {
    if ms == [] then []
    else if |ms| == 1 then PrintMember(ms[0])
    else PrintMember(ms[0]) + [COMMA] + PrintMembers(ms[1..])
  }

  /** The marks between the parts of a text, and nothing else. */
  lemma ArrayPrinted(v: Json, w: Json)
    ensures Print(Array([v, w])) == Ascii("[") + (Print(v) + Ascii(",") + Print(w)) + Ascii("]")
    ensures Print(Array([])) == Ascii("[]")
  {
    assert [v, w][1..] == [w] && [w][0] == w;
    assert PrintItems([v, w]) == Print(v) + [COMMA] + Print(w);
    MarksAre();
  }

  lemma ObjectPrinted(a: Member, b: Member)
    ensures Print(Object([a, b])) == Ascii("{") + (PrintMember(a) + Ascii(",") + PrintMember(b)) + Ascii("}")
    ensures PrintMember(a) == PrintString(a.key) + Ascii(":") + Print(a.value)
    ensures Print(Object([])) == Ascii("{}")
  {
    assert [a, b][1..] == [b] && [b][0] == b;
    assert PrintMembers([a, b]) == PrintMember(a) + [COMMA] + PrintMember(b);
    MarksAre();
  }

  lemma MarksAre()
    ensures [OPEN_BRACKET] == Ascii("[") && [CLOSE_BRACKET] == Ascii("]") && [COMMA] == Ascii(",")
    ensures [OPEN_BRACE] == Ascii("{") && [CLOSE_BRACE] == Ascii("}") && [COLON] == Ascii(":")
    ensures [OPEN_BRACKET] + [] + [CLOSE_BRACKET] == Ascii("[]") && [OPEN_BRACE] + [] + [CLOSE_BRACE] == Ascii("{}")
    ensures NULL_TEXT == Ascii("null") && TRUE_TEXT == Ascii("true") && FALSE_TEXT == Ascii("false")
  {
  }

  // ----------------------------------------------------------------- parsing

  function SkipSpace(s: Text): (r: Text)
    ensures |r| <= |s|
    ensures s != [] && !IsSpace(s[0]) ==> r == s
  {
    if s != [] && IsSpace(s[0]) then SkipSpace(s[1..]) else s
  }

  /** The longest run of number characters at the front of the text. */
  function NumberPrefix(s: Text): (n: nat)
    ensures n <= |s|
    ensures forall i :: 0 <= i < n ==> IsNumberChar(s[i])
  {
    if s != [] && IsNumberChar(s[0]) then 1 + NumberPrefix(s[1..]) else 0
  }

  function HexValue(c: Unit): (r: Option<nat>)
    ensures r.Some? ==> r.value < 16
  {
    if 0x30 <= c <= 0x39 then Some(c - 0x30)
    else if 0x61 <= c <= 0x66 then Some(c - 0x61 + 10)
    else if 0x41 <= c <= 0x46 then Some(c - 0x41 + 10)
    else None
  }

  /** Reads one escape sequence, the text starting just after its backslash. */
  function ParseEscape(s: Text): (r: Option<(Unit, Text)>)
    ensures r.Some? ==> |r.value.1| < |s|
  {
    if s == [] then None
    else if s[0] == QUOTE || s[0] == BACKSLASH || s[0] == 0x2f then Some((s[0], s[1..]))
    else if s[0] == 0x62 then Some((0x08, s[1..]))
    else if s[0] == 0x74 then Some((0x09, s[1..]))
    else if s[0] == 0x6e then Some((0x0a, s[1..]))
    else if s[0] == 0x66 then Some((0x0c, s[1..]))
    else if s[0] == 0x72 then Some((0x0d, s[1..]))
    else if s[0] == LOWER_U && |s| >= 5 then
      match (HexValue(s[1]), HexValue(s[2]), HexValue(s[3]), HexValue(s[4]))
      case (Some(a), Some(b), Some(c), Some(d)) => Some((4096 * a + 256 * b + 16 * c + d, s[5..]))
      case _ => None
    else None
  }

  /** Reads a string, the text starting just after its opening quote. */
  function ParseString(s: Text): (r: Option<(Text, Text)>)
    ensures r.Some? ==> |r.value.1| < |s|
    decreases |s|
  {
    if s == [] || s[0] < 0x20 then None
    else if s[0] == QUOTE then Some(([], s[1..]))
    else if s[0] == BACKSLASH then
      match ParseEscape(s[1..])
      case None => None
      case Some((c, rest)) =>
        (match ParseString(rest)
         case None => None
         case Some((t, rest')) => Some(([c] + t, rest')))
    else
      match ParseString(s[1..])
      case None => None
      case Some((t, rest)) => Some(([s[0]] + t, rest))
  }

  /** Assigning members one by one: a repeated key keeps its place and takes the new value. */
  function Assign(ms: seq<Member>, m: Member): seq<Member> {
    if ms == [] then [m]
    else if ms[0].key == m.key then [m] + ms[1..]
    else [ms[0]] + Assign(ms[1..], m)
  }

  function AssignAll(ms: seq<Member>): seq<Member> {
    if ms == [] then [] else Assign(AssignAll(ms[..|ms| - 1]), ms[|ms| - 1])
  }

  function ParseValue(s: Text): (r: Option<(Json, Text)>)
    ensures r.Some? ==> |r.value.1| < |s|
    decreases |s|, 0
  {
    if s == [] then None
    else if IsSpace(s[0]) then ParseValue(s[1..])
    else if s[0] == QUOTE then
      match ParseString(s[1..])
      case None => None
      case Some((t, rest)) => Some((String(t), rest))
    else if s[0] == OPEN_BRACKET then ParseArray(s[1..])
    else if s[0] == OPEN_BRACE then ParseObject(s[1..])
    else if IsDigit(s[0]) || s[0] == 0x2d then ParseNumber(s)
    else ParseWord(s)
  }

  function ParseWord(s: Text): (r: Option<(Json, Text)>)
    ensures r.Some? ==> |r.value.1| < |s|
  {
    if NULL_TEXT <= s then Some((Null, s[4..]))
    else if TRUE_TEXT <= s then Some((Bool(true), s[4..]))
    else if FALSE_TEXT <= s then Some((Bool(false), s[5..]))
    else None
  }

  function ParseNumber(s: Text): (r: Option<(Json, Text)>)
    requires s != [] && IsNumberChar(s[0])
    ensures r.Some? ==> |r.value.1| < |s|
  {
    var n := NumberPrefix(s);
    assert n > 0;
    if IsLexeme(s[..n]) then Some((Number(s[..n]), s[n..])) else None
  }

  /** Reads an array, the text starting just after its opening bracket. */
  function ParseArray(s: Text): (r: Option<(Json, Text)>)
    ensures r.Some? ==> |r.value.1| < |s|
    decreases |s|, 2
  {
    var s1 := SkipSpace(s);
    if s1 != [] && s1[0] == CLOSE_BRACKET then Some((Array([]), s1[1..]))
    else
      match ParseItems(s1)
      case None => None
      case Some((items, rest)) => Some((Array(items), rest))
  }

  /** Reads an object, the text starting just after its opening brace. */
  function ParseObject(s: Text): (r: Option<(Json, Text)>)
    ensures r.Some? ==> |r.value.1| < |s|
    decreases |s|, 3
  {
    var s1 := SkipSpace(s);
    if s1 != [] && s1[0] == CLOSE_BRACE then Some((Object([]), s1[1..]))
    else
      match ParseMembers(s1)
      case None => None
      case Some((ms, rest)) => Some((Object(AssignAll(ms)), rest))
  }

  /** Reads one or more items and the closing bracket. */
  function ParseItems(s: Text): (r: Option<(seq<Json>, Text)>)
    ensures r.Some? ==> |r.value.1| < |s|
    decreases |s|, 1
  {
    match ParseValue(s)
    case None => None
    case Some((v, rest)) =>
      var s1 := SkipSpace(rest);
      if s1 == [] then None
      else if s1[0] == CLOSE_BRACKET then Some(([v], s1[1..]))
      else if s1[0] != COMMA then None
      else
        match ParseItems(s1[1..])
        case None => None
        case Some((more, rest')) => Some(([v] + more, rest'))
  }

  /** Reads a key, its colon and its value. */
  function ParseMember(s: Text): (r: Option<(Member, Text)>)
    ensures r.Some? ==> |r.value.1| < |s|
    decreases |s|, 1
  {
    var s0 := SkipSpace(s);
    if s0 == [] || s0[0] != QUOTE then None
    else
      match ParseString(s0[1..])
      case None => None
      case Some((k, rest)) => ParseMemberValue(k, SkipSpace(rest))
  }

  /** Reads the colon and the value of the member with key k. */
  function ParseMemberValue(k: Text, s: Text): (r: Option<(Member, Text)>)
    ensures r.Some? ==> |r.value.1| < |s|
    decreases |s|, 0
  {
    if s == [] || s[0] != COLON then None
    else
      match ParseValue(s[1..])
      case None => None
      case Some((v, rest)) => Some((Member(k, v), rest))
  }

  /** Reads one or more members and the closing brace. */
  function ParseMembers(s: Text): (r: Option<(seq<Member>, Text)>)
    ensures r.Some? ==> |r.value.1| < |s|
    decreases |s|, 2
  {
    match ParseMember(s)
    case None => None
    case Some((m, rest)) =>
      var s1 := SkipSpace(rest);
      if s1 == [] then None
      else if s1[0] == CLOSE_BRACE then Some(([m], s1[1..]))
      else if s1[0] != COMMA then None
      else
        match ParseMembers(s1[1..])
        case None => None
        case Some((more, rest')) => Some(([m] + more, rest'))
  }

  /** The value a text spells: one, with nothing but white space after it. */
  function ParseText(s: Text): Option<Json> {
    match ParseValue(s)
    case None => None
    case Some((v, rest)) => if SkipSpace(rest) == [] then Some(v) else None
  }

  // -------------------------------------------------------------- round trip

  lemma HexRoundTrip(n: nat)
    requires n < 16
    ensures HexValue(HexDigit(n)) == Some(n)
  {
  }

  lemma HexDigitsOf(c: Unit)
    ensures c / 4096 < 16
    ensures c == 4096 * (c / 4096) + 256 * (c / 256 % 16) + 16 * (c / 16 % 16) + c % 16
  {
    assert c / 256 == (c / 4096) * 16 + c / 256 % 16;
    assert c / 16 == (c / 256) * 16 + c / 16 % 16;
  }

  /** The escape reader on four digits. */
  lemma FourDigits(s: Text, a: nat, b: nat, c: nat, d: nat)
    requires a < 16 && b < 16 && c < 16 && d < 16
    requires |s| >= 5 && s[0] == LOWER_U && s[1] == HexDigit(a) && s[2] == HexDigit(b) && s[3] == HexDigit(c)
        && s[4] == HexDigit(d)
    ensures ParseEscape(s) == Some((4096 * a + 256 * b + 16 * c + d, s[5..]))
  {
    HexRoundTrip(a); HexRoundTrip(b); HexRoundTrip(c); HexRoundTrip(d);
  }

  lemma UnicodeEscapeRoundTrip(c: Unit, s: Text)
    requires |s| >= 5 && s[..5] == UnicodeEscape(c)[1..]
    ensures ParseEscape(s) == Some((c, s[5..]))
  {
    HexDigitsOf(c);
    var p := s[..5];
    var e := UnicodeEscape(c)[1..];
    assert p[0] == e[0] && p[1] == e[1] && p[2] == e[2] && p[3] == e[3] && p[4] == e[4];
    FourDigits(s, c / 4096, c / 256 % 16, c / 16 % 16, c % 16);
  }

  lemma ShortEscapeRoundTrip(c: Unit, s: Text)
    requires |EscapeUnit(c)| == 2 && s != [] && s[0] == EscapeUnit(c)[1]
    ensures ParseEscape(s) == Some((c, s[1..]))
  {
  }

  /** One escaped code unit in front of a text is read as that code unit. */
  lemma EscapeUnitRoundTrip(c: Unit, rest: Text)
    ensures ParseString(EscapeUnit(c) + rest) ==
            match ParseString(rest)
            case None => None
            case Some((t, r)) => Some(([c] + t, r))
  {
    var e := EscapeUnit(c);
    var t := e + rest;
    if |e| == 1 {
      assert e == [c] && t[0] == c && t[1..] == rest;
    } else if |e| == 2 {
      assert t[0] == BACKSLASH && t[1] == e[1] && t[1..][1..] == rest;
      ShortEscapeRoundTrip(c, t[1..]);
    } else {
      assert t[0] == BACKSLASH && t[1..][..5] == e[1..] && t[1..][5..] == rest;
      UnicodeEscapeRoundTrip(c, t[1..]);
    }
  }

  /** A code unit that needs no escape is read as itself. */
  lemma PlainUnitRoundTrip(c: Unit, rest: Text)
    requires c >= 0x20 && c != QUOTE && c != BACKSLASH
    ensures ParseString([c] + rest) ==
            match ParseString(rest)
            case None => None
            case Some((t, r)) => Some(([c] + t, r))
  {
    var t := [c] + rest;
    assert t[0] == c && t[1..] == rest;
  }

  predicate StartsWithPair(s: Text) {
    |s| >= 2 && IsHighSurrogate(s[0]) && IsLowSurrogate(s[1])
  }

  /** A pair of surrogates is printed as it is, wherever it stands, and any other unit by itself. */
  lemma EscapeNext(t: Text)
    requires t != []
    ensures Escape(t) ==
            if |t| >= 2 && 0xd800 <= t[0] <= 0xdbff && 0xdc00 <= t[1] <= 0xdfff then t[..2] + Escape(t[2..])
            else EscapeUnit(t[0]) + Escape(t[1..])
  {
  }

  /** The escapes that are read: eight of two characters, and four hex digits of either case. */
  lemma EscapesRead(c: Unit, rest: Text)
    ensures ParseEscape([c] + rest).Some? ==>
              || c in {'"' as int, '\\' as int, '/' as int}
              || c in {'b' as int, 't' as int, 'n' as int, 'f' as int, 'r' as int, 'u' as int}
    ensures c in {'"' as int, '\\' as int, '/' as int} ==> ParseEscape([c] + rest) == Some((c, rest))
    ensures c == 'b' as int ==> ParseEscape([c] + rest) == Some((8, rest))
    ensures c == 't' as int ==> ParseEscape([c] + rest) == Some((9, rest))
    ensures c == 'n' as int ==> ParseEscape([c] + rest) == Some((10, rest))
    ensures c == 'f' as int ==> ParseEscape([c] + rest) == Some((12, rest))
    ensures c == 'r' as int ==> ParseEscape([c] + rest) == Some((13, rest))
  {
    assert ([c] + rest)[1..] == rest;
  }

  lemma HexExactly(c: Unit)
    ensures HexValue(c) ==
            if '0' as int <= c <= '9' as int then Some(c - '0' as int)
            else if 'a' as int <= c <= 'f' as int then Some(c - 'a' as int + 10)
            else if 'A' as int <= c <= 'F' as int then Some(c - 'A' as int + 10)
            else None
  {
  }

  lemma EscapeSplit(s: Text, close: Text)
    requires s != []
    ensures StartsWithPair(s) ==> Escape(s) + close == [s[0]] + ([s[1]] + (Escape(s[2..]) + close))
    ensures !StartsWithPair(s) ==> Escape(s) + close == EscapeUnit(s[0]) + (Escape(s[1..]) + close)
  {
    if StartsWithPair(s) {
      Assoc(s[..2], Escape(s[2..]), close);
      assert s[..2] == [s[0]] + [s[1]];
      Assoc([s[0]], [s[1]], Escape(s[2..]) + close);
    } else {
      Assoc(EscapeUnit(s[0]), Escape(s[1..]), close);
    }
  }

  lemma PairRoundTrip(a: Unit, b: Unit, rest: Text, t: Text, r: Text)
    requires IsHighSurrogate(a) && IsLowSurrogate(b) && ParseString(rest) == Some((t, r))
    ensures ParseString([a] + ([b] + rest)) == Some(([a] + ([b] + t), r))
  {
    PlainUnitRoundTrip(b, rest);
    PlainUnitRoundTrip(a, [b] + rest);
  }

  /** Reading back an escaped string gives the string and what followed its closing quote. */
  lemma {:induction false} StringRoundTrip(s: Text, rest: Text)
    ensures ParseString(Escape(s) + ([QUOTE] + rest)) == Some((s, rest))
    decreases |s|
  {
    var close := [QUOTE] + rest;
    if s == [] {
      assert Escape(s) + close == close && close[1..] == rest;
    } else {
      EscapeSplit(s, close);
      if StartsWithPair(s) {
        StringRoundTrip(s[2..], rest);
        PairRoundTrip(s[0], s[1], Escape(s[2..]) + close, s[2..], rest);
        assert s == [s[0]] + ([s[1]] + s[2..]);
      } else {
        StringRoundTrip(s[1..], rest);
        EscapeUnitRoundTrip(s[0], Escape(s[1..]) + close);
        assert s == [s[0]] + s[1..];
      }
    }
  }

  /** A text after which a number that came before it has ended. */
  predicate Delimited(s: Text) { s == [] || !IsNumberChar(s[0]) }

  lemma {:induction false} NumberPrefixOf(l: Text, rest: Text)
    requires forall i :: 0 <= i < |l| ==> IsNumberChar(l[i])
    requires Delimited(rest)
    ensures NumberPrefix(l + rest) == |l|
  {
    if l == [] {
      assert l + rest == rest;
    } else {
      NumberPrefixOf(l[1..], rest);
      assert (l + rest)[1..] == l[1..] + rest;
    }
  }

  lemma PrintStart(v: Json)
    requires WellFormed(v)
    ensures |Print(v)| > 0 && !IsSpace(Print(v)[0]) && Print(v)[0] != CLOSE_BRACKET && Print(v)[0] != CLOSE_BRACE
  {
  }

  lemma WordPrintParse(v: Json, rest: Text)
    requires v.Null? || v.Bool?
    ensures ParseValue(Print(v) + rest) == Some((v, rest))
  {
    var p := Print(v);
    var t := p + rest;
    assert t[0] == p[0] && t[..|p|] == p && t[|p|..] == rest;
    assert NULL_TEXT[0] == 0x6e && TRUE_TEXT[0] == 0x74 && FALSE_TEXT[0] == 0x66;
    assert ParseValue(t) == ParseWord(t);
  }

  lemma NumberDispatch(t: Text)
    requires t != [] && (IsDigit(t[0]) || t[0] == 0x2d)
    ensures ParseValue(t) == ParseNumber(t)
  {
  }

  lemma NumberPrintParse(l: Text, rest: Text)
    requires IsLexeme(l) && Delimited(rest)
    ensures ParseValue(l + rest) == Some((Number(l), rest))
  {
    NumberPrefixOf(l, rest);
    var t := l + rest;
    assert t[0] == l[0] && t[..|l|] == l && t[|l|..] == rest;
    NumberDispatch(t);
  }

  lemma StringPrintParse(s: Text, rest: Text)
    ensures ParseValue(PrintString(s) + rest) == Some((String(s), rest))
  {
    StringRoundTrip(s, rest);
    var t := PrintString(s) + rest;
    assert t[0] == QUOTE && t[1..] == Escape(s) + ([QUOTE] + rest);
  }

  lemma OpenDispatch(inner: Text)
    ensures ParseValue([OPEN_BRACKET] + inner) == ParseArray(inner)
    ensures ParseValue([OPEN_BRACE] + inner) == ParseObject(inner)
  {
    var a, o := [OPEN_BRACKET] + inner, [OPEN_BRACE] + inner;
    assert a[0] == OPEN_BRACKET && a[1..] == inner;
    assert o[0] == OPEN_BRACE && o[1..] == inner;
  }

  lemma PrintArraySplit(items: seq<Json>, rest: Text)
    ensures Print(Array(items)) + rest == [OPEN_BRACKET] + (PrintItems(items) + ([CLOSE_BRACKET] + rest))
  {
    Assoc([OPEN_BRACKET] + PrintItems(items), [CLOSE_BRACKET], rest);
    Assoc([OPEN_BRACKET], PrintItems(items), [CLOSE_BRACKET] + rest);
  }

  lemma PrintObjectSplit(ms: seq<Member>, rest: Text)
    ensures Print(Object(ms)) + rest == [OPEN_BRACE] + (PrintMembers(ms) + ([CLOSE_BRACE] + rest))
  {
    Assoc([OPEN_BRACE] + PrintMembers(ms), [CLOSE_BRACE], rest);
    Assoc([OPEN_BRACE], PrintMembers(ms), [CLOSE_BRACE] + rest);
  }

  /** Whatever follows a printed value, reading it back gives the value and what followed. */
  lemma {:induction false} PrintParse(v: Json, rest: Text)
    requires WellFormed(v) && Delimited(rest)
    ensures ParseValue(Print(v) + rest) == Some((v, rest))
    decreases v, 0
  {
    match v
    case Number(l) => NumberPrintParse(l, rest);
    case String(s) => StringPrintParse(s, rest);
    case Array(items) =>
      PrintArraySplit(items, rest);
      OpenDispatch(PrintItems(items) + ([CLOSE_BRACKET] + rest));
      ArrayPrintParse(items, rest);
    case Object(ms) =>
      PrintObjectSplit(ms, rest);
      OpenDispatch(PrintMembers(ms) + ([CLOSE_BRACE] + rest));
      ObjectPrintParse(ms, rest);
    case _ => WordPrintParse(v, rest);
  }

  lemma {:induction false} ArrayPrintParse(items: seq<Json>, rest: Text)
    requires forall x :: x in items ==> WellFormed(x)
    ensures ParseArray(PrintItems(items) + ([CLOSE_BRACKET] + rest)) == Some((Array(items), rest))
    decreases items, 2
  {
    var close := [CLOSE_BRACKET] + rest;
    if items == [] {
      assert PrintItems(items) + close == close && close[1..] == rest;
    } else {
      ItemsPrintParse(items, rest);
    }
  }

  lemma {:induction false} ObjectPrintParse(ms: seq<Member>, rest: Text)
    requires DistinctKeys(ms) && forall m :: m in ms ==> WellFormed(m.value)
    ensures ParseObject(PrintMembers(ms) + ([CLOSE_BRACE] + rest)) == Some((Object(ms), rest))
    decreases ms, 3
  {
    var close := [CLOSE_BRACE] + rest;
    if ms == [] {
      assert PrintMembers(ms) + close == close && close[1..] == rest;
    } else {
      MembersPrintParse(ms, rest);
      ParseObjectMembers(PrintMembers(ms) + close, ms, rest);
      AssignAllDistinct(ms);
    }
  }

  lemma ParseObjectMembers(t: Text, ms: seq<Member>, rest: Text)
    requires t != [] && t[0] == QUOTE && ParseMembers(t) == Some((ms, rest))
    ensures ParseObject(t) == Some((Object(AssignAll(ms)), rest))
  {
    assert SkipSpace(t) == t;
  }

  /** One item followed by a comma and more items, or by the closing bracket. */
  lemma ItemsStep(v: Json, after: Text, t: Text, more: seq<Json>, rest: Text)
    requires ParseValue(t) == Some((v, after)) && after != []
    requires more == [] ==> after[0] == CLOSE_BRACKET && after[1..] == rest
    requires more != [] ==> after[0] == COMMA && ParseItems(after[1..]) == Some((more, rest))
    ensures ParseItems(t) == Some(([v] + more, rest))
  {
    assert SkipSpace(after) == after;
    assert [v] + [] == [v];
  }

  lemma PrintItemsSplit(items: seq<Json>, rest: Text)
    requires items != []
    ensures PrintItems(items) + rest ==
            Print(items[0]) + (if |items| == 1 then rest else [COMMA] + (PrintItems(items[1..]) + rest))
  {
    if |items| > 1 {
      var head, tail := Print(items[0]), PrintItems(items[1..]);
      Assoc(head, [COMMA], tail);
      Assoc(head, [COMMA] + tail, rest);
      Assoc([COMMA], tail, rest);
    }
  }

  lemma {:induction false} ItemsPrintParse(items: seq<Json>, rest: Text)
    requires items != [] && forall x :: x in items ==> WellFormed(x)
    ensures var t := PrintItems(items) + ([CLOSE_BRACKET] + rest);
            ParseItems(t) == Some((items, rest)) && !IsSpace(t[0]) && t[0] != CLOSE_BRACKET
    decreases items, 1
  {
    var close := [CLOSE_BRACKET] + rest;
    var more := PrintItems(items[1..]) + close;
    var after := if |items| == 1 then close else [COMMA] + more;
    PrintItemsSplit(items, close);
    assert items == [items[0]] + items[1..];
    PrintParse(items[0], after);
    PrintStart(items[0]);
    StartOf(Print(items[0]), after);
    if |items| > 1 {
      ItemsPrintParse(items[1..], rest);
      StartOf([COMMA], more);
    } else {
      StartOf([CLOSE_BRACKET], rest);
    }
    ItemsStep(items[0], after, Print(items[0]) + after, items[1..], rest);
  }

  lemma StartOf(a: Text, b: Text)
    requires a != []
    ensures (a + b)[0] == a[0] && (|a| == 1 ==> (a + b)[1..] == b)
  {
  }

  lemma {:induction false} MemberPrintParse(m: Member, rest: Text)
    requires WellFormed(m.value) && Delimited(rest)
    ensures ParseMember(PrintMember(m) + rest) == Some((m, rest))
    decreases m, 1
  {
    var value := Print(m.value) + rest;
    var colon := [COLON] + value;
    var body := Escape(m.key) + ([QUOTE] + colon);
    var t := PrintMember(m) + rest;
    assert t == [QUOTE] + body;
    PrintParse(m.value, rest);
    assert colon[1..] == value;
    assert ParseMemberValue(m.key, colon) == Some((m, rest));
    KeyParse(m, body, colon, rest);
  }

  lemma KeyParse(m: Member, body: Text, colon: Text, rest: Text)
    requires body == Escape(m.key) + ([QUOTE] + colon)
    requires colon != [] && colon[0] == COLON && ParseMemberValue(m.key, colon) == Some((m, rest))
    ensures ParseMember([QUOTE] + body) == Some((m, rest))
  {
    StringRoundTrip(m.key, colon);
    var t := [QUOTE] + body;
    assert t[0] == QUOTE && t[1..] == body && SkipSpace(t) == t && SkipSpace(colon) == colon;
  }

  /** One member followed by a comma and more members, or by the closing brace. */
  lemma MembersStep(m: Member, after: Text, t: Text, more: seq<Member>, rest: Text)
    requires ParseMember(t) == Some((m, after)) && after != []
    requires more == [] ==> after[0] == CLOSE_BRACE && after[1..] == rest
    requires more != [] ==> after[0] == COMMA && ParseMembers(after[1..]) == Some((more, rest))
    ensures ParseMembers(t) == Some(([m] + more, rest))
  {
    assert SkipSpace(after) == after;
    assert [m] + [] == [m];
  }

  lemma PrintMembersSplit(ms: seq<Member>, rest: Text)
    requires ms != []
    ensures PrintMembers(ms) + rest ==
            PrintMember(ms[0]) + (if |ms| == 1 then rest else [COMMA] + (PrintMembers(ms[1..]) + rest))
  {
    if |ms| > 1 {
      var head, tail := PrintMember(ms[0]), PrintMembers(ms[1..]);
      Assoc(head, [COMMA], tail);
      Assoc(head, [COMMA] + tail, rest);
      Assoc([COMMA], tail, rest);
    }
  }

  lemma {:induction false} MembersPrintParse(ms: seq<Member>, rest: Text)
    requires ms != [] && forall m :: m in ms ==> WellFormed(m.value)
    ensures var t := PrintMembers(ms) + ([CLOSE_BRACE] + rest);
            ParseMembers(t) == Some((ms, rest)) && t[0] == QUOTE
    decreases ms, 2
  {
    var close := [CLOSE_BRACE] + rest;
    var more := PrintMembers(ms[1..]) + close;
    var after := if |ms| == 1 then close else [COMMA] + more;
    PrintMembersSplit(ms, close);
    MemberPrintParse(ms[0], after);
    assert ms == [ms[0]] + ms[1..];
    assert after[1..] == if |ms| == 1 then rest else more;
    if |ms| > 1 { MembersPrintParse(ms[1..], rest); }
    MembersStep(ms[0], after, PrintMember(ms[0]) + after, ms[1..], rest);
  }

  lemma {:induction false} AssignFresh(ms: seq<Member>, m: Member)
    requires forall x :: x in ms ==> x.key != m.key
    ensures Assign(ms, m) == ms + [m]
  {
    if ms != [] {
      AssignFresh(ms[1..], m);
      assert ms == [ms[0]] + ms[1..];
    }
  }

  lemma {:induction false} AssignAllDistinct(ms: seq<Member>)
    requires DistinctKeys(ms)
    ensures AssignAll(ms) == ms
  {
    if ms != [] {
      var front := ms[..|ms| - 1];
      AssignAllDistinct(front);
      AssignFresh(front, ms[|ms| - 1]);
    }
  }

  /** Reading a printed value, with or without white space after it, gives the value back. */
  lemma ParsePrint(v: Json, space: Text)
    requires WellFormed(v)
    requires forall i :: 0 <= i < |space| ==> IsSpace(space[i])
    ensures ParseText(Print(v) + space) == Some(v)
  {
    PrintParse(v, space);
    SkipAllSpace(space);
  }

  lemma {:induction false} SkipAllSpace(s: Text)
    requires forall i :: 0 <= i < |s| ==> IsSpace(s[i])
    ensures SkipSpace(s) == []
  {
    if s != [] { SkipAllSpace(s[1..]); }
  }

  /** Different values print differently. */
  lemma PrintInjective(v: Json, w: Json)
    requires WellFormed(v) && WellFormed(w) && Print(v) == Print(w)
    ensures v == w
  {
    ParsePrint(v, []);
    ParsePrint(w, []);
    assert Print(v) + [] == Print(v) && Print(w) + [] == Print(w);
  }
}
