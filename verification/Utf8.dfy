/** The bytes of a text in UTF-8 (RFC 3629), which decide whether a frame is written: the encoder,
    and a strict decoder that reads back what it wrote. */
module Utf8 {
  import opened Json
  import opened RelayFrames
  import opened Wrappers

  type Byte = b: int | 0 <= b < 256
  type Bytes = seq<Byte>

  /** A code point that is no surrogate. */
  type Scalar = c: int | 0 <= c < 0xd800 || 0xe000 <= c < 0x11_0000

  const REPLACEMENT: Scalar := 0xfffd

  // -------------------------------------------------------------- units and scalars

  /** The code point of a surrogate pair. */
  function Paired(high: Unit, low: Unit): Scalar
    requires IsHighSurrogate(high) && IsLowSurrogate(low)
  {
    0x1_0000 + (high as int - 0xd800) * 0x400 + (low as int - 0xdc00)
  }

  /** The code points of a text; a surrogate without its partner is replaced. */
  function Scalars(t: Text): seq<Scalar> {
    if t == [] then []
    else if StartsWithPair(t) then [Paired(t[0], t[1])] + Scalars(t[2..])
    else [if IsHighSurrogate(t[0]) || IsLowSurrogate(t[0]) then REPLACEMENT else t[0]] + Scalars(t[1..])
  }

  /** The units that a code point is written with in UTF-16. */
  function UnitsOf(c: Scalar): Text {
    if c < 0x1_0000 then [c] else [0xd800 + (c - 0x1_0000) / 0x400, 0xdc00 + (c - 0x1_0000) % 0x400]
  }

  function Units(cs: seq<Scalar>): Text { if cs == [] then [] else UnitsOf(cs[0]) + Units(cs[1..]) }

  /** The text with every surrogate without a partner replaced. */
  function Repaired(t: Text): Text {
    if t == [] then []
    else if StartsWithPair(t) then t[..2] + Repaired(t[2..])
    else [if IsHighSurrogate(t[0]) || IsLowSurrogate(t[0]) then REPLACEMENT else t[0]] + Repaired(t[1..])
  }

  lemma {:induction false} ScalarsAreUnits(t: Text)
    ensures Units(Scalars(t)) == Repaired(t)
  {
    if t == [] {
    } else if StartsWithPair(t) {
      ScalarsAreUnits(t[2..]);
      assert UnitsOf(Paired(t[0], t[1])) == [t[0], t[1]] == t[..2];
      assert Scalars(t)[1..] == Scalars(t[2..]);
    } else {
      ScalarsAreUnits(t[1..]);
      assert Scalars(t)[1..] == Scalars(t[1..]);
    }
  }

  // ---------------------------------------------------------------- scalars and bytes

  /** Section 3 of RFC 3629. */
  function BytesOf(c: Scalar): Bytes {
    if c < 0x80 then [c]
    else if c < 0x800 then [0xc0 + c / 0x40, 0x80 + c % 0x40]
    else if c < 0x1_0000 then [0xe0 + c / 0x1000, 0x80 + c / 0x40 % 0x40, 0x80 + c % 0x40]
    else [0xf0 + c / 0x4_0000, 0x80 + c / 0x1000 % 0x40, 0x80 + c / 0x40 % 0x40, 0x80 + c % 0x40]
  }

  function Encode(cs: seq<Scalar>): Bytes { if cs == [] then [] else BytesOf(cs[0]) + Encode(cs[1..]) }

  predicate IsTail(b: Byte) { 0x80 <= b < 0xc0 }

  /** How many bytes a code point has by the first of them. */
  function Width(b: Byte): (n: nat)
    ensures n <= 4
  {
    if b < 0x80 then 1 else if b < 0xc0 then 0 else if b < 0xe0 then 2 else if b < 0xf0 then 3
    else if b < 0xf8 then 4 else 0
  }

  /** The number a complete sequence of bytes stands for. */
  function Joined(bs: Bytes): (c: int)
    requires bs != [] && |bs| == Width(bs[0])
  {
    var first: int := bs[0];
    if |bs| == 1 then first
    else if |bs| == 2 then (first - 0xc0) * 0x40 + Low(bs[1])
    else if |bs| == 3 then (first - 0xe0) * 0x1000 + Low(bs[1]) * 0x40 + Low(bs[2])
    else (first - 0xf0) * 0x4_0000 + Low(bs[1]) * 0x1000 + Low(bs[2]) * 0x40 + Low(bs[3])
  }

  /** The six bits of a tail. */
  function Low(b: Byte): int { b as int - 0x80 }

  /** The first code point and its length; none but the shortest form is taken. */
  function DecodeOne(bs: Bytes): (r: Option<(Scalar, nat)>)
    requires bs != []
    ensures r.Some? ==> 0 < r.value.1 <= |bs|
  {
    var n := Width(bs[0]);
    if n == 0 || |bs| < n || !(forall i :: 1 <= i < n ==> IsTail(bs[i])) then None
    else
      var c := Joined(bs[..n]);
      if (0 <= c < 0xd800 || 0xe000 <= c < 0x11_0000) && |BytesOf(c)| == n then Some((c, n)) else None
  }

  function Decode(bs: Bytes): Option<seq<Scalar>>
    decreases |bs|
  {
    if bs == [] then Some([])
    else
      match DecodeOne(bs)
      case None => None
      case Some((c, n)) =>
        match Decode(bs[n..])
        case None => None
        case Some(cs) => Some([c] + cs)
  }

  lemma SixBits(c: nat)
    ensures c == c / 0x40 * 0x40 + c % 0x40
    ensures c / 0x40 / 0x40 == c / 0x1000 && c / 0x1000 / 0x40 == c / 0x4_0000
  {
  }

  lemma BytesShape(c: Scalar)
    ensures var bs := BytesOf(c);
            |bs| == Width(bs[0]) && (forall i :: 1 <= i < |bs| ==> IsTail(bs[i])) && Joined(bs) == c
  {
    SixBits(c);
    SixBits(c / 0x40);
    SixBits(c / 0x1000);
  }

  lemma OneDecoded(c: Scalar, rest: Bytes)
    ensures DecodeOne(BytesOf(c) + rest) == Some((c, |BytesOf(c)|))
  {
    var bs := BytesOf(c);
    BytesShape(c);
    assert (bs + rest)[0] == bs[0] && (bs + rest)[..|bs|] == bs;
    assert forall i :: 1 <= i < |bs| ==> (bs + rest)[i] == bs[i];
  }

  lemma DecodeStep(bs: Bytes, c: Scalar, n: nat, cs: seq<Scalar>)
    requires bs != [] && DecodeOne(bs) == Some((c, n)) && Decode(bs[n..]) == Some(cs)
    ensures Decode(bs) == Some([c] + cs)
  {
  }

  /** What is encoded is decoded. */
  lemma {:induction false} EncodeDecode(cs: seq<Scalar>)
    ensures Decode(Encode(cs)) == Some(cs)
  {
    if cs != [] {
      var bs, rest := BytesOf(cs[0]), Encode(cs[1..]);
      EncodeDecode(cs[1..]);
      OneDecoded(cs[0], rest);
      assert (bs + rest)[|bs|..] == rest && cs == [cs[0]] + cs[1..];
      DecodeStep(bs + rest, cs[0], |bs|, cs[1..]);
    }
  }

  // -------------------------------------------------------------------- main results

  /** Reading the bytes of a text gives it back, with what has no partner replaced. */
  lemma TextArrives(t: Text)
    ensures Decode(Encode(Scalars(t))).Some? && Units(Decode(Encode(Scalars(t))).value) == Repaired(t)
  {
    EncodeDecode(Scalars(t));
    ScalarsAreUnits(t);
  }

  /** The length that decides whether a frame is written is the number of these bytes. */
  lemma {:induction false} LengthExactly(t: Text)
    ensures Utf8Length(t) == |Encode(Scalars(t))|
  {
    if t == [] {
    } else if StartsWithPair(t) {
      LengthExactly(t[2..]);
      assert Scalars(t)[1..] == Scalars(t[2..]) && |BytesOf(Scalars(t)[0])| == 4;
    } else {
      LengthExactly(t[1..]);
      assert Scalars(t)[1..] == Scalars(t[1..]);
    }
  }

  /** A frame is written exactly when its text has fewer than 65536 bytes. */
  lemma FitsExactly(f: Frame)
    ensures Fits(f) <==> |Encode(Scalars(FrameText(f)))| < 65536
  {
    LengthExactly(FrameText(f));
  }
}
