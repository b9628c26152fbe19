/** The relay's framing of messages on a byte stream (RFC 6455 section 5.2): what it writes it
    reads back, however the stream is cut into chunks. */
module WsFrames {
  import opened Wrappers

  type Byte = b: int | 0 <= b < 256
  type Bytes = seq<Byte>

  datatype Frame = Frame(opcode: nat, payload: Bytes)

  const CLOSE := 8
  const TEXT := 1

  // ---------------------------------------------------------------- exclusive or

  function Pow2(k: nat): nat { if k == 0 then 1 else 2 * Pow2(k - 1) }

  /** Exclusive or of the low `k` bits. */
  function Xor(k: nat, a: nat, b: nat): (r: nat)
    ensures r < Pow2(k)
  {
    if k == 0 then 0 else (a % 2 + b % 2) % 2 + 2 * Xor(k - 1, a / 2, b / 2)
  }

  lemma {:induction false} XorTwice(k: nat, a: nat, b: nat)
    requires a < Pow2(k)
    ensures Xor(k, Xor(k, a, b), b) == a
  {
    if k > 0 {
      XorTwice(k - 1, a / 2, b / 2);
      XorHalves(k, a, b);
      BitTwice(a % 2, b % 2);
    }
  }

  lemma BitTwice(x: nat, y: nat)
    requires x < 2 && y < 2
    ensures ((x + y) % 2 + y) % 2 == x
  {
  }

  lemma XorHalves(k: nat, a: nat, b: nat)
    requires k > 0
    ensures Xor(k, a, b) % 2 == (a % 2 + b % 2) % 2 && Xor(k, a, b) / 2 == Xor(k - 1, a / 2, b / 2)
  {
  }

  lemma Pow8()
    ensures Pow2(8) == 256
  {
    assert Pow2(2) == 4 && Pow2(4) == 16 && Pow2(6) == 64;
  }

  function XorByte(a: Byte, b: Byte): Byte {
    Pow8();
    Xor(8, a, b)
  }

  /** Every byte with the byte of the mask at its place modulo four. */
  function Masked(p: Bytes, mask: Bytes): (r: Bytes)
    requires |mask| == 4
    ensures |r| == |p|
  {
    seq(|p|, i requires 0 <= i < |p| => XorByte(p[i], mask[i % 4]))
  }

  lemma MaskTwice(p: Bytes, mask: Bytes)
    requires |mask| == 4
    ensures Masked(Masked(p, mask), mask) == p
  {
    Pow8();
    forall i | 0 <= i < |p| ensures XorByte(XorByte(p[i], mask[i % 4]), mask[i % 4]) == p[i] {
      XorTwice(8, p[i], mask[i % 4]);
    }
  }

  // -------------------------------------------------------------------- writing

  /** The length byte or bytes; a payload of 64 KiB or more has none and is not written. */
  function LengthField(n: nat, flag: nat): Bytes
    requires n < 65536 && (flag == 0 || flag == 128)
  {
    if n < 126 then [flag + n] else [flag + 126, n / 256, n % 256]
  }

  /** What the server writes: a text frame without a mask. */
  function TextFrame(p: Bytes): Bytes
    requires |p| < 65536
  {
    [128 + TEXT] + LengthField(|p|, 0) + p
  }

  /** A final text frame, its length in one byte or after 126 in two, the greater first. */
  lemma TextFrameIs(p: Bytes)
    requires |p| < 65536
    ensures TextFrame(p) == (if |p| < 126 then [0x81, |p|] else [0x81, 126, |p| / 256, |p| % 256]) + p
  {
  }

  /** What a client writes: the payload under a mask that goes with it. */
  function ClientFrame(f: Frame, mask: Bytes): Bytes
    requires |f.payload| < 65536 && f.opcode < 16 && |mask| == 4
  {
    [128 + f.opcode] + LengthField(|f.payload|, 128) + mask + Masked(f.payload, mask)
  }

  // -------------------------------------------------------------------- reading

  /** The sizes a complete length field announces: of the header, and of the payload. */
  function Sizes(buf: Bytes): Option<(nat, nat)>
    requires |buf| >= 2
  {
    var n := buf[1] % 128;
    if n == 127 then None
    else if n == 126 then (if |buf| < 4 then None else Some((4, buf[2] as int * 256 + buf[3] as int)))
    else Some((2, n))
  }

  /** Where the payload starts after a header of this size. */
  function Start(buf: Bytes, hdr: nat): nat
    requires |buf| >= 2
  {
    if buf[1] >= 128 then hdr + 4 else hdr
  }

  function Body(buf: Bytes, hdr: nat, n: nat): Bytes
    requires |buf| >= 2 && Start(buf, hdr) + n <= |buf|
  {
    var body := buf[Start(buf, hdr)..Start(buf, hdr) + n];
    if buf[1] >= 128 then Masked(body, buf[hdr..hdr + 4]) else body
  }

  /** The first frame and its length, when it is complete, final and not too long. */
  function ReadOne(buf: Bytes): (r: Option<(Frame, nat)>)
    ensures r.Some? ==> 2 <= r.value.1 <= |buf|
  {
    if |buf| < 2 || buf[0] < 128 || Sizes(buf).None? then None
    else
      var (hdr, n) := Sizes(buf).value;
      if |buf| < Start(buf, hdr) + n then None
      else Some((Frame(buf[0] % 16, Body(buf, hdr, n)), Start(buf, hdr) + n))
  }

  /** One read of the buffer: frames up to the first that closes, and the rest. */
  function Read(buf: Bytes): (seq<Frame>, Bytes)
    decreases |buf|
  {
    match ReadOne(buf)
    case None => ([], buf)
    case Some((f, n)) =>
      if f.opcode == CLOSE then ([f], buf[n..])
      else
        var (fs, rest) := Read(buf[n..]);
        ([f] + fs, rest)
  }

  function Behind(fs: seq<Frame>, r: (seq<Frame>, Bytes)): (seq<Frame>, Bytes) { (fs + r.0, r.1) }

  lemma ReadBehind(fs: seq<Frame>, buf: Bytes)
    requires ReadOne(buf).Some?
    ensures var (f, n) := ReadOne(buf).value;
            Behind(fs, Read(buf)) ==
            if f.opcode == CLOSE then (fs + [f], buf[n..]) else Behind(fs + [f], Read(buf[n..]))
  {
    var (f, n) := ReadOne(buf).value;
    Assoc(fs, [f], Read(buf[n..]).0);
  }

  /** Bytes kept between chunks. */
  class Reader {
    var pending: Bytes
    var frames: seq<Frame>

    constructor ()
      ensures pending == [] && frames == []
    {
      pending, frames := [], [];
    }

    method OnData(chunk: Bytes)
      modifies this
      ensures (frames, pending) == Behind(old(frames), Read(old(pending) + chunk))
    {
      var buf := pending + chunk;
      var off := 0;
      assert buf[0..] == buf;
      while ReadOne(buf[off..]).Some?
        invariant off <= |buf|
        invariant Behind(frames, Read(buf[off..])) == Behind(old(frames), Read(buf))
        decreases |buf| - off
      {
        var (f, n) := ReadOne(buf[off..]).value;
        ReadBehind(frames, buf[off..]);
        assert buf[off..][n..] == buf[off + n..];
        frames := frames + [f];
        off := off + n;
        if f.opcode == CLOSE {
          pending := buf[off..];
          return;
        }
      }
      assert frames + [] == frames;
      pending := buf[off..];
    }
  }

  // -------------------------------------------------------------- cut into chunks

  /** All complete frames of a buffer, closing ones included, and the rest. */
  function ReadAll(buf: Bytes): (seq<Frame>, Bytes)
    decreases |buf|
  {
    match ReadOne(buf)
    case None => ([], buf)
    case Some((f, n)) =>
      var (fs, rest) := ReadAll(buf[n..]);
      ([f] + fs, rest)
  }

  /** The frames seen and the bytes kept after the chunks. */
  function Fed(chunks: seq<Bytes>): (seq<Frame>, Bytes) {
    if chunks == [] then ([], [])
    else
      var (fs, buf) := Fed(chunks[..|chunks| - 1]);
      var (more, rest) := Read(buf + chunks[|chunks| - 1]);
      (fs + more, rest)
  }

  function Stream(chunks: seq<Bytes>): Bytes {
    if chunks == [] then [] else Stream(chunks[..|chunks| - 1]) + chunks[|chunks| - 1]
  }

  lemma BodyStays(buf: Bytes, more: Bytes, hdr: nat, n: nat)
    requires |buf| >= 2 && Start(buf, hdr) + n <= |buf|
    ensures Start(buf + more, hdr) == Start(buf, hdr) && Body(buf + more, hdr, n) == Body(buf, hdr, n)
  {
    var start := Start(buf, hdr);
    assert (buf + more)[start..start + n] == buf[start..start + n];
    if buf[1] >= 128 { assert (buf + more)[hdr..hdr + 4] == buf[hdr..hdr + 4]; }
  }

  /** A complete frame stays what it is when more bytes follow. */
  lemma ReadOneStays(buf: Bytes, more: Bytes)
    requires ReadOne(buf).Some?
    ensures ReadOne(buf + more) == ReadOne(buf)
  {
    var (hdr, n) := Sizes(buf).value;
    assert Sizes(buf + more) == Sizes(buf);
    BodyStays(buf, more, hdr, n);
  }

  lemma {:induction false} ReadAllMore(buf: Bytes, more: Bytes)
    ensures ReadAll(buf + more) == (ReadAll(buf).0 + ReadAll(ReadAll(buf).1 + more).0, ReadAll(ReadAll(buf).1 + more).1)
    decreases |buf|
  {
    if ReadOne(buf).Some? {
      var (f, n) := ReadOne(buf).value;
      ReadOneStays(buf, more);
      assert (buf + more)[n..] == buf[n..] + more;
      ReadAllMore(buf[n..], more);
      Assoc([f], ReadAll(buf[n..]).0, ReadAll(ReadAll(buf[n..]).1 + more).0);
    } else {
      assert [] + ReadAll(buf + more).0 == ReadAll(buf + more).0;
    }
  }

  /** One read takes a leading part of the complete frames and keeps the bytes of the others. */
  lemma {:induction false} ReadKeeps(buf: Bytes)
    ensures Read(buf).0 + ReadAll(Read(buf).1).0 == ReadAll(buf).0 && ReadAll(Read(buf).1).1 == ReadAll(buf).1
    decreases |buf|
  {
    if ReadOne(buf).Some? {
      var (f, n) := ReadOne(buf).value;
      if f.opcode != CLOSE {
        ReadKeeps(buf[n..]);
        Assoc([f], Read(buf[n..]).0, ReadAll(Read(buf[n..]).1).0);
      }
    }
  }

  /** However a stream is cut into chunks: the frames seen, followed by those still complete in
      the kept bytes, are the frames of the whole stream; none is lost, repeated or changed. */
  lemma {:induction false} NothingLost(chunks: seq<Bytes>)
    ensures Fed(chunks).0 + ReadAll(Fed(chunks).1).0 == ReadAll(Stream(chunks)).0
    ensures ReadAll(Fed(chunks).1).1 == ReadAll(Stream(chunks)).1
  {
    if chunks != [] {
      var front, last := chunks[..|chunks| - 1], chunks[|chunks| - 1];
      NothingLost(front);
      FeedOne(Fed(front).0, Fed(front).1, Stream(front), last);
    }
  }

  lemma FeedOne(fs: seq<Frame>, buf: Bytes, stream: Bytes, chunk: Bytes)
    requires fs + ReadAll(buf).0 == ReadAll(stream).0 && ReadAll(buf).1 == ReadAll(stream).1
    ensures var (more, rest) := Read(buf + chunk);
            && (fs + more) + ReadAll(rest).0 == ReadAll(stream + chunk).0
            && ReadAll(rest).1 == ReadAll(stream + chunk).1
  {
    var (more, rest) := Read(buf + chunk);
    ReadKeeps(buf + chunk);
    ReadAllMore(buf, chunk);
    ReadAllMore(stream, chunk);
    var tail := ReadAll(ReadAll(buf).1 + chunk).0;
    Assoc(fs, more, ReadAll(rest).0);
    Assoc(fs, ReadAll(buf).0, tail);
  }

  ghost predicate NoClose(fs: seq<Frame>) { forall f :: f in fs ==> f.opcode != CLOSE }

  lemma {:induction false} ReadWithoutClose(buf: Bytes)
    requires NoClose(ReadAll(buf).0)
    ensures Read(buf) == ReadAll(buf)
    decreases |buf|
  {
    if ReadOne(buf).Some? {
      var (f, n) := ReadOne(buf).value;
      assert f in ReadAll(buf).0;
      assert forall g :: g in ReadAll(buf[n..]).0 ==> g in ReadAll(buf).0;
      ReadWithoutClose(buf[n..]);
    }
  }

  lemma {:induction false} RestIsStuck(buf: Bytes)
    ensures ReadOne(ReadAll(buf).1).None?
    decreases |buf|
  {
    if ReadOne(buf).Some? { RestIsStuck(buf[ReadOne(buf).value.1..]); }
  }

  /** A stream without closing frames gives the same frames and leaves the same bytes for
      every way of cutting it. */
  lemma {:induction false} ChunksDoNotMatter(chunks: seq<Bytes>)
    requires NoClose(ReadAll(Stream(chunks)).0)
    ensures Fed(chunks) == ReadAll(Stream(chunks))
  {
    if chunks != [] {
      var front, last := chunks[..|chunks| - 1], chunks[|chunks| - 1];
      ReadAllMore(Stream(front), last);
      assert forall f :: f in ReadAll(Stream(front)).0 ==> f in ReadAll(Stream(chunks)).0;
      ChunksDoNotMatter(front);
      var kept := Fed(front).1;
      assert forall f :: f in ReadAll(kept + last).0 ==> f in ReadAll(Stream(chunks)).0;
      ReadWithoutClose(kept + last);
    }
  }

  // ------------------------------------------------------------------ round trips

  lemma TextFrameRead(p: Bytes, more: Bytes)
    requires |p| < 65536
    ensures ReadOne(TextFrame(p) + more) == Some((Frame(TEXT, p), |TextFrame(p)|))
  {
    var buf := TextFrame(p);
    var hdr := if |p| < 126 then 2 else 4;
    assert Sizes(buf) == Some((hdr, |p|));
    assert buf[hdr..hdr + |p|] == p;
    ReadOneStays(buf, more);
  }

  lemma ClientSizes(f: Frame, mask: Bytes)
    requires |f.payload| < 65536 && f.opcode < 16 && |mask| == 4
    ensures var buf := ClientFrame(f, mask);
            var hdr := if |f.payload| < 126 then 2 else 4;
            && |buf| == hdr + 4 + |f.payload| && buf[0] == 128 + f.opcode && buf[1] >= 128
            && Sizes(buf) == Some((hdr, |f.payload|))
            && buf[hdr..hdr + 4] == mask && buf[hdr + 4..hdr + 4 + |f.payload|] == Masked(f.payload, mask)
  {
  }

  lemma ClientFrameRead(f: Frame, mask: Bytes, more: Bytes)
    requires |f.payload| < 65536 && f.opcode < 16 && |mask| == 4
    ensures ReadOne(ClientFrame(f, mask) + more) == Some((f, |ClientFrame(f, mask)|))
  {
    ClientSizes(f, mask);
    MaskTwice(f.payload, mask);
    ReadOneStays(ClientFrame(f, mask), more);
  }

  function TextFrames(ps: seq<Bytes>): Bytes
    requires forall p :: p in ps ==> |p| < 65536
  {
    if ps == [] then [] else TextFrame(ps[0]) + TextFrames(ps[1..])
  }

  lemma {:induction false} TextFramesRead(ps: seq<Bytes>)
    requires forall p :: p in ps ==> |p| < 65536
    ensures ReadAll(TextFrames(ps)).1 == [] && |ReadAll(TextFrames(ps)).0| == |ps|
    ensures forall i :: 0 <= i < |ps| ==> ReadAll(TextFrames(ps)).0[i] == Frame(TEXT, ps[i])
  {
    if ps != [] {
      TextFrameRead(ps[0], TextFrames(ps[1..]));
      TextFramesRead(ps[1..]);
      assert TextFrames(ps)[|TextFrame(ps[0])|..] == TextFrames(ps[1..]);
    }
  }

  /** Delivery over a byte stream: whatever texts the relay wrote to a socket, a reader that
      gets the bytes in any chunks sees exactly these texts, in order, and keeps nothing. */
  lemma TextsArrive(ps: seq<Bytes>, chunks: seq<Bytes>)
    requires forall p :: p in ps ==> |p| < 65536
    requires Stream(chunks) == TextFrames(ps)
    ensures Fed(chunks).1 == [] && |Fed(chunks).0| == |ps|
    ensures forall i :: 0 <= i < |ps| ==> Fed(chunks).0[i] == Frame(1, ps[i])
  {
    TextFramesRead(ps);
    forall f | f in ReadAll(TextFrames(ps)).0 ensures f.opcode != CLOSE {
      var i :| 0 <= i < |ps| && ReadAll(TextFrames(ps)).0[i] == f;
    }
    ChunksDoNotMatter(chunks);
  }

  lemma FedFew(a: Bytes, b: Bytes)
    ensures Fed([a]) == Read(a)
    ensures Fed([a, b]) == (Read(a).0 + Read(Read(a).1 + b).0, Read(Read(a).1 + b).1)
  {
    var one: seq<Bytes> := [a];
    assert one[..0] == [] && [a, b][..1] == one && [] + a == a;
    assert [] + Read(a).0 == Read(a).0;
  }

  lemma ReadClose(mask: Bytes, more: Bytes)
    requires |mask| == 4
    ensures Read(ClientFrame(Frame(CLOSE, []), mask) + more) == ([Frame(CLOSE, [])], more)
  {
    var close := ClientFrame(Frame(CLOSE, []), mask);
    ClientFrameRead(Frame(CLOSE, []), mask, more);
    assert (close + more)[|close|..] == more;
  }

  lemma ReadOther(f: Frame, mask: Bytes)
    requires |mask| == 4 && f.opcode < 16 && |f.payload| < 65536 && f.opcode != CLOSE
    ensures Read(ClientFrame(f, mask)) == ([f], [])
  {
    var text := ClientFrame(f, mask);
    ClientFrameRead(f, mask, []);
    assert text + [] == text && text[|text|..] == [];
    var none: seq<Frame>, empty: Bytes := [], [];
    assert Read(empty) == (none, empty) && [f] + none == [f];
    assert ReadOne(text) == Some((f, |text|));
  }

  lemma CutMatters(a: Bytes, b: Bytes, f: Frame, g: Frame)
    requires Read(a + b) == ([f], b) && Read(a) == ([f], []) && Read(b) == ([g], [])
    ensures Fed([a + b]) == ([f], b) && Fed([a, b]) == ([f, g], [])
  {
    FedFew(a + b, []);
    FedFew(a, b);
    assert [] + b == b && [f] + [g] == [f, g];
  }

  /** A closing frame ends the read it is found in, so frames behind it in the same chunk wait
      for the next chunk: the two ways of cutting these bytes differ. */
  lemma CloseDelays(mask: Bytes, behind: Frame)
    requires |mask| == 4 && behind.opcode < 16 && |behind.payload| < 65536 && behind.opcode != CLOSE
    ensures Fed([ClientFrame(Frame(CLOSE, []), mask) + ClientFrame(behind, mask)])
            == ([Frame(CLOSE, [])], ClientFrame(behind, mask))
    ensures Fed([ClientFrame(Frame(CLOSE, []), mask), ClientFrame(behind, mask)]) == ([Frame(CLOSE, []), behind], [])
  {
    var close, text := ClientFrame(Frame(CLOSE, []), mask), ClientFrame(behind, mask);
    ReadClose(mask, text);
    ReadClose(mask, []);
    assert close + [] == close;
    ReadOther(behind, mask);
    CutMatters(close, text, Frame(CLOSE, []), behind);
  }
}
