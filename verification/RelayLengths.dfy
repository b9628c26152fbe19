/** Which frames are written: an answer of 64 KiB or more is dropped in silence, also after the
    frame it answers was acknowledged as forwarded. */
module RelayLengths {
  import opened Json
  import opened JsValue
  import opened Relay
  import opened RelayAnswers
  import opened RelayFrames
  import opened RelayRegistry
  import opened RelayTheorems
  import opened Wrappers

  // ------------------------------------------------------------ what is written

  lemma {:induction false} FittingForwards(ws: seq<Write>)
    ensures Forwards(Fitting(ws)) == Fitting(Forwards(ws))
  {
    if ws != [] {
      var front, w := ws[..|ws| - 1], ws[|ws| - 1];
      FittingForwards(front);
      CollectAppend(ForwardOf, Fitting(front), FittingIn(w));
      CollectAppend(FittingIn, Forwards(front), ForwardOf(w));
      OneWrite(w);
    }
  }

  lemma OneWrite(w: Write)
    ensures Forwards(FittingIn(w)) == Fitting(ForwardOf(w))
  {
    CollectOne(ForwardOf, w);
    CollectOne(FittingIn, w);
  }

  /** Over good runs the frames that reach the sockets are those the registry prescribes, in
      order, without the long ones. */
  lemma WrittenInOrder(inputs: seq<Input>)
    requires GoodRun(inputs)
    ensures Forwards(Fitting(Run(inputs).sent)) == Fitting(RegistryRun(inputs).forwards)
  {
    FittingForwards(Run(inputs).sent);
    DeliversInOrder(inputs);
  }

  /** A frame acknowledged as forwarded is written to its target exactly when its text is shorter
      than 64 KiB. */
  lemma ForwardedIsWritten(st: State, s: SocketId, m: Message, now: nat)
    requires m.RelayTo? && Completes(st, Receive(s, m, now)) && Verdict(st, s, m) == StatusForwarded
    ensures var o := StepOutput(st, Receive(s, m, now));
            var frame := Forwarded(st.regs[s].node, m.payload);
            && Acks(o.writes) == [(s, StatusForwarded)]
            && Forwards(Fitting(o.writes)) ==
               if Utf8Length(FrameText(frame)) < LIMIT then
                 [Write(Target(st, Trim(m.to.s)).value.live.socket, frame)]
               else []
  {
    var ws := RelayOutput(st, s, m).writes;
    OneAck(st, s, m, now);
    RelayWrites(st, s, m);
    FittingForwards(ws);
    CollectOne(FittingIn, Relayed(st, s, m)[0]);
  }

  lemma LastAckWritten(front: seq<Write>, ack: Write)
    requires ack.frame.Ack? && forall w :: w in front ==> !w.frame.Ack?
    ensures Acks(Fitting(front + [ack])) == if Fits(ack.frame) then [(ack.socket, ack.frame.status)] else []
  {
    CollectPush(FittingIn, front, ack);
    CollectKept(FittingIn, front);
    CollectNone(AckOf, Fitting(front));
    CollectAppend(AckOf, Fitting(front), FittingIn(ack));
    CollectOne(AckOf, ack);
  }

  lemma AckIsLast(st: State, s: SocketId, m: Message, ws: seq<Write>)
    requires m.RelayTo? && ws == RelayOutput(st, s, m).writes
    ensures ws != [] && forall w :: w in ws[..|ws| - 1] ==> !w.frame.Ack?
    ensures var ack := ws[|ws| - 1];
            ack.socket == s && ack.frame.Ack? && ack.frame.traceId == m.traceId && ack.frame.status == Verdict(st, s, m)
  {
  }

  /** The ack itself is written exactly when its own text, with the sender's trace id, is shorter
      than 64 KiB. */
  lemma AckIsWritten(st: State, s: SocketId, m: Message, now: nat, ws: seq<Write>)
    requires m.RelayTo? && Completes(st, Receive(s, m, now)) && ws == StepOutput(st, Receive(s, m, now)).writes
    ensures ws != [] && ws[|ws| - 1].socket == s && ws[|ws| - 1].frame.Ack?
    ensures var ack := ws[|ws| - 1].frame;
            && ack.traceId == m.traceId
            && Acks(Fitting(ws)) == if Utf8Length(FrameText(ack)) < LIMIT then [(s, Verdict(st, s, m))] else []
  {
    AckIsLast(st, s, m, ws);
    LastAckWritten(ws[..|ws| - 1], ws[|ws| - 1]);
    assert ws == ws[..|ws| - 1] + [ws[|ws| - 1]];
  }

  function ForwardAckOf(w: Write): seq<SocketId> {
    if w.frame.Ack? && w.frame.status == StatusForwarded then [w.socket] else []
  }

  /** The acks that promise a forwarded frame. */
  function ForwardAcks(ws: seq<Write>): seq<SocketId> { Collect(ForwardAckOf, ws) }

  lemma RelayForwardAcks(st: State, s: SocketId, m: Message)
    requires m.RelayTo?
    ensures var ws := RelayOutput(st, s, m).writes; |ForwardAcks(ws)| == |Relayed(st, s, m)|
  {
    var ws := RelayOutput(st, s, m).writes;
    if |ws| == 2 {
      assert ws == [ws[0], ws[1]];
      CollectTwo(ForwardAckOf, ws[0], ws[1]);
    } else {
      assert ws == [ws[0], ws[1], ws[2]];
      CollectThree(ForwardAckOf, ws[0], ws[1], ws[2]);
    }
  }

  lemma StepForwardAcks(st: State, input: Input)
    ensures var ws := StepOutput(st, input).writes; |ForwardAcks(ws)| == |Forwards(ws)|
  {
    if Completes(st, input) && input.Receive? && input.message.RelayTo? {
      RelayWrites(st, input.socket, input.message);
      RelayForwardAcks(st, input.socket, input.message);
      assert StepOutput(st, input) == RelayOutput(st, input.socket, input.message);
    } else {
      OtherForwardAcks(st, input, StepOutput(st, input).writes);
    }
  }

  lemma OtherForwardAcks(st: State, input: Input, ws: seq<Write>)
    requires ws == StepOutput(st, input).writes
    requires !(Completes(st, input) && input.Receive? && input.message.RelayTo?)
    ensures ForwardAcks(ws) == [] && Forwards(ws) == []
  {
    CollectNone(ForwardAckOf, ws);
    CollectNone(ForwardOf, ws);
  }

  /** Over every run, as many frames are handed over for forwarding as are acknowledged. */
  lemma {:induction false} AckedIsHandedOver(inputs: seq<Input>)
    ensures |ForwardAcks(Run(inputs).sent)| == |Forwards(Run(inputs).sent)|
  {
    if inputs != [] {
      var front, input := inputs[..|inputs| - 1], inputs[|inputs| - 1];
      var st := Run(front);
      AckedIsHandedOver(front);
      StepLogs(st, input);
      StepForwardAcks(st, input);
      CollectAppend(ForwardAckOf, st.sent, StepOutput(st, input).writes);
      CollectAppend(ForwardOf, st.sent, StepOutput(st, input).writes);
    }
  }

  lemma FittingExactly(ws: seq<Write>)
    ensures |Fitting(ws)| == |ws| <==> forall w :: w in ws ==> Fits(w.frame)
  {
    CollectLoses(FittingIn, ws);
    forall w ensures FittingIn(w) != [] <==> Fits(w.frame) {}
  }

  /** What is acknowledged as forwarded over a run is all written exactly when every forwarded
      frame's text is shorter than 64 KiB. */
  lemma AckedIsWritten(inputs: seq<Input>)
    ensures var sent := Run(inputs).sent;
            |Forwards(Fitting(sent))| == |ForwardAcks(sent)| <==>
            forall w :: w in Forwards(sent) ==> Utf8Length(FrameText(w.frame)) < LIMIT
  {
    AckedIsHandedOver(inputs);
    FittingForwards(Run(inputs).sent);
    FittingExactly(Forwards(Run(inputs).sent));
  }

  // --------------------------------------------------------- what the target reads

  /** The target reads the sender and the payload, which is the one that was sent exactly when
      all its numbers are finite. */
  lemma PayloadArrives(from: Text, payload: Json)
    requires Proper(payload)
    ensures var v := Parse(FrameText(Forwarded(from, payload)));
            && v.Some? && Field(v.value, FROM) == String(from) && Field(v.value, PAYLOAD) == Nulled(payload)
            && (Field(v.value, PAYLOAD) == payload <==> Finite(payload))
  {
    var ms := FrameJson(Forwarded(from, payload)).members;
    assert |FROM| == 4 && |PAYLOAD| == 7;
    FieldOf(ms, 0);
    FieldOf(ms, 1);
    ProperObject(ms);
    SentAndRead(Object(ms), []);
    assert Print(Object(ms)) + [] == Print(Object(ms));
    FieldNulled(Object(ms), FROM);
    FieldNulled(Object(ms), PAYLOAD);
    NulledExactly(payload);
  }

  /** Payloads are parts of texts that were parsed, so values a program holds. */
  ghost predicate ParsedPayloads(inputs: seq<Input>) {
    forall i :: i in inputs && i.Receive? && i.message.RelayTo? ==> Proper(i.message.payload)
  }

  lemma {:induction false} ForwardsParsed(inputs: seq<Input>)
    requires ParsedPayloads(inputs)
    ensures forall w :: w in RegistryRun(inputs).forwards ==> w.frame.Forwarded? && Proper(w.frame.payload)
  {
    if inputs != [] {
      var front, last := inputs[..|inputs| - 1], inputs[|inputs| - 1];
      assert inputs == front + [last];
      ForwardsParsed(front);
    }
  }

  /** Delivery up to the reader: over every run of good registrations, the texts written to
      targets say, in order, what the registry prescribes, short of the long frames and with null
      for the numbers that are not finite. */
  lemma ReadInOrder(inputs: seq<Input>, i: nat)
    requires GoodRun(inputs) && ParsedPayloads(inputs) && i < |Forwards(Fitting(Run(inputs).sent))|
    ensures Forwards(Fitting(Run(inputs).sent)) == Fitting(RegistryRun(inputs).forwards)
    ensures var w := Fitting(RegistryRun(inputs).forwards)[i];
            var v := Parse(FrameText(w.frame));
            && w.frame.Forwarded? && v.Some? && Field(v.value, FROM) == String(w.frame.from)
            && Field(v.value, PAYLOAD) == Nulled(w.frame.payload)
            && (Field(v.value, PAYLOAD) == w.frame.payload <==> Finite(w.frame.payload))
  {
    WrittenInOrder(inputs);
    ForwardsParsed(inputs);
    CollectKept(FittingIn, RegistryRun(inputs).forwards);
    var w := Fitting(RegistryRun(inputs).forwards)[i];
    assert w in RegistryRun(inputs).forwards;
    PayloadArrives(w.frame.from, w.frame.payload);
  }

  // -------------------------------------------------------------- the long frame

  function Repeat(c: Unit, n: nat): Text { seq(n, _ => c) }

  lemma {:induction false} PlainRepeat(c: Unit, n: nat)
    requires c == 0x61 || c == 0x78
    ensures Escape(Repeat(c, n)) == Repeat(c, n) && Utf8Length(Repeat(c, n)) == n
  {
    if n > 0 {
      PlainRepeat(c, n - 1);
      assert Repeat(c, n)[1..] == Repeat(c, n - 1);
      assert Repeat(c, n) == [c] + Repeat(c, n - 1);
    }
  }

  lemma {:induction false} Utf8Append(a: Text, b: Text)
    ensures Utf8Length(a + b) <= Utf8Length(a) + Utf8Length(b)
  {
    if a == [] {
      assert a + b == b;
    } else if StartsWithPair(a) {
      Utf8Append(a[2..], b);
      assert (a + b)[2..] == a[2..] + b;
    } else {
      Utf8Append(a[1..], b);
      assert (a + b)[1..] == a[1..] + b;
      if |a| == 1 && b != [] { assert (a + b)[2..] == b[1..]; }
    }
  }

  lemma UnitLength(c: Unit)
    ensures Utf8Length(EscapeUnit(c)) <= 6
  {
    var e := EscapeUnit(c);
    if |e| == 6 {
      AsciiLength(e);
    } else if |e| == 2 {
      AsciiLength(e);
    } else {
      assert e[1..] == [];
    }
  }

  lemma {:induction false} AsciiLength(t: Text)
    requires forall i :: 0 <= i < |t| ==> t[i] < 0x80
    ensures Utf8Length(t) == |t|
  {
    if t != [] { AsciiLength(t[1..]); }
  }

  lemma {:induction false} EscapeBounds(s: Text)
    ensures |s| <= |Escape(s)| && Utf8Length(Escape(s)) <= 6 * |s|
  {
    if s == [] {
    } else if StartsWithPair(s) {
      EscapeBounds(s[2..]);
      Utf8Append(s[..2], Escape(s[2..]));
      assert s[..2][2..] == [];
    } else {
      EscapeBounds(s[1..]);
      UnitLength(s[0]);
      Utf8Append(EscapeUnit(s[0]), Escape(s[1..]));
    }
  }

  lemma StringBounds(s: Text)
    ensures |s| + 2 <= |PrintString(s)| && Utf8Length(PrintString(s)) <= 2 + Utf8Length(Escape(s)) <= 2 + 6 * |s|
  {
    EscapeBounds(s);
    AsciiLength([QUOTE]);
    Utf8Append([QUOTE] + Escape(s), [QUOTE]);
    Utf8Append([QUOTE], Escape(s));
  }

  lemma MemberBounds(m: Member)
    ensures |m.key| + 3 + |Print(m.value)| <= |PrintMember(m)|
    ensures Utf8Length(PrintMember(m)) <= 6 * |m.key| + 3 + Utf8Length(Print(m.value))
  {
    StringBounds(m.key);
    AsciiLength([COLON]);
    Utf8Append(PrintString(m.key) + [COLON], Print(m.value));
    Utf8Append(PrintString(m.key), [COLON]);
  }

  lemma {:induction false} MembersBounds(ms: seq<Member>)
    ensures ms != [] ==>
              |PrintMembers(ms)| == |PrintMember(ms[0])| + (if |ms| == 1 then 0 else 1 + |PrintMembers(ms[1..])|)
    ensures ms != [] ==>
              Utf8Length(PrintMembers(ms)) <=
              1 + Utf8Length(PrintMember(ms[0])) + Utf8Length(PrintMembers(ms[1..]))
  {
    if ms != [] {
      AsciiLength([COMMA]);
      Utf8Append(PrintMember(ms[0]) + [COMMA], PrintMembers(ms[1..]));
      Utf8Append(PrintMember(ms[0]), [COMMA]);
    }
  }

  lemma ObjectBounds(ms: seq<Member>)
    ensures |Print(Object(ms))| == 2 + |PrintMembers(ms)|
    ensures Utf8Length(Print(Object(ms))) <= 2 + Utf8Length(PrintMembers(ms))
  {
    AsciiLength([OPEN_BRACE]);
    AsciiLength([CLOSE_BRACE]);
    Utf8Append([OPEN_BRACE] + PrintMembers(ms), [CLOSE_BRACE]);
    Utf8Append([OPEN_BRACE], PrintMembers(ms));
  }

  // A sender with the longest id there is, and a payload that just fits into its own frame.
  const LONG_ID: Text := Repeat(0x61, ID_LIMIT)
  const LONG_TEXT: Text := Repeat(0x78, 65390)
  const LONG := Object([Member(TYPE, String(RELAY)), Member(TO, String(B)), Member(PAYLOAD, String(LONG_TEXT))])

  lemma LongMessage()
    ensures MessageOf(LONG) == RelayTo(String(B), String(LONG_TEXT), Null)
  {
    assert |TYPE| == 4 && |TO| == 2 && |PAYLOAD| == 7 && |TRACE_ID| == 8 && |RELAY| == 5 && |REGISTER| == 8;
    FieldAt(LONG.members, 0, TYPE);
    FieldAt(LONG.members, 1, TO);
    FieldAt(LONG.members, 2, PAYLOAD);
  }

  lemma LongLengths()
    ensures Utf8Length(Print(LONG)) < LIMIT <= Utf8Length(FrameText(Forwarded(LONG_ID, String(LONG_TEXT))))
  {
    PlainRepeat(0x78, 65390);
    StringBounds(LONG_TEXT);
    LongIn();
    LongOut();
  }

  lemma LongIn()
    requires Utf8Length(PrintString(LONG_TEXT)) <= 65392
    ensures Utf8Length(Print(LONG)) < LIMIT
  {
    var ms := LONG.members;
    ObjectBounds(ms);
    MembersBounds(ms);
    MembersBounds(ms[1..]);
    assert ms[1..] == [ms[1], ms[2]] && ms[1..][1..] == [ms[2]];
    MemberBounds(ms[0]);
    MemberBounds(ms[1]);
    MemberBounds(ms[2]);
    StringBounds(RELAY);
    StringBounds(B);
    assert |TYPE| == 4 && |TO| == 2 && |PAYLOAD| == 7 && |RELAY| == 5 && |B| == 1;
  }

  lemma LongOut()
    ensures LIMIT <= Utf8Length(FrameText(Forwarded(LONG_ID, String(LONG_TEXT))))
  {
    var ms := FrameJson(Forwarded(LONG_ID, String(LONG_TEXT))).members;
    ObjectBounds(ms);
    MembersBounds(ms);
    MembersBounds(ms[1..]);
    assert ms[1..] == [ms[1]];
    MemberBounds(ms[0]);
    MemberBounds(ms[1]);
    StringBounds(LONG_ID);
    StringBounds(LONG_TEXT);
    assert |PAYLOAD| == 7 && |ms[0].key| == 4;
  }

  const PAIR: seq<Input> := [Reg(1, LONG_ID, A, 1), Reg(2, B, B, 2)]
  const ORIGIN := Entry(Live(Ids(LONG_ID, A), 1, 1), 1)
  const DEST := Entry(Live(Ids(B, B), 2, 2), 2)

  lemma PairRun()
    ensures var st := Run(PAIR); st.up && 1 in st.regs && st.regs[1] == Ids(LONG_ID, A) && Target(st, B) == Some(DEST)
  {
    var i1 := [Reg(1, LONG_ID, A, 1)];
    assert i1 == [] + [Reg(1, LONG_ID, A, 1)] && PAIR == i1 + [Reg(2, B, B, 2)];
    PlainLetters();
    assert PlainId(LONG_ID);
    RegisterRun([], 1, LONG_ID, A, 1);
    RegisterRun(i1, 2, B, B, 2);
    assert RegKey(Ids(LONG_ID, A))[0] != RegKey(Ids(B, B))[0];
    assert Put([], ORIGIN) == [ORIGIN] && [ORIGIN][1..] == [] && Put([], DEST) == [DEST];
    assert Put([ORIGIN], DEST) == [ORIGIN, DEST] && [ORIGIN, DEST][1..] == [DEST];
  }

  lemma PairIsGood()
    ensures GoodRun(PAIR)
  {
    var i1 := [Reg(1, LONG_ID, A, 1)];
    assert i1 == [] + [Reg(1, LONG_ID, A, 1)];
    assert i1[..0] == [] && PAIR[..1] == i1;
    PlainLetters();
    assert PlainId(LONG_ID);
    RegisterRun([], 1, LONG_ID, A, 1);
    TrimPlain(B);
    assert RegKey(Ids(LONG_ID, A))[0] != RegKey(Ids(B, B))[0];
    assert Run(i1).entries == Put([], ORIGIN) == [ORIGIN];
    assert Run([]).entries == [] && Good(Run([]), i1[0]);
    assert GoodRun([]) && GoodRun(i1);
    assert RegisterIds(PAIR[1].message) == Ok(Ids(B, B));
  }

  /** A good run in which the server is sent a text it reads, acknowledges it as forwarded, and
      writes nothing to the target. */
  lemma LongFrameIsLost()
    ensures var long := PAIR + [Receive(1, MessageOf(LONG), 3)];
            && GoodRun(long) && Utf8Length(Print(LONG)) < LIMIT
            && Acks(Run(long).sent) == Acks(Run(PAIR).sent) + [(1, StatusForwarded)]
            && Forwards(Fitting(Run(long).sent)) == Forwards(Fitting(Run(PAIR).sent))
  {
    var st, input := Run(PAIR), Receive(1, MessageOf(LONG), 3);
    PairRun();
    PairIsGood();
    LongMessage();
    LongLengths();
    assert (PAIR + [input])[..|PAIR|] == PAIR;
    RunOf(PAIR, input);
    StepLogs(st, input);
    LongVerdict(st);
    ForwardedIsWritten(st, 1, MessageOf(LONG), 3);
    var ws := StepOutput(st, input).writes;
    CollectAppend(AckOf, st.sent, ws);
    CollectAppend(FittingIn, st.sent, ws);
    CollectAppend(ForwardOf, Fitting(st.sent), Fitting(ws));
  }

  lemma LongVerdict(st: State)
    requires st.up && 1 in st.regs && Target(st, B) == Some(DEST)
    ensures MessageOf(LONG).RelayTo? && Completes(st, Receive(1, MessageOf(LONG), 3))
    ensures Verdict(st, 1, MessageOf(LONG)) == StatusForwarded
  {
    LongMessage();
    PlainLetters();
    TrimPlain(B);
  }
}
