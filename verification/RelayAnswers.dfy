/** Answers: what every relay frame brings its sender, over whole runs, and the frames that
    bring down the server instead. */
module RelayAnswers {
  import opened Json
  import opened JsValue
  import opened Relay
  import opened RelayFrames
  import opened RelayTheorems
  import opened Wrappers

  // -------------------------------------------------------------- accounting

  function SenderOf(input: Input): seq<SocketId> {
    if input.Receive? && input.message.RelayTo? then [input.socket] else []
  }

  function OutcomeOf(t: Trace): seq<Status> {
    if t.event == ForwardedEvent then [StatusForwarded]
    else if t.event == DroppedNoTarget then [StatusNoTarget]
    else if t.event == DroppedInvalid then [StatusInvalid]
    else []
  }

  function AckEventOf(t: Trace): seq<Option<Text>> { if t.event == AckEvent then [t.kind] else [] }

  function AckOf(w: Write): seq<(SocketId, Status)> {
    if w.frame.Ack? then [(w.socket, w.frame.status)] else []
  }

  /** The sockets that sent a relay frame, in order. */
  function Senders(inputs: seq<Input>): seq<SocketId> { Collect(SenderOf, inputs) }

  /** What became of the relay frames, as the trace history tells it. */
  function Outcomes(history: seq<Trace>): seq<Status> { Collect(OutcomeOf, history) }

  /** What the ack events of the history show as status. */
  function AckEvents(history: seq<Trace>): seq<Option<Text>> { Collect(AckEventOf, history) }

  /** The acks among the frames, with their sockets. */
  function Acks(ws: seq<Write>): seq<(SocketId, Status)> { Collect(AckOf, ws) }

  /** Element by element: who sent the frame, and what became of it. */
  ghost predicate Paired(sockets: seq<SocketId>, statuses: seq<Status>, acks: seq<(SocketId, Status)>,
                         acked: seq<Option<Text>>)
  {
    && |sockets| == |statuses| == |acks| == |acked|
    && (forall i :: 0 <= i < |acks| ==> acks[i] == (sockets[i], statuses[i]))
    && (forall i :: 0 <= i < |acks| ==> acked[i] == Some(Ascii(
          match statuses[i]
          case StatusForwarded => "forwarded"
          case StatusNoTarget => "dropped_no_target"
          case StatusInvalid => "dropped_invalid")))
  }

  lemma PairedPush(sockets: seq<SocketId>, statuses: seq<Status>, acks: seq<(SocketId, Status)>,
                   acked: seq<Option<Text>>, s: SocketId, status: Status)
    requires Paired(sockets, statuses, acks, acked)
    ensures Paired(sockets + [s], statuses + [status], acks + [(s, status)], acked + [Some(StatusText(status))])
  {
  }

  /** The status of the answer to a relay frame. */
  function Verdict(st: State, s: SocketId, m: Message): Status
    requires m.RelayTo?
  {
    if s !in st.regs then StatusInvalid
    else
      var to := if m.to.String? then Trim(m.to.s) else [];
      if to == [] then StatusInvalid else if Target(st, to).None? then StatusNoTarget else StatusForwarded
  }

  /** A relay frame that gets through brings one outcome and one ack event, both with the
      verdict as status; one that does not brings none. */
  lemma OneOutcome(st: State, s: SocketId, m: Message, now: nat)
    requires m.RelayTo?
    ensures var o, through := StepOutput(st, Receive(s, m, now)), st.up && Traceable(s in st.regs, m);
            && Outcomes(o.events) == (if through then [Verdict(st, s, m)] else [])
            && AckEvents(o.events) == (if through then [Some(StatusText(Verdict(st, s, m)))] else [])
  {
    if st.up && Traceable(s in st.regs, m) { OutcomeOfOutput(st, s, m); }
  }

  lemma OutcomeOfOutput(st: State, s: SocketId, m: Message)
    requires m.RelayTo?
    ensures Outcomes(RelayOutput(st, s, m).events) == [Verdict(st, s, m)]
    ensures AckEvents(RelayOutput(st, s, m).events) == [Some(StatusText(Verdict(st, s, m)))]
  {
    var e := RelayOutput(st, s, m).events;
    if |e| == 2 {
      assert e == [e[0], e[1]];
      CollectTwo(OutcomeOf, e[0], e[1]);
      CollectTwo(AckEventOf, e[0], e[1]);
    } else {
      assert e == [e[0], e[1], e[2]];
      CollectThree(OutcomeOf, e[0], e[1], e[2]);
      CollectThree(AckEventOf, e[0], e[1], e[2]);
    }
  }

  /** And one ack frame, on the sender's socket. */
  lemma OneAck(st: State, s: SocketId, m: Message, now: nat)
    requires m.RelayTo?
    ensures Acks(StepOutput(st, Receive(s, m, now)).writes) ==
            if st.up && Traceable(s in st.regs, m) then [(s, Verdict(st, s, m))] else []
  {
    if st.up && Traceable(s in st.regs, m) { AckOfOutput(st, s, m); }
  }

  lemma AckOfOutput(st: State, s: SocketId, m: Message)
    requires m.RelayTo?
    ensures Acks(RelayOutput(st, s, m).writes) == [(s, Verdict(st, s, m))]
  {
    var w := RelayOutput(st, s, m).writes;
    if |w| == 2 {
      assert w == [w[0], w[1]];
      CollectTwo(AckOf, w[0], w[1]);
    } else {
      assert w == [w[0], w[1], w[2]];
      CollectThree(AckOf, w[0], w[1], w[2]);
    }
  }

  /** Any other input brings no outcome and no ack. */
  lemma NoAnswer(st: State, input: Input)
    requires AnsweredBy(st, input) == []
    ensures var o := StepOutput(st, input);
            Outcomes(o.events) == [] && AckEvents(o.events) == [] && Acks(o.writes) == []
  {
    var o := StepOutput(st, input);
    CollectNone(OutcomeOf, o.events);
    CollectNone(AckEventOf, o.events);
    CollectNone(AckOf, o.writes);
  }

  /** The sender of a relay frame that gets through. */
  function AnsweredBy(st: State, input: Input): seq<SocketId> {
    if Completes(st, input) then SenderOf(input) else []
  }

  /** The senders of the relay frames that got through, in order. */
  function Answered(inputs: seq<Input>): seq<SocketId> {
    if inputs == [] then []
    else
      var front := inputs[..|inputs| - 1];
      Answered(front) + AnsweredBy(Run(front), inputs[|inputs| - 1])
  }

  /** Accounting, over every run: relay frames that got through, outcomes, ack events and ack
      frames are in one-to-one correspondence, in order, and each ack goes to the sender alone. */
  lemma {:induction false} Accounting(inputs: seq<Input>)
    ensures var st := Run(inputs);
            Paired(Answered(inputs), Outcomes(st.history), Acks(st.sent), AckEvents(st.history))
  {
    if inputs != [] {
      var front, input := inputs[..|inputs| - 1], inputs[|inputs| - 1];
      Accounting(front);
      StepAccounting(Run(front), Answered(front), input);
    }
  }

  lemma StepAccounting(st: State, sockets: seq<SocketId>, input: Input)
    requires Paired(sockets, Outcomes(st.history), Acks(st.sent), AckEvents(st.history))
    ensures var next := Step(st, input);
            Paired(sockets + AnsweredBy(st, input), Outcomes(next.history), Acks(next.sent), AckEvents(next.history))
  {
    var o := StepOutput(st, input);
    StepLogs(st, input);
    CollectAppend(OutcomeOf, st.history, o.events);
    CollectAppend(AckEventOf, st.history, o.events);
    CollectAppend(AckOf, st.sent, o.writes);
    if AnsweredBy(st, input) != [] {
      var s, status := input.socket, Verdict(st, input.socket, input.message);
      OneOutcome(st, s, input.message, input.now);
      OneAck(st, s, input.message, input.now);
      PairedPush(sockets, Outcomes(st.history), Acks(st.sent), AckEvents(st.history), s, status);
    } else {
      NoAnswer(st, input);
    }
  }

  lemma StepLogs(st: State, input: Input)
    ensures Step(st, input).history == st.history + StepOutput(st, input).events
    ensures Step(st, input).sent == st.sent + StepOutput(st, input).writes
  {
  }

  // --------------------------------------------------- frames that end the server

  /** Whether what an input puts into the trace converts to a string: of a relay frame its trace
      id, the kind its payload names and, if its sender is not registered, its address. */
  predicate Shows(st: State, input: Input) {
    input.Receive? && input.message.RelayTo? ==>
      && Renders(input.message.traceId) && Renders(Field(input.message.payload, Ascii("kind")))
      && (input.socket !in st.regs ==> Renders(input.message.to))
  }

  ghost predicate AllShow(inputs: seq<Input>) {
    forall i :: 0 <= i < |inputs| ==> Shows(Run(inputs[..i]), inputs[i])
  }

  /** The server stays up exactly as long as trace id, kind and, before its sender registered,
      target of every relay frame convert. */
  lemma {:induction false} UpExactly(inputs: seq<Input>)
    ensures Run(inputs).up <==> AllShow(inputs)
  {
    if inputs != [] {
      var front, last := inputs[..|inputs| - 1], inputs[|inputs| - 1];
      UpExactly(front);
      AllShowPush(front, last);
      StepUp(Run(front), last);
      assert inputs == front + [last];
      RunOf(front, last);
    }
  }

  lemma StepUp(st: State, input: Input)
    ensures Step(st, input).up <==> st.up && Shows(st, input)
  {
  }

  lemma AllShowPush(front: seq<Input>, last: Input)
    ensures AllShow(front + [last]) <==> AllShow(front) && Shows(Run(front), last)
  {
    var all := front + [last];
    forall i | 0 <= i < |front| ensures all[..i] == front[..i] && all[i] == front[i] {}
    assert all[..|front|] == front && all[|front|] == last;
    if AllShow(all) {
      forall i | 0 <= i < |front| ensures Shows(Run(front[..i]), front[i]) { assert Shows(Run(all[..i]), all[i]); }
    }
  }

  /** Every relay frame of a run is answered exactly when the server is up at its end; in any
      case those that are answered are the first ones. */
  lemma {:induction false} AllAnswered(inputs: seq<Input>)
    ensures Answered(inputs) <= Senders(inputs)
    ensures Answered(inputs) == Senders(inputs) <==> Run(inputs).up
  {
    if inputs != [] {
      AllAnswered(inputs[..|inputs| - 1]);
    }
  }

  /** The frame {"type":"relay","to":"b","payload":null,"trace_id":{"toString":0}}. */
  const STUCK := Object([Member(TO_STRING, Number([0x30]))])
  const FATAL := Object([Member(TYPE, String(RELAY)), Member(TO, String(B)), Member(PAYLOAD, Null),
                         Member(TRACE_ID, STUCK)])

  lemma FatalMessage()
    ensures MessageOf(FATAL) == RelayTo(String(B), Null, STUCK) && !Renders(STUCK)
  {
    assert |TYPE| == 4 && |TO| == 2 && |PAYLOAD| == 7 && |TRACE_ID| == 8 && |RELAY| == 5 && |REGISTER| == 8;
    FieldAt(FATAL.members, 0, TYPE);
    FieldAt(FATAL.members, 1, TO);
    FieldAt(FATAL.members, 2, PAYLOAD);
    FieldAt(FATAL.members, 3, TRACE_ID);
    assert STUCK.members[0] in STUCK.members;
  }

  /** Whoever sends it, and whatever the state: it gets no ack, no outcome and no trace entry,
      nothing is forwarded, and the server is down. */
  lemma FatalFrame(st: State, s: SocketId, now: nat)
    requires st.up
    ensures var after := Step(st, Receive(s, MessageOf(FATAL), now));
            !after.up && after.history == st.history && after.sent == st.sent
  {
    FatalMessage();
  }
}
