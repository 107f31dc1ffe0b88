/** What push, receive, tick and make_empty_message promise: one SYN first, at most one
    FIN last, payloads that are exactly the bytes read from the stream and fit the window
    and the maximum payload size, contiguous sequence numbers, and the sender's invariant
    kept by every operation. */
module TcpSenderProps {
  import opened Common
  import opened Wrap32
  import opened OrderedMaps
  import opened ByteStreams
  import opened TcpMessages
  import opened TcpTimers
  import opened TcpSenders

  /** The FIN-only message push appends once everything has been read. */
  function FinOnly(st: SenderState): (m: SenderMessage)
    ensures m.fin && !m.syn && m.payload == [] && m.SequenceLength() == 1
  {
    SenderMessage(Wrap(st.stream.bytesPopped + 1, st.isn), false, [], true, false)
  }

  /** The end of push either appends the FIN-only message and records FIN, or changes
      nothing. */
  lemma PushFinFacts(st: SenderState, sum: nat, window: nat, sent: seq<SenderMessage>)
    requires st.Valid() && st.sendSyn
    ensures var (st', sent') := PushFin(st, sum, window, sent);
      && st'.Valid()
      && st'.stream == st.stream && st'.isn == st.isn && st'.initialRto == st.initialRto
      && st'.windowSize == st.windowSize && st'.sendSyn
      && (st.stream.finished && !st.sendFin && window > sum ==>
            sent' == sent + [FinOnly(st)] && st'.sendFin)
      && (!(st.stream.finished && !st.sendFin && window > sum) ==> st' == st && sent' == sent)
  {
    var popped := st.stream.bytesPopped;
    var msg := FinOnly(st);
    AddMessageSpec(st.timer, Unwrap(msg.seqno, st.isn, U64(popped)), msg, st.initialRto);
  }

  lemma {:induction false} ContiguousSnoc(ms: seq<SenderMessage>, read: nat, isn: u32, m: SenderMessage, read1: nat)
    requires Contiguous(ms, read, isn)
    requires read1 == read + |Payloads(ms)| && m.seqno == SeqnoAfter(m.syn, read1, isn)
    ensures Contiguous(ms + [m], read, isn)
    decreases |ms|
  {
    if ms == [] {
      assert ms + [m] == [m] && [m][1..] == [];
    } else {
      ContiguousSnoc(ms[1..], read + |ms[0].payload|, isn, m, read1);
      assert (ms + [m])[0] == ms[0] && (ms + [m])[1..] == ms[1..] + [m];
    }
  }

  lemma FlagsSnoc(ms: seq<SenderMessage>, syn: bool, allowed: bool, m: SenderMessage)
    requires SynOnlyFirst(ms, syn) && (syn ==> ms != []) && !m.syn
    requires FinOnlyLast(ms, allowed) && !FinSent(ms)
    ensures SynOnlyFirst(ms + [m], syn) && FinOnlyLast(ms + [m], true) && FinSent(ms + [m]) == m.fin
  {
    var ms' := ms + [m];
    assert forall i :: 0 <= i < |ms| ==> ms'[i] == ms[i];
    assert ms'[|ms|] == m;
  }

  /** The sequence numbers in flight are zero before SYN. */
  lemma NothingInFlightBeforeSyn(st: SenderState)
    requires st.Valid() && !st.sendSyn
    ensures InFlight(st.timer.messages) == 0
  {
  }

  /** Appending a message without payload adds nothing to the payloads and its sequence
      length to the total, and keeps the payload bound. */
  lemma SnocNoPayload(ms: seq<SenderMessage>, m: SenderMessage)
    requires m.payload == []
    ensures Payloads(ms + [m]) == Payloads(ms)
    ensures SeqLens(ms + [m]) == SeqLens(ms) + m.SequenceLength()
    ensures WithinMaxPayload(ms) ==> WithinMaxPayload(ms + [m])
  {
    PayloadsAppend(ms, [m]);
    assert [m][1..] == [];
    assert forall i :: 0 <= i < |ms| ==> (ms + [m])[i] == ms[i];
  }

  /** push reads from the front of the stream exactly the bytes it sends, in order. */
  lemma PushReadsStream(st: SenderState)
    requires st.Valid()
    ensures var (st', ms) := st.Push();
      && st.stream.buffer == Payloads(ms) + st'.stream.buffer
      && st'.stream.bytesPopped == st.stream.bytesPopped + |Payloads(ms)|
  {
    if !(st.stream.buffer == [] && !st.sendSyn) {
      var loop := PushLoop(st, InFlight(st.timer.messages), st.Window());
      PushLoopFacts(st, InFlight(st.timer.messages), st.Window());
      var mid := loop.0.(timer := AddAll(st.timer, loop.2, st.stream.bytesPopped, st.isn, st.initialRto));
      AddAllValid(st.timer, loop.2, st.stream.bytesPopped, st.isn, st.initialRto);
      PushFinFacts(mid, loop.1, st.Window(), loop.2);
      SnocNoPayload(loop.2, FinOnly(mid));
    } else {
      SnocNoPayload([], st.Push().1[0]);
      assert [] + [st.Push().1[0]] == st.Push().1;
    }
  }

  /** Each payload push sends is at most MAX_PAYLOAD_SIZE; the payloads fit in the room the
      window had; a SYN segment and its payload together fit the window (a payload that
      would fill it alone loses a byte); and the sequence numbers in flight afterwards
      exceed the window by at most one (the FIN test ignores what is already in
      flight). */
  lemma PushFitsWindow(st: SenderState)
    requires st.Valid()
    ensures var ms := st.Push().1;
      && WithinMaxPayload(ms)
      && (ms != [] ==> InFlight(st.timer.messages) + |Payloads(ms)| <= st.Window())
      && (ms != [] && ms[0].syn ==> 1 + |ms[0].payload| <= st.Window())
      && (ms != [] ==> InFlight(st.timer.messages) + SeqLens(ms) <= st.Window() + 1)
  {
    if !(st.stream.buffer == [] && !st.sendSyn) {
      var sum := InFlight(st.timer.messages);
      if !st.sendSyn {
        NothingInFlightBeforeSyn(st);
      }
      var loop := PushLoop(st, sum, st.Window());
      PushLoopFacts(st, sum, st.Window());
      var mid := loop.0.(timer := AddAll(st.timer, loop.2, st.stream.bytesPopped, st.isn, st.initialRto));
      AddAllValid(st.timer, loop.2, st.stream.bytesPopped, st.isn, st.initialRto);
      PushFinFacts(mid, loop.1, st.Window(), loop.2);
      SnocNoPayload(loop.2, FinOnly(mid));
    } else {
      SnocNoPayload([], st.Push().1[0]);
      assert [] + [st.Push().1[0]] == st.Push().1;
    }
  }

  /** push sends SYN exactly once, on the first message of the connection, and FIN at most
      once, on the last message of a push, only after every byte of a finished stream has
      been read; the sender records both. */
  lemma PushSynFin(st: SenderState)
    requires st.Valid()
    ensures var (st', ms) := st.Push();
      && SynOnlyFirst(ms, !st.sendSyn) && st'.sendSyn
      && (!st.sendSyn ==> ms != [])
      && FinOnlyLast(ms, !st.sendFin) && st'.sendFin == (st.sendFin || FinSent(ms))
      && (FinSent(ms) ==> st'.stream.finished)
  {
    if !(st.stream.buffer == [] && !st.sendSyn) {
      var sum := InFlight(st.timer.messages);
      if !st.sendSyn {
        NothingInFlightBeforeSyn(st);
      }
      var loop := PushLoop(st, sum, st.Window());
      PushLoopFacts(st, sum, st.Window());
      var mid := loop.0.(timer := AddAll(st.timer, loop.2, st.stream.bytesPopped, st.isn, st.initialRto));
      AddAllValid(st.timer, loop.2, st.stream.bytesPopped, st.isn, st.initialRto);
      PushFinFacts(mid, loop.1, st.Window(), loop.2);
      if loop.0.stream.finished && !loop.0.sendFin && st.Window() > loop.1 {
        FlagsSnoc(loop.2, !st.sendSyn, !st.sendFin, FinOnly(mid));
      }
      if FinSent(loop.2) {
        assert loop.0.sendFin;
      }
    }
  }

  /** push numbers its messages contiguously: SYN at the ISN and every other message right
      after the bytes read before it. */
  lemma PushSeqnos(st: SenderState)
    requires st.Valid()
    ensures Contiguous(st.Push().1, st.stream.bytesPopped, st.isn)
  {
    if !(st.stream.buffer == [] && !st.sendSyn) {
      var sum := InFlight(st.timer.messages);
      var loop := PushLoop(st, sum, st.Window());
      PushLoopFacts(st, sum, st.Window());
      var mid := loop.0.(timer := AddAll(st.timer, loop.2, st.stream.bytesPopped, st.isn, st.initialRto));
      AddAllValid(st.timer, loop.2, st.stream.bytesPopped, st.isn, st.initialRto);
      PushFinFacts(mid, loop.1, st.Window(), loop.2);
      if loop.0.stream.finished && !loop.0.sendFin && st.Window() > loop.1 {
        var fin := FinOnly(mid);
        var read1 := loop.0.stream.bytesPopped;
        assert read1 == st.stream.bytesPopped + |Payloads(loop.2)|;
        assert fin.seqno == SeqnoAfter(fin.syn, read1, st.isn);
        ContiguousSnoc(loop.2, st.stream.bytesPopped, st.isn, fin, read1);
      }
    } else {
      var ms := st.Push().1;
      assert ms[1..] == [];
    }
  }

  /** push keeps the sender's invariant and never changes the ISN, the RTO or the
      window. */
  lemma PushKeepsValid(st: SenderState)
    requires st.Valid()
    ensures var st' := st.Push().0;
      st'.Valid() && st'.isn == st.isn && st'.initialRto == st.initialRto && st'.windowSize == st.windowSize
  {
    if st.stream.buffer == [] && !st.sendSyn {
      var msg := SenderMessage(Wrap(0, st.isn), true, [], st.stream.finished, false);
      AddMessageSpec(st.timer, Unwrap(msg.seqno, st.isn, 0), msg, st.initialRto);
    } else {
      var sum := InFlight(st.timer.messages);
      if !st.sendSyn {
        NothingInFlightBeforeSyn(st);
      }
      var loop := PushLoop(st, sum, st.Window());
      PushLoopFacts(st, sum, st.Window());
      var mid := loop.0.(timer := AddAll(st.timer, loop.2, st.stream.bytesPopped, st.isn, st.initialRto));
      AddAllValid(st.timer, loop.2, st.stream.bytesPopped, st.isn, st.initialRto);
      PushFinFacts(mid, loop.1, st.Window(), loop.2);
    }
  }

  /** make_empty_message takes the sequence number push would give its next message: once
      SYN has been sent and FIN has not, the first message of a push that sends data
      carries the empty message's sequence number. */
  lemma EmptyMessageIsNext(st: SenderState)
    requires st.Valid() && st.sendSyn && !st.sendFin
    ensures var ms := st.Push().1;
      ms != [] ==> ms[0].seqno == st.MakeEmptyMessage().seqno
  {
    PushSeqnos(st);
    PushSynFin(st);
    var ms := st.Push().1;
    if ms != [] {
      assert ms[..0] == [];
      assert !ms[0].syn;
    }
  }

  /** receive with RST fails the stream and changes nothing else. */
  lemma ReceiveReset(st: SenderState, msg: ReceiverMessage)
    requires msg.rst
    ensures st.Receive(msg) == st.(stream := st.stream.SetError())
    ensures st.Receive(msg).stream.error
  {
  }

  /** receive without RST adopts the peer's window; an ackno beyond what has been sent (one
      past the bytes read, or two once the stream has finished and FIN may be in flight)
      is ignored; any other ackno removes what it acknowledges from the timer. */
  lemma ReceiveAck(st: SenderState, msg: ReceiverMessage)
    requires !msg.rst
    ensures var st' := st.Receive(msg);
      && st'.windowSize == msg.windowSize
      && st'.stream == st.stream && st'.sendSyn == st.sendSyn && st'.sendFin == st.sendFin
      && (msg.ackno.None? ==> st' == st.(windowSize := msg.windowSize))
      && (msg.ackno.Some? ==>
            var ackno := Unwrap(msg.ackno.value, st.isn, U64(st.expectAckno));
            var popped := st.stream.bytesPopped;
            if ackno <= popped + 1 || (st.stream.finished && ackno == popped + 2) then
              (st'.timer, st'.expectAckno) == st.timer.RemoveAck(ackno)
            else st' == st.(windowSize := msg.windowSize))
  {
  }

  /** receive keeps the sender's invariant. */
  lemma ReceiveKeepsValid(st: SenderState, msg: ReceiverMessage)
    requires st.Valid()
    ensures st.Receive(msg).Valid()
  {
    if !msg.rst && msg.ackno.Some? {
      RemoveAckValid(st.timer, Unwrap(msg.ackno.value, st.isn, U64(st.expectAckno)));
    }
  }

  /** tick keeps the invariant; it retransmits the oldest outstanding message once the RTO
      has elapsed, and backs off only when the window is not zero. */
  lemma TickBacksOff(st: SenderState, ms: nat)
    requires st.Valid()
    ensures var (st', sent) := st.Tick(ms);
      var fires := st.timer.started && st.timer.liveTime + ms - st.timer.startTime >= st.timer.rto;
      && st'.Valid()
      && st'.stream == st.stream && st'.timer.messages == st.timer.messages
      && (fires ==> sent == [st.timer.messages[0].value])
      && (!fires ==> sent == [])
      && (fires && st.windowSize == 0 ==> st'.timer.rto == st.timer.rto)
      && (fires && st.windowSize != 0 ==> st'.timer.rto == 2 * st.timer.rto)
      && (fires && st.windowSize != 0 ==> st'.timer.retransmissionCount == st.timer.retransmissionCount + 1)
  {
    TickSpec(st.timer, ms, st.windowSize == 0);
  }

  /** Writing to or closing the outbound stream keeps the sender's invariant. */
  lemma WriterKeepsValid(st: SenderState, data: seq<byte>)
    requires st.Valid()
    ensures st.(stream := st.stream.Push(data)).Valid()
    ensures st.(stream := st.stream.Close()).Valid()
  {
  }
}
