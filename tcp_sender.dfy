/** TCPSender (src/tcp_sender.hh, src/tcp_sender.cc): reads the outbound ByteStream and
    cuts it into TCPSenderMessages that fit the peer's window, starting with SYN and ending
    with FIN; remembers them in the Timer until they are acknowledged and retransmits on
    timeout.  SenderState is its value; TcpSender is the object. */
module TcpSenders {
  import opened Common
  import opened Wrap32
  import opened OrderedMaps
  import opened ByteStreams
  import opened TcpMessages
  import opened TcpTimers

  /** TCPConfig::MAX_PAYLOAD_SIZE (tcp_config.hh is not part of this model; minnow sets it
      to 1000). */
  const MAX_PAYLOAD_SIZE: nat := 1000

  /** The payloads of a run of messages, concatenated. */
  function Payloads(ms: seq<SenderMessage>): (p: seq<byte>)
  {
    if ms == [] then [] else ms[0].payload + Payloads(ms[1..])
  }

  /** The sum of the sequence lengths of a run of messages. */
  function SeqLens(ms: seq<SenderMessage>): (n: nat)
  {
    if ms == [] then 0 else ms[0].SequenceLength() + SeqLens(ms[1..])
  }

  lemma {:induction false} PayloadsAppend(a: seq<SenderMessage>, b: seq<SenderMessage>)
    ensures Payloads(a + b) == Payloads(a) + Payloads(b)
    ensures SeqLens(a + b) == SeqLens(a) + SeqLens(b)
  {
    if a == [] {
      assert a + b == b;
    } else {
      assert (a + b)[0] == a[0] && (a + b)[1..] == a[1..] + b;
      PayloadsAppend(a[1..], b);
    }
  }

  /** The state of a TCPSender: input_, isn_, initial_RTO_ms_, timer_, window_size_,
      expect_ackno, send_FIN and send_SYN. */
  datatype SenderState = SenderState(
    stream: StreamState,
    isn: u32,
    initialRto: nat,
    timer: TimerState,
    windowSize: u16,
    expectAckno: nat,
    sendFin: bool,
    sendSyn: bool)
  {
    /** FIN is sent only after SYN and once the stream has finished; before SYN nothing has
        been read from the stream and nothing is outstanding. */
    ghost predicate Valid()
    {
      && stream.Valid() && timer.Valid()
      && (sendFin ==> sendSyn && stream.finished)
      && (!sendSyn ==> stream.bytesPopped == 0 && timer.messages == [])
    }

    /** The window push fills: a zero window is treated as one. */
    function Window(): (w: nat)
      ensures windowSize == 0 ==> w == 1
      ensures windowSize > 0 ==> w == windowSize
    {
      if windowSize == 0 then 1 else windowSize
    }

    /** TCPSender::push: the messages transmitted, in order, and the new state. */
    function Push(): (res: (SenderState, seq<SenderMessage>))
      requires Valid()
      ensures res.0.isn == isn && res.0.initialRto == initialRto && res.0.windowSize == windowSize
      ensures res.0.stream.bytesPushed == stream.bytesPushed
    {
      if stream.buffer == [] && !sendSyn then
        var fin := stream.finished;
        var msg := SenderMessage(Wrap(0, isn), true, [], fin, false);
        (this.(sendFin := sendFin || fin, sendSyn := true,
               timer := timer.AddMessage(Unwrap(msg.seqno, isn, 0), msg, initialRto)), [msg])
      else
        // The loop never reads the timer, so its messages are added to it after the loop,
        // in the order sent and at the keys the loop computes.
        var loop := PushLoop(this, InFlight(timer.messages), Window());
        PushLoopFacts(this, InFlight(timer.messages), Window());
        var withTimer := loop.0.(timer := AddAll(timer, loop.2, stream.bytesPopped, isn, initialRto));
        AddAllValid(timer, loop.2, stream.bytesPopped, isn, initialRto);
        PushFin(withTimer, loop.1, Window(), loop.2)
    }

    /** TCPSender::make_empty_message: no sequence numbers, at the next sequence number to
        send, RST when the stream has failed. */
    function MakeEmptyMessage(): (m: SenderMessage)
      ensures m.SequenceLength() == 0 && m.rst == stream.error
      ensures m.seqno == Wrap(stream.bytesPopped + 1 + (if sendFin then 1 else 0), isn)
    {
      var n := stream.bytesPopped + 1;
      var n' := if sendFin then n + 1 else n;
      SenderMessage(Wrap(n', isn), false, [], false, stream.error)
    }

    /** TCPSender::receive: RST fails the stream; otherwise adopt the window and, for an
        ackno no further than one past the last byte read (two once the stream has
        finished), drop what it acknowledges from the timer. */
    function Receive(msg: ReceiverMessage): (t: SenderState)
      ensures msg.rst ==> t.stream.error
      ensures !msg.rst ==> t.windowSize == msg.windowSize && t.stream == stream
      ensures t.isn == isn && t.sendSyn == sendSyn && t.sendFin == sendFin
    {
      if msg.rst then this.(stream := stream.SetError())
      else
        var st1 := this.(windowSize := msg.windowSize);
        if msg.ackno.None? then st1
        else
          var ackno := Unwrap(msg.ackno.value, isn, U64(expectAckno));
          var popped := stream.bytesPopped;
          if ackno > popped + 1 && !(stream.finished && ackno == popped + 2) then st1
          else
            var rm := timer.RemoveAck(ackno);
            st1.(timer := rm.0, expectAckno := rm.1)
    }

    /** TCPSender::tick: the timer's tick, with a full window meaning a zero window. */
    function Tick(ms: nat): (res: (SenderState, seq<SenderMessage>))
      requires Valid()
      ensures res.0.stream == stream && res.0.windowSize == windowSize
      ensures res.0.timer.liveTime == timer.liveTime + ms
      ensures |res.1| <= 1 && (res.1 != [] ==> timer.messages != [] && res.1[0] == timer.messages[0].value)
    {
      var t := timer.Tick(ms, windowSize == 0);
      (this.(timer := t.0), t.1)
    }
  }

  /** A new TCPSender on a fresh stream: window 1, nothing sent. */
  function NewSender(capacity: nat, isn: u32, initialRto: nat): (st: SenderState)
    ensures st.Valid() && !st.sendSyn && !st.sendFin && st.timer.messages == []
    ensures st.stream == NewStream(capacity) && st.windowSize == 1
  {
    SenderState(NewStream(capacity), isn, initialRto, NewTimer(), 1, 0, false, false)
  }

  /** One pass of push's loop: cut a payload of at most MAX_PAYLOAD_SIZE bytes and at most
      the rest of the window (one less when SYN would otherwise overfill it), read it from
      the stream, set FIN once the stream has finished and the payload left room in the
      window.  The message is made outstanding in the timer at the key TimerKey gives (by
      AddAll, after the loop). */
  function PushStep(st: SenderState, sum: nat, window: nat): (r: (SenderState, SenderMessage))
    requires st.Valid() && sum < window && st.stream.buffer != []
    ensures r.0.Valid() && r.0.timer == st.timer && r.1.SequenceLength() >= 1
  {
    var data := st.stream.buffer;
    var checkpoint := st.stream.bytesPopped;
    var syn := !st.sendSyn;
    var len := SegmentLength(|data|, window - sum, window, syn);
    var seqno := SeqnoAfter(syn, checkpoint, st.isn);
    var stream' := st.stream.Pop(len);
    var payload := data[..len];
    // window_size - payload.size() > 0, where the payload never exceeds the window
    var fin := stream'.finished && window > |payload|;
    var msg := SenderMessage(seqno, syn, payload, fin, stream'.error);
    (st.(stream := stream', sendSyn := true, sendFin := st.sendFin || fin, expectAckno := checkpoint + 1), msg)
  }

  /** The timer key of a message sent when read bytes of the stream have been read:
      seqno.unwrap( isn_, checkpoint ). */
  function TimerKey(m: SenderMessage, read: nat, isn: u32): (k: u64)
    ensures k % MOD32 == (m.seqno - isn) % MOD32
  {
    Unwrap(m.seqno, isn, U64(read))
  }

  /** timer_.add_message for each message of a run, in order, where read bytes had been
      read before the run. */
  function AddAll(t: TimerState, ms: seq<SenderMessage>, read: nat, isn: u32, rto: nat): (t': TimerState)
    ensures ms == [] ==> t' == t
    ensures ms != [] ==> t'.started && t'.initRto == rto
    ensures t'.liveTime == t.liveTime && t'.retransmissionCount == t.retransmissionCount
    ensures |t'.messages| <= |t.messages| + |ms|
    decreases |ms|
  {
    if ms == [] then t
    else
      var before := ms[..|ms| - 1];
      var m := ms[|ms| - 1];
      AddAll(t, before, read, isn, rto).AddMessage(TimerKey(m, read + |Payloads(before)|, isn), m, rto)
  }

  /** Adding a run keeps the timer's invariant, and leaves something outstanding if the
      run is not empty. */
  lemma {:induction false} AddAllValid(t: TimerState, ms: seq<SenderMessage>, read: nat, isn: u32, rto: nat)
    requires t.Valid()
    ensures AddAll(t, ms, read, isn, rto).Valid()
    ensures ms != [] ==> AddAll(t, ms, read, isn, rto).messages != []
    decreases |ms|
  {
    if ms != [] {
      var before := ms[..|ms| - 1];
      var m := ms[|ms| - 1];
      var t1 := AddAll(t, before, read, isn, rto);
      AddAllValid(t, before, read, isn, rto);
      AddMessageValid(t1, TimerKey(m, read + |Payloads(before)|, isn), m, rto);
    }
  }

  /** Adding a run and then one more message is adding the longer run. */
  lemma AddAllSnoc(t: TimerState, ms: seq<SenderMessage>, read: nat, isn: u32, rto: nat, m: SenderMessage, read': nat)
    requires read' == read + |Payloads(ms)|
    ensures AddAll(t, ms + [m], read, isn, rto) == AddAll(t, ms, read, isn, rto).AddMessage(TimerKey(m, read', isn), m, rto)
  {
    assert (ms + [m])[..|ms|] == ms && (ms + [m])[|ms|] == m;
  }

  /** push's loop: send while the window has room and the stream has bytes; the final
      state, the final count of sequence numbers in flight, and the messages sent
      (PushLoopFacts states what they are). */
  function PushLoop(st: SenderState, sum: nat, window: nat): (res: (SenderState, nat, seq<SenderMessage>))
    requires st.Valid()
    ensures res.0.Valid() && res.0.timer == st.timer
    ensures res.2 == [] ==> res.0 == st && res.1 == sum
    ensures res.2 != [] ==> res.0.sendSyn
    ensures sum < window && st.stream.buffer != [] ==> res.2 != []
    decreases window - sum
  {
    if sum < window && st.stream.buffer != [] then
      var step := PushStep(st, sum, window);
      var rest := PushLoop(step.0, sum + step.1.SequenceLength(), window);
      (rest.0, rest.1, [step.1] + rest.2)
    else (st, sum, [])
  }

  /** push's loop meets LoopBytes and LoopFlags. */
  lemma PushLoopFacts(st: SenderState, sum: nat, window: nat)
    requires st.Valid()
    ensures LoopBytes(st, sum, window, PushLoop(st, sum, window))
    ensures LoopFlags(st, PushLoop(st, sum, window))
  {
    PushLoopBytes(st, sum, window);
    PushLoopFlags(st, sum, window);
  }

  /** push's loop meets LoopBytes. */
  lemma {:induction false} PushLoopBytes(st: SenderState, sum: nat, window: nat)
    requires st.Valid()
    ensures LoopBytes(st, sum, window, PushLoop(st, sum, window))
    decreases window - sum
  {
    if sum < window && st.stream.buffer != [] {
      var step := PushStep(st, sum, window);
      PushStepFacts(st, sum, window, step.0, step.1);
      var sum1 := sum + step.1.SequenceLength();
      PushLoopBytes(step.0, sum1, window);
      var rest := PushLoop(step.0, sum1, window);
      assert PushLoop(st, sum, window) == (rest.0, rest.1, [step.1] + rest.2);
      LoopConsBytes(st, sum, window, step.0, step.1, rest);
    }
  }

  /** push's loop meets LoopFlags. */
  lemma {:induction false} PushLoopFlags(st: SenderState, sum: nat, window: nat)
    requires st.Valid()
    ensures LoopFlags(st, PushLoop(st, sum, window))
    decreases window - sum
  {
    if sum < window && st.stream.buffer != [] {
      var step := PushStep(st, sum, window);
      PushStepFacts(st, sum, window, step.0, step.1);
      var sum1 := sum + step.1.SequenceLength();
      PushLoopFlags(step.0, sum1, window);
      var rest := PushLoop(step.0, sum1, window);
      assert step.0.stream.buffer == [] ==> rest.2 == [];
      assert PushLoop(st, sum, window) == (rest.0, rest.1, [step.1] + rest.2);
      LoopConsFlags(st, sum, window, step.0, step.1, rest);
    }
  }

  /** What push's loop promises about the bytes, from st with sum sequence numbers in
      flight and the given window, for its result res = (final state, final count,
      messages): the messages carry exactly the bytes read from the stream, each within
      MAX_PAYLOAD_SIZE and together within the room the window had; something is sent
      exactly when the window has room and the stream has bytes, and the loop stops only
      on a full window or an empty stream; the count grows by the messages' sequence
      lengths. */
  ghost predicate LoopBytes(st: SenderState, sum: nat, window: nat, res: (SenderState, nat, seq<SenderMessage>))
  {
    var (st', sum', ms) := res;
    && st'.isn == st.isn && st'.initialRto == st.initialRto && st'.windowSize == st.windowSize
    && st.stream.buffer == Payloads(ms) + st'.stream.buffer
    && st'.stream.bytesPopped == st.stream.bytesPopped + |Payloads(ms)|
    && sum' == sum + SeqLens(ms)
    && (ms != [] <==> sum < window && st.stream.buffer != [])
    && (ms != [] ==> sum + |Payloads(ms)| <= window)
    && (ms != [] && ms[0].syn ==> 1 + |ms[0].payload| <= window)
    && (ms != [] && (!st.sendSyn ==> sum == 0) ==> sum' <= window + 1)
    && (st'.stream.buffer != [] ==> sum' >= window)
    && WithinMaxPayload(ms)
  }

  /** What push's loop promises about the flags and numbering: SYN is on the first message
      exactly when it had not been sent, FIN at most on the last and only if it had not
      been sent, and sequence numbers are contiguous. */
  ghost predicate LoopFlags(st: SenderState, res: (SenderState, nat, seq<SenderMessage>))
  {
    var (st', _, ms) := res;
    && SynOnlyFirst(ms, !st.sendSyn) && st'.sendSyn == (st.sendSyn || ms != [])
    && FinOnlyLast(ms, !st.sendFin) && st'.sendFin == (st.sendFin || FinSent(ms))
    && Contiguous(ms, st.stream.bytesPopped, st.isn)
  }

  /** What one pass of push's loop does, from st with sum in flight, to st' sending m. */
  ghost predicate StepFacts(st: SenderState, sum: nat, window: nat, st': SenderState, m: SenderMessage)
  {
    && st.stream.buffer == m.payload + st'.stream.buffer
    && st'.stream.bytesPopped == st.stream.bytesPopped + |m.payload|
    && |m.payload| <= MAX_PAYLOAD_SIZE && sum + |m.payload| <= window
    && ((m.syn ==> sum == 0) ==> sum + m.SequenceLength() <= window + 1)
    && (m.syn ==> 1 + |m.payload| <= window)
    && m.syn == !st.sendSyn && st'.sendSyn
    && m.seqno == Wrap(if m.syn then 0 else st.stream.bytesPopped + 1, st.isn)
    && !st.sendFin && st'.sendFin == m.fin
    && (m.fin ==> st'.stream.buffer == [])
    && st'.isn == st.isn && st'.initialRto == st.initialRto && st'.windowSize == st.windowSize
  }

  /** A pass followed by the rest of the loop gives the loop's facts. */
  lemma LoopConsBytes(st: SenderState, sum: nat, window: nat, st1: SenderState, m: SenderMessage,
                      rest: (SenderState, nat, seq<SenderMessage>))
    requires sum < window && st.stream.buffer != []
    requires StepFacts(st, sum, window, st1, m)
    requires LoopBytes(st1, sum + m.SequenceLength(), window, rest)
    ensures LoopBytes(st, sum, window, (rest.0, rest.1, [m] + rest.2))
  {
    var ms := [m] + rest.2;
    PayloadsAppend([m], rest.2);
    assert Payloads([m]) == m.payload + Payloads([]);
    assert st.stream.buffer == Payloads(ms) + rest.0.stream.buffer;
    assert forall i :: 0 < i < |ms| ==> ms[i] == rest.2[i - 1];
  }

  lemma LoopConsFlags(st: SenderState, sum: nat, window: nat, st1: SenderState, m: SenderMessage,
                      rest: (SenderState, nat, seq<SenderMessage>))
    requires sum < window && st.stream.buffer != []
    requires StepFacts(st, sum, window, st1, m)
    requires (st1.stream.buffer == [] ==> rest.2 == []) && LoopFlags(st1, rest)
    ensures LoopFlags(st, (rest.0, rest.1, [m] + rest.2))
  {
    ConsFlags(m, rest.2, !st.sendSyn, !st1.sendSyn, !st1.sendFin);
    ConsContiguous(m, rest.2, st.stream.bytesPopped, st1.stream.bytesPopped, st.isn);
  }

  /** Each message's payload is at most MAX_PAYLOAD_SIZE. */
  ghost predicate WithinMaxPayload(ms: seq<SenderMessage>)
  {
    forall i :: 0 <= i < |ms| ==> |ms[i].payload| <= MAX_PAYLOAD_SIZE
  }

  /** SYN is set on the first message if syn holds, and on no other. */
  ghost predicate SynOnlyFirst(ms: seq<SenderMessage>, syn: bool)
  {
    forall i :: 0 <= i < |ms| ==> (ms[i].syn <==> i == 0 && syn)
  }

  /** FIN is set on the last message at most, and only if allowed. */
  ghost predicate FinOnlyLast(ms: seq<SenderMessage>, allowed: bool)
  {
    forall i :: 0 <= i < |ms| ==> ms[i].fin ==> i == |ms| - 1 && allowed
  }

  /** The last message carries FIN. */
  predicate FinSent(ms: seq<SenderMessage>)
  {
    ms != [] && ms[|ms| - 1].fin
  }

  /** SYN takes the ISN, and every other message starts right after the stream bytes
      already read before it: read before the run, plus the payloads before it
      (ContiguousIndexed states this message by message). */
  ghost predicate Contiguous(ms: seq<SenderMessage>, read: nat, isn: u32)
    decreases |ms|
  {
    ms != [] ==>
      ms[0].seqno == SeqnoAfter(ms[0].syn, read, isn) && Contiguous(ms[1..], read + |ms[0].payload|, isn)
  }

  /** The sequence number of a message sent once read bytes of the stream have been read:
      the ISN for SYN, otherwise the one after the last byte read. */
  function SeqnoAfter(syn: bool, read: nat, isn: u32): (s: u32)
    ensures syn ==> s == isn
    ensures !syn ==> s == (isn + read + 1) % MOD32
  {
    if syn then Wrap(0, isn) else Wrap(read + 1, isn)
  }

  /** The payload length of one pass of push's loop: at most MAX_PAYLOAD_SIZE, the bytes
      available and the room left in the window, one less when a SYN would otherwise fill
      the whole window. */
  function SegmentLength(available: nat, room: nat, window: nat, syn: bool): (r: nat)
    requires window >= 1
    ensures r <= available && r <= MAX_PAYLOAD_SIZE && r <= room
    ensures syn && room <= window ==> r + 1 <= window
    ensures r == Min(Min(available, MAX_PAYLOAD_SIZE), room) || (syn && r + 1 == window)
  {
    var len := Min(Min(available, MAX_PAYLOAD_SIZE), room);
    if syn && len == window then len - 1 else len
  }

  /** SYN and FIN of a message followed by a run, where the run follows
      SYN (syn1 is false) and the message's FIN (fin1 is !m.fin). */
  lemma ConsFlags(m: SenderMessage, rest: seq<SenderMessage>, syn: bool, syn1: bool, fin1: bool)
    requires m.syn == syn && !syn1 && SynOnlyFirst(rest, syn1)
    requires (m.fin ==> rest == []) && fin1 == !m.fin && FinOnlyLast(rest, fin1)
    ensures SynOnlyFirst([m] + rest, syn)
    ensures FinOnlyLast([m] + rest, true) && FinSent([m] + rest) == (m.fin || FinSent(rest))
  {
    var ms := [m] + rest;
    assert forall i :: 0 < i < |ms| ==> ms[i] == rest[i - 1];
    if rest != [] {
      assert ms[|ms| - 1] == rest[|rest| - 1];
    }
  }

  /** Contiguous numbering of a message followed by a run that starts after its payload. */
  lemma ConsContiguous(m: SenderMessage, rest: seq<SenderMessage>, popped: nat, popped1: nat, isn: u32)
    requires m.seqno == Wrap(if m.syn then 0 else popped + 1, isn)
    requires popped1 == popped + |m.payload| && Contiguous(rest, popped1, isn)
    ensures Contiguous([m] + rest, popped, isn)
  {
    assert ([m] + rest)[0] == m && ([m] + rest)[1..] == rest;
  }

  /** Contiguous numbering, message by message: the i-th message is numbered after the
      bytes read before the run and the payloads of the messages before it. */
  lemma {:induction false} ContiguousIndexed(ms: seq<SenderMessage>, read: nat, isn: u32, i: nat)
    requires Contiguous(ms, read, isn) && i < |ms|
    ensures ms[i].seqno == SeqnoAfter(ms[i].syn, read + |Payloads(ms[..i])|, isn)
    decreases i
  {
    if i == 0 {
      assert ms[..0] == [];
    } else {
      ContiguousIndexed(ms[1..], read + |ms[0].payload|, isn, i - 1);
      assert ms[1..][i - 1] == ms[i];
      assert ms[..i][0] == ms[0] && ms[..i][1..] == ms[1..][..i - 1];
    }
  }

  /** The end of push: a FIN-only message once the stream has finished, FIN has not been
      sent, and the window has room. */
  function PushFin(st: SenderState, sum: nat, window: nat, sent: seq<SenderMessage>): (res: (SenderState, seq<SenderMessage>))
    requires st.Valid()
    ensures res.0.sendFin == (st.sendFin || (st.stream.finished && window > sum))
    ensures |sent| <= |res.1| <= |sent| + 1 && res.1[..|sent|] == sent
    ensures |res.1| > |sent| ==> res.1[|sent|].fin && res.1[|sent|].payload == []
    ensures res.0.stream == st.stream
    ensures res.0.isn == st.isn && res.0.initialRto == st.initialRto && res.0.windowSize == st.windowSize
  {
    if st.stream.finished && !st.sendFin && window > sum then
      var popped := st.stream.bytesPopped;
      var msg := SenderMessage(Wrap(popped + 1, st.isn), false, [], true, false);
      (st.(timer := st.timer.AddMessage(Unwrap(msg.seqno, st.isn, U64(popped)), msg, st.initialRto), sendFin := true), sent + [msg])
    else (st, sent)
  }

  /** One pass of push's loop reads the payload from the front of the stream, keeps it
      within MAX_PAYLOAD_SIZE and the room left in the window, sets SYN exactly on the
      first message of the connection, sets FIN only on a message that empties a finished
      stream, and numbers it right after the bytes already read. */
  lemma PushStepFacts(st: SenderState, sum: nat, window: nat, st': SenderState, m: SenderMessage)
    requires st.Valid() && sum < window && st.stream.buffer != []
    requires (st', m) == PushStep(st, sum, window)
    ensures StepFacts(st, sum, window, st', m)
  {
    var len := |m.payload|;
    assert m.payload == st.stream.buffer[..len];
    assert st.stream.buffer == st.stream.buffer[..len] + st'.stream.buffer;
  }



  /** Prepending in two steps is prepending once. */
  lemma PrependedTwice(sent: seq<SenderMessage>, m: SenderMessage, r: (SenderState, nat, seq<SenderMessage>))
    ensures Prepended(sent, Prepended([m], r)) == Prepended(sent + [m], r)
  {
    assert sent + ([m] + r.2) == (sent + [m]) + r.2;
  }

  /** One pass of push's loop, as the object takes it: if the whole loop's result is the
      messages sent so far followed by the loop from st1, it is also the messages sent
      so far and the pass's message followed by the loop from the state after it. */
  lemma LoopStep(result: (SenderState, nat, seq<SenderMessage>), sent: seq<SenderMessage>, st1: SenderState,
                 sum: nat, window: nat, st2: SenderState, m: SenderMessage, sum': nat, sent': seq<SenderMessage>)
    requires st1.Valid() && sum < window && st1.stream.buffer != []
    requires (st2, m) == PushStep(st1, sum, window)
    requires result == Prepended(sent, PushLoop(st1, sum, window))
    requires sent' == sent + [m] && sum' == sum + m.SequenceLength()
    ensures result == Prepended(sent', PushLoop(st2, sum', window))
  {
    PushLoopUnfold(st1, sum, window, st2, m, sum');
    PrependedTwice(sent, m, PushLoop(st2, sum', window));
  }

  /** One unfolding of push's loop. */
  lemma PushLoopUnfold(st: SenderState, sum: nat, window: nat, st1: SenderState, m: SenderMessage, sum1: nat)
    requires st.Valid() && sum < window && st.stream.buffer != []
    requires (st1, m) == PushStep(st, sum, window) && sum1 == sum + m.SequenceLength()
    ensures PushLoop(st, sum, window) == Prepended([m], PushLoop(st1, sum1, window))
  {
    var rest := PushLoop(st1, sum1, window);
    assert PushLoop(st, sum, window) == (rest.0, rest.1, [m] + rest.2);
  }

  /** One pass of push's loop advances the bytes read by the message's payload. */
  lemma LoopRead(sent: seq<SenderMessage>, read0: nat, st1: SenderState, sum: nat, window: nat,
                 st2: SenderState, m: SenderMessage)
    requires st1.Valid() && sum < window && st1.stream.buffer != []
    requires st1.stream.bytesPopped == read0 + |Payloads(sent)|
    requires (st2, m) == PushStep(st1, sum, window)
    ensures st2.stream.bytesPopped == read0 + |Payloads(sent + [m])|
  {
    PushStepFacts(st1, sum, window, st2, m);
    PayloadsAppend(sent, [m]);
    assert Payloads([m]) == m.payload + Payloads([]);
  }

  /** The end of push's loop, as the object takes it. */
  lemma LoopExit(result: (SenderState, nat, seq<SenderMessage>), sent: seq<SenderMessage>, st: SenderState,
                 sum: nat, window: nat)
    requires st.Valid() && !(sum < window && st.stream.buffer != [])
    requires result == Prepended(sent, PushLoop(st, sum, window))
    ensures result == (st, sum, sent)
  {
    assert PushLoop(st, sum, window) == (st, sum, []);
    assert sent + [] == sent;
  }

  /** The object form of TCPSender. */
  class TcpSender {
    const input: ByteStream
    const isn: u32
    const initialRto: nat
    const timer: Timer
    var windowSize: u16
    var expectAckno: nat
    var sendFin: bool
    var sendSyn: bool

    function Model(): SenderState
      reads this, input, timer
    {
      SenderState(input.Model(), isn, initialRto, timer.Model(), windowSize, expectAckno, sendFin, sendSyn)
    }

    ghost predicate Valid()
      reads this, input, timer
    {
      input.Valid() && Model().Valid()
    }

    /** A sender on a fresh stream of the given capacity. */
    constructor (capacity: nat, isn: u32, initialRto: nat)
      ensures Valid() && Model() == NewSender(capacity, isn, initialRto)
    {
      input := new ByteStream(capacity);
      this.isn := isn;
      this.initialRto := initialRto;
      timer := new Timer(isn);
      windowSize, expectAckno, sendFin, sendSyn := 1, 0, false, false;
    }

    /** TCPSender::push; the transmitted messages are returned in order. */
    method Push() returns (sent: seq<SenderMessage>)
      requires Valid()
      modifies this, input, timer
      ensures Valid() && (Model(), sent) == old(Model()).Push()
    {
      var data := input.Peek();
      if |data| == 0 && !sendSyn {
        sent := PushSynOnly();
        return;
      }
      var sum := timer.GetNum();
      var window: nat := windowSize;
      if window == 0 {
        window := window + 1;
      }
      ghost var st0 := Model();
      assert window == st0.Window() && sum == InFlight(st0.timer.messages);
      sum, sent := SendWhileRoom(sum, window, data);
      sent := PushFinOnly(sum, window, sent);
    }

    /** push's loop: send while the window has room and the stream has bytes; the count
        of sequence numbers in flight and the messages sent. */
    method SendWhileRoom(sum: nat, window: nat, data: seq<byte>) returns (sum': nat, sent: seq<SenderMessage>)
      requires Valid() && data == input.Model().buffer
      modifies this, input, timer
      ensures Valid()
      ensures var loop := PushLoop(old(Model()), sum, window);
        && Model() == loop.0.(timer := AddAll(old(Model()).timer, loop.2, old(Model()).stream.bytesPopped, isn, initialRto))
        && sum' == loop.1 && sent == loop.2
    {
      var data := data;
      sum' := sum;
      ghost var st0 := Model();
      // cur is the state as push's loop sees it: the timer as it was before the loop
      ghost var t0, read0, cur := st0.timer, st0.stream.bytesPopped, st0;
      sent := [];
      ghost var result := PushLoop(st0, sum, window);
      assert [] + result.2 == result.2;
      while sum' < window && |data| > 0
        invariant Valid() && data == input.Model().buffer
        invariant cur.Valid() && cur.timer == t0 && cur.stream.bytesPopped == read0 + |Payloads(sent)|
        invariant Model() == cur.(timer := AddAll(t0, sent, read0, isn, initialRto))
        invariant result == Prepended(sent, PushLoop(cur, sum', window))
        decreases window - sum'
      {
        ghost var sent0, sum0, cur0 := sent, sum', cur;
        var msg;
        msg, cur := SendSegment(sum', window, t0, read0, sent, cur);
        sent := sent + [msg];
        sum' := sum' + msg.SequenceLength();
        LoopStep(result, sent0, cur0, sum0, window, cur, msg, sum', sent);
        data := input.Peek();
      }
      LoopExit(result, sent, cur, sum', window);
    }

    /** push on an empty stream before SYN: a SYN-only message, with FIN if the stream has
        already finished. */
    method PushSynOnly() returns (sent: seq<SenderMessage>)
      requires Valid() && input.Model().buffer == [] && !sendSyn
      modifies this, timer
      ensures Valid() && (Model(), sent) == old(Model()).Push()
    {
      var msg := SenderMessage(Wrap(0, isn), true, [], false, false);
      if input.IsFinished() {
        msg := msg.(fin := true);
        sendFin := true;
      }
      sent := [msg];
      sendSyn := true;
      timer.AddMessage(Unwrap(msg.seqno, isn, 0), msg, initialRto);
    }

    /** One pass of push's loop, up to making the message outstanding: the message and its
        key in the timer.  The pass never reads the timer; t0 stands for the timer as the
        loop sees it. */
    method TakeSegment(sum: nat, window: nat, ghost t0: TimerState) returns (msg: SenderMessage, key: nat)
      requires Valid() && sum < window && input.Model().buffer != []
      requires Model().(timer := t0).Valid()
      modifies this, input
      ensures Valid() && (Model().(timer := t0), msg) == PushStep(old(Model()).(timer := t0), sum, window)
      ensures key == TimerKey(msg, old(input.Model().bytesPopped), isn)
    {
      ghost var st0 := Model().(timer := t0);
      var data := input.Peek();
      var checkpoint := input.BytesPopped();
      var syn := !sendSyn;
      var len := SegmentLength(|data|, window - sum, window, syn);
      var seqno := SeqnoAfter(syn, checkpoint, isn);
      var payload := data[..len];
      input.Pop(len);
      var fin := input.IsFinished() && window > |payload|;
      var rst := input.HasError();
      msg := SenderMessage(seqno, syn, payload, fin, rst);
      key := Unwrap(seqno, isn, U64(checkpoint));
      // the flags and expect_ackno are written together once the message is built
      sendSyn := true;
      if fin {
        sendFin := true;
      }
      expectAckno := checkpoint + 1;
    }

    /** One pass of push's loop, from cur as the loop sees the state (the timer as it was
        before the loop, t0) with sent sent so far: the pass's message, made outstanding
        in the timer, and the state the loop sees after it. */
    method SendSegment(sum: nat, window: nat, ghost t0: TimerState, ghost read0: nat,
                       ghost sent: seq<SenderMessage>, ghost cur: SenderState)
      returns (msg: SenderMessage, ghost cur': SenderState)
      requires Valid() && sum < window && input.Model().buffer != []
      requires cur.Valid() && cur.timer == t0 && cur.stream.bytesPopped == read0 + |Payloads(sent)|
      requires Model() == cur.(timer := AddAll(t0, sent, read0, isn, initialRto))
      modifies this, input, timer
      ensures Valid() && (cur', msg) == PushStep(cur, sum, window)
      ensures cur'.Valid() && cur'.timer == t0 && cur'.stream.bytesPopped == read0 + |Payloads(sent + [msg])|
      ensures Model() == cur'.(timer := AddAll(t0, sent + [msg], read0, isn, initialRto))
    {
      var key;
      msg, key := TakeSegment(sum, window, t0);
      cur' := Model().(timer := t0);
      LoopRead(sent, read0, cur, sum, window, cur', msg);
      AddAllSnoc(t0, sent, read0, isn, initialRto, msg, cur.stream.bytesPopped);
      timer.AddMessage(key, msg, initialRto);
    }

    /** The end of push: the FIN-only message when it is due. */
    method PushFinOnly(sum: nat, window: nat, sent: seq<SenderMessage>) returns (sent': seq<SenderMessage>)
      requires Valid() && sendSyn
      modifies this, timer
      ensures Valid() && (Model(), sent') == PushFin(old(Model()), sum, window, sent)
    {
      sent' := sent;
      if input.IsFinished() && !sendFin && window > sum {
        var popped := input.BytesPopped();
        var msg := SenderMessage(Wrap(popped + 1, isn), false, [], true, false);
        sent' := sent' + [msg];
        timer.AddMessage(Unwrap(msg.seqno, isn, U64(popped)), msg, initialRto);
        sendFin := true;
      }
    }

    /** TCPSender::make_empty_message. */
    function MakeEmptyMessage(): (m: SenderMessage)
      reads this, input, timer
      requires Valid()
      ensures m == Model().MakeEmptyMessage()
    {
      var n := input.BytesPopped() + 1;
      var n' := if sendFin then n + 1 else n;
      SenderMessage(Wrap(n', isn), false, [], false, input.HasError())
    }

    /** TCPSender::receive. */
    method Receive(msg: ReceiverMessage)
      requires Valid()
      modifies this, input, timer
      ensures Valid() && Model() == old(Model()).Receive(msg)
    {
      if msg.rst {
        input.SetError();
        return;
      }
      windowSize := msg.windowSize;
      if msg.ackno.Some? {
        var ackno := Unwrap(msg.ackno.value, isn, U64(expectAckno));
        if ackno > input.BytesPopped() + 1 {
          if input.IsFinished() && ackno == input.BytesPopped() + 2 {
            AcceptAck(ackno);
          }
          return;
        }
        AcceptAck(ackno);
      }
    }

    /** expect_ackno = timer_.remove_ack_msg( ackno ). */
    method AcceptAck(ackno: nat)
      requires Valid()
      modifies this, timer
      ensures Valid() && Model() == old(Model()).(timer := old(Model()).timer.RemoveAck(ackno).0,
                                                 expectAckno := old(Model()).timer.RemoveAck(ackno).1)
    {
      ghost var st0 := Model();
      ghost var rm := st0.timer.RemoveAck(ackno);
      RemoveAckValid(st0.timer, ackno);
      var r := timer.RemoveAckMsg(ackno);
      expectAckno := r;
      assert timer.Model() == rm.0 && r == rm.1;
      assert input.Model() == st0.stream;
    }

    /** TCPSender::tick; the retransmitted message, if any, is returned. */
    method Tick(ms: nat) returns (sent: seq<SenderMessage>)
      requires Valid()
      modifies timer
      ensures Valid() && (Model(), sent) == old(Model()).Tick(ms)
    {
      sent := timer.Tick(ms, windowSize == 0);
    }

    /** TCPSender::sequence_numbers_in_flight. */
    method SequenceNumbersInFlight() returns (n: nat)
      ensures n == InFlight(Model().timer.messages)
    {
      n := timer.GetNum();
    }

    /** TCPSender::consecutive_retransmissions. */
    function ConsecutiveRetransmissions(): (n: nat)
      reads timer
      ensures n == Model().timer.retransmissionCount
    {
      timer.GetRetransmissionCount()
    }
  }
}
