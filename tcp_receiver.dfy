/** TCPReceiver (src/tcp_receiver.cc): turns sender messages into Reassembler inserts at
    absolute stream indices, and reports the acknowledgement number, the window and the
    error flag back to the sender. */
module TcpReceivers {
  import opened Common
  import opened Wrap32
  import opened ByteStreams
  import opened Reassembly
  import opened TcpMessages

  /** The stream index a message's payload is inserted at: the message's sequence number
      unwrapped against the checkpoint bytes_pushed + 1, plus one for SYN, minus one for the
      SYN that occupies sequence number ISN, all in uint64_t arithmetic. */
  function InsertIndex(msg: SenderMessage, isn: u32, pushed: nat): (first: u64)
    ensures var abs := Unwrap(msg.seqno, isn, U64(pushed + 1));
      first == if msg.syn then abs else if abs == 0 then MOD64 - 1 else abs - 1
  {
    var abs := Unwrap(msg.seqno, isn, U64(pushed + 1));
    var seqno := if msg.syn then U64(abs + 1) else abs;
    U64(seqno + MOD64 - 1)
  }

  /** An absolute sequence number n near the checkpoint, sent wrapped, is inserted at
      stream index n - 1 (n itself when the message carries SYN, whose number is the one
      before the payload's). */
  lemma InsertIndexOfWrapped(n: u64, isn: u32, pushed: nat, syn: bool, payload: seq<byte>, fin: bool, rst: bool)
    requires n < U64(pushed + 1) + HALF && U64(pushed + 1) < n + HALF
    requires syn || n > 0
    ensures InsertIndex(SenderMessage(Wrap(n, isn), syn, payload, fin, rst), isn, pushed)
      == if syn then n else n - 1
  {
    UnwrapWrap(n, isn, U64(pushed + 1));
  }

  /** The state of a TCPReceiver: ISN, ISN_received and the reassembler with its output. */
  datatype ReceiverState = ReceiverState(isn: u32, isnReceived: bool, reasm: ReasmState, stream: StreamState)
  {
    ghost predicate Valid()
    {
      reasm.Valid() && stream.Valid()
    }

    /** TCPReceiver::receive. */
    function Receive(msg: SenderMessage): (r: ReceiverState)
      requires Valid()
      ensures msg.rst ==> r.stream.error
      ensures r.isnReceived == (isnReceived || (!msg.rst && msg.syn))
      ensures !msg.rst && msg.syn ==> r.isn == msg.seqno
    {
      if msg.rst then this.(stream := stream.SetError())
      else
        var isn' := if msg.syn then Unwrap(msg.seqno, 0, 0) else isn;
        if !(isnReceived || msg.syn) then this
        else
          var res := reasm.Insert(stream, InsertIndex(msg, isn', stream.bytesPushed), msg.payload, msg.fin);
          ReceiverState(isn', true, res.0, res.1)
    }

    /** TCPReceiver::send. */
    function Send(): (m: ReceiverMessage)
      requires Valid()
      ensures m.rst == stream.error
      ensures m.windowSize == Min(stream.AvailableCapacity(), U16_MAX)
      ensures m.ackno.Some? <==> isnReceived
    {
      var ackno := if isnReceived then
          var a := (isn + stream.bytesPushed % MOD32 + 1) % MOD32;
          Some(if stream.closed then (a + 1) % MOD32 else a)
        else None;
      var avail := stream.AvailableCapacity();
      ReceiverMessage(ackno, if avail > U16_MAX then U16_MAX else avail, stream.error)
    }
  }

  /** A new receiver: no ISN yet, an empty reassembler over the given stream. */
  function NewReceiver(s: StreamState): (r: ReceiverState)
    requires s.Valid()
    ensures r.Valid() && !r.isnReceived
  {
    ReceiverState(0, false, ReasmState(0, 0, []), s)
  }

  /** receive keeps the reassembler's and the stream's invariants. */
  lemma ReceiveKeepsValid(st: ReceiverState, msg: SenderMessage)
    requires st.Valid()
    ensures st.Receive(msg).Valid()
  {
    if !msg.rst && (st.isnReceived || msg.syn) {
      var isn' := if msg.syn then Unwrap(msg.seqno, 0, 0) else st.isn;
      InsertKeepsValid(st.reasm, st.stream, InsertIndex(msg, isn', st.stream.bytesPushed), msg.payload, msg.fin);
    }
  }

  /** RST sets the stream's error flag and changes nothing else. */
  lemma ReceiveReset(st: ReceiverState, msg: SenderMessage)
    requires st.Valid() && msg.rst
    ensures var r := st.Receive(msg);
      && r.stream.error && r.isn == st.isn && r.isnReceived == st.isnReceived && r.reasm == st.reasm
      && r.stream.buffer == st.stream.buffer && r.stream.closed == st.stream.closed
      && r.stream.bytesPushed == st.stream.bytesPushed && r.stream.bytesPopped == st.stream.bytesPopped
  {
  }

  /** SYN records the raw sequence number as the ISN and marks it received. */
  lemma ReceiveSyn(st: ReceiverState, msg: SenderMessage)
    requires st.Valid() && !msg.rst && msg.syn
    ensures st.Receive(msg).isn == msg.seqno && st.Receive(msg).isnReceived
  {
    UnwrapAtZero(msg.seqno);
  }

  /** Until a SYN has been seen every message is ignored. */
  lemma ReceiveBeforeSyn(st: ReceiverState, msg: SenderMessage)
    requires st.Valid() && !msg.rst && !msg.syn && !st.isnReceived
    ensures st.Receive(msg) == st
  {
  }

  /** Once the ISN is known, the payload goes to the reassembler at its stream index, with
      FIN as the last-substring flag. */
  lemma ReceiveInserts(st: ReceiverState, msg: SenderMessage)
    requires st.Valid() && !msg.rst && (st.isnReceived || msg.syn)
    ensures var isn := if msg.syn then msg.seqno else st.isn;
      var r := st.Receive(msg);
      && r.isn == isn && r.isnReceived
      && (r.reasm, r.stream) == st.reasm.Insert(st.stream, InsertIndex(msg, isn, st.stream.bytesPushed), msg.payload, msg.fin)
  {
    UnwrapAtZero(msg.seqno);
  }

  /** A FIN segment without SYN whose seqno is the ISN is inserted at index 2^64 - 1 (the
      wrapped seqno - 1), so last_index is recorded as the uint64_t sum 2^64 - 1 + 3 == 2.
      Once the two bytes before it arrive, now_index reaches 2 and the stream closes. */
  lemma WrappedFinCloses()
    ensures var st0 := NewReceiver(NewStream(10));
      var st1 := st0.Receive(SenderMessage(100, true, [], false, false));
      var st2 := st1.Receive(SenderMessage(100, false, [1, 2, 3], true, false));
      var st3 := st2.Receive(SenderMessage(101, false, [4, 5], false, false));
      && st2.reasm.lastIndex == 2 && !st2.stream.closed
      && st3.stream.closed && st3.stream.buffer == [4, 5]
  {
    var st0 := NewReceiver(NewStream(10));
    var st1 := st0.Receive(SenderMessage(100, true, [], false, false));
    assert Unwrap(100, 0, 0) == 100;
    assert Unwrap(100, 100, 1) == 0;
    assert st1 == st0.(isn := 100, isnReceived := true);
    var m2 := SenderMessage(100, false, [1, 2, 3], true, false);
    assert InsertIndex(m2, 100, 0) == MOD64 - 1;
    var st2 := st1.Receive(m2);
    assert st2 == st1.(reasm := st1.reasm.(lastIndex := 2));
    var m3 := SenderMessage(101, false, [4, 5], false, false);
    assert Unwrap(101, 100, 1) == 1;
    assert InsertIndex(m3, 100, 0) == 0;
    var st3 := st2.Receive(m3);
    var piece := InOrderPiece(st2.reasm, 10, 0, [4, 5]);
    assert piece == [4, 5];
  }

  /** The acknowledgement number is the wrap of bytes_pushed + 1, plus one more once the
      stream is closed (the FIN's sequence number). */
  lemma SendAckno(st: ReceiverState)
    requires st.Valid() && st.isnReceived
    ensures st.Send().ackno == Some(Wrap(st.stream.bytesPushed + 1 + (if st.stream.closed then 1 else 0), st.isn))
  {
    var n := st.stream.bytesPushed;
    var q := n / MOD32;
    assert n == q * MOD32 + n % MOD32;
    ModMultiple(st.isn + n % MOD32 + 1, q * MOD32);
    if st.stream.closed {
      ModMultiple(st.isn + n % MOD32 + 2, q * MOD32);
      var a := (st.isn + n % MOD32 + 1) % MOD32;
      ModMultiple(a + 1, ((st.isn + n % MOD32 + 1) / MOD32) * MOD32);
    }
  }

  /** The sender recovers the acknowledged absolute sequence number: unwrapping the ackno
      against the receiver's own checkpoint gives bytes_pushed + 1 (+ 1 once closed). */
  lemma AcknoRoundTrip(st: ReceiverState)
    requires st.Valid() && st.isnReceived && st.stream.bytesPushed + 2 < MOD64
    ensures var n := st.stream.bytesPushed + 1 + (if st.stream.closed then 1 else 0);
      Unwrap(st.Send().ackno.value, st.isn, st.stream.bytesPushed + 1) == n
  {
    SendAckno(st);
    var n := st.stream.bytesPushed + 1 + (if st.stream.closed then 1 else 0);
    UnwrapWrap(n, st.isn, st.stream.bytesPushed + 1);
  }

  /** The object form: the receiver owns its reassembler, which owns the output stream. */
  class TcpReceiver {
    const reassembler: Reassembler
    var isn: u32
    var isnReceived: bool

    function Model(): ReceiverState
      reads this, reassembler, reassembler.output
    {
      ReceiverState(isn, isnReceived, reassembler.Model(), reassembler.output.Model())
    }

    ghost predicate Valid()
      reads this, reassembler, reassembler.output
    {
      reassembler.Valid()
    }

    constructor (reassembler: Reassembler)
      requires reassembler.Valid() && reassembler.Model() == ReasmState(0, 0, [])
      ensures Valid() && this.reassembler == reassembler && Model() == NewReceiver(reassembler.output.Model())
    {
      this.reassembler := reassembler;
      isn, isnReceived := 0, false;
    }

    /** TCPReceiver::receive. */
    method Receive(msg: SenderMessage)
      requires Valid()
      modifies this, reassembler, reassembler.output
      ensures Valid() && Model() == old(Model()).Receive(msg)
    {
      ghost var st0 := Model();
      ReceiveKeepsValid(st0, msg);
      if msg.rst {
        reassembler.output.SetError();
        return;
      }
      if msg.syn {
        isn := Unwrap(msg.seqno, 0, 0);
        isnReceived := true;
      }
      if !isnReceived {
        return;
      }
      ghost var res := st0.reasm.Insert(st0.stream, InsertIndex(msg, isn, st0.stream.bytesPushed), msg.payload, msg.fin);
      assert st0.Receive(msg) == ReceiverState(isn, true, res.0, res.1);
      InsertPayload(msg);
    }

    /** The end of receive: unwrap the sequence number against bytes_pushed + 1, step over
        SYN, and insert the payload one index lower. */
    method InsertPayload(msg: SenderMessage)
      requires Valid()
      modifies reassembler, reassembler.output
      ensures Valid()
      ensures (reassembler.Model(), reassembler.output.Model()) == old(reassembler.Model()).Insert(
        old(reassembler.output.Model()), InsertIndex(msg, isn, old(reassembler.output.Model()).bytesPushed),
        msg.payload, msg.fin)
    {
      var seqno := Unwrap(msg.seqno, isn, U64(reassembler.output.BytesPushed() + 1));
      if msg.syn {
        seqno := U64(seqno + 1);
      }
      assert U64(seqno + MOD64 - 1) == InsertIndex(msg, isn, reassembler.output.Model().bytesPushed);
      reassembler.Insert(U64(seqno + MOD64 - 1), msg.payload, msg.fin);
    }

    /** TCPReceiver::send. */
    function Send(): (m: ReceiverMessage)
      reads this, reassembler, reassembler.output
      requires Valid()
      ensures m == Model().Send()
    {
      var ackno := if isnReceived then
          var a := (isn + reassembler.output.BytesPushed() % MOD32 + 1) % MOD32;
          Some(if reassembler.output.IsClosed() then (a + 1) % MOD32 else a)
        else None;
      var avail := reassembler.output.AvailableCapacity();
      ReceiverMessage(ackno, if avail > U16_MAX then U16_MAX else avail, reassembler.output.HasError())
    }
  }
}
