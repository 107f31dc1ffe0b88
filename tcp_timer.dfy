/** Timer (src/tcp_sender.hh, src/tcp_sender.cc): the sender's outstanding messages, keyed
    by the absolute sequence number of their first byte, with a retransmission timeout that
    doubles on each retransmission (loosely section 5 of RFC 6298) and a clock advanced by
    tick. */
module TcpTimers {
  import opened Common
  import opened OrderedMaps
  import opened Wrap32
  import opened TcpMessages

  /** One outstanding message and the absolute sequence number it starts at. */
  type Outstanding = Entry<SenderMessage>

  /** One past the last sequence number an outstanding message occupies. */
  function EndOf(e: Outstanding): nat
  {
    e.key + e.value.SequenceLength()
  }

  /** The sum of the sequence lengths of the outstanding messages (get_num). */
  function InFlight(es: seq<Outstanding>): (n: nat)
    ensures forall i :: 0 <= i < |es| ==> es[i].value.SequenceLength() <= n
  {
    if es == [] then 0 else es[0].value.SequenceLength() + InFlight(es[1..])
  }

  /** The number of sequence numbers in flight splits over a split of the map. */
  lemma {:induction false} InFlightAppend(a: seq<Outstanding>, b: seq<Outstanding>)
    ensures InFlight(a + b) == InFlight(a) + InFlight(b)
  {
    if a != [] {
      assert (a + b)[0] == a[0] && (a + b)[1..] == a[1..] + b;
      InFlightAppend(a[1..], b);
    } else {
      assert a + b == b;
    }
  }

  /** The keys of the map ascend from each entry to the next: the same as Sorted (see
      AscendingSorted), stated one step at a time. */
  ghost predicate Ascending(es: seq<Outstanding>)
    decreases |es|
  {
    |es| >= 2 ==> es[0].key < es[1].key && Ascending(es[1..])
  }

  lemma {:induction false} AscendingSorted(es: seq<Outstanding>)
    ensures Ascending(es) <==> Sorted(es)
    decreases |es|
  {
    if |es| >= 2 {
      AscendingSorted(es[1..]);
      if Ascending(es) {
        forall i, j | 0 <= i < j < |es|
          ensures es[i].key < es[j].key
        {
          if i == 0 {
            if j > 1 {
              assert es[1..][0] == es[1] && es[1..][j - 1] == es[j];
            }
          } else {
            assert es[1..][i - 1] == es[i] && es[1..][j - 1] == es[j];
          }
        }
      }
      if Sorted(es) {
        SortedTail(es);
        assert es[1..][0] == es[1];
      }
    } else {
      assert Sorted(es);
    }
  }

  /** The state of a Timer: message_, RTO_ms, retransmission_count, is_started, start_time,
      live_time and init_RTO. */
  datatype TimerState = TimerState(
    messages: seq<Outstanding>,
    rto: nat,
    retransmissionCount: nat,
    started: bool,
    startTime: nat,
    liveTime: nat,
    initRto: nat)
  {
    /** The map is ordered, a running timer has something outstanding, and the clock never
        runs behind the time the timer was started. */
    ghost predicate Valid()
    {
      Ascending(messages) && (started ==> messages != []) && startTime <= liveTime
    }

    /** Timer::start. */
    function Start(rto': nat): (t: TimerState)
      ensures t.started && t.rto == rto' && t.startTime == liveTime
      ensures t.messages == messages && t.liveTime == liveTime && t.initRto == initRto
      ensures t.retransmissionCount == retransmissionCount
    {
      this.(rto := rto', started := true, startTime := liveTime)
    }

    /** Timer::add_message: store the message at seqno (overwriting), remember the RTO as
        init_RTO, and start the timer unless it is running. */
    function AddMessage(seqno: nat, msg: SenderMessage, rto': nat): (t': TimerState)
      ensures t'.started && t'.initRto == rto' && Keys(t'.messages) == Keys(messages) + {seqno}
      ensures t'.liveTime == liveTime && t'.retransmissionCount == retransmissionCount
      ensures started ==> t'.rto == rto && t'.startTime == startTime
    {
      PutKeys(messages, seqno, msg);
      var t := this.(messages := Put(messages, seqno, msg), initRto := rto');
      if !started then t.Start(rto') else t
    }

    /** Timer::remove_ack_msg: erase the leading messages that end at or before ackno,
        resetting the count, the RTO and the start time at each erasure; return the end of
        the first message still outstanding, or ackno, and stop the timer once nothing is
        outstanding. */
    function RemoveAck(ackno: nat): (res: (TimerState, nat))
      ensures |res.0.messages| <= |messages|
      decreases |messages|
    {
      if messages == [] then
        (this.(started := false, retransmissionCount := 0, rto := initRto), ackno)
      else if EndOf(messages[0]) <= ackno then
        this.(messages := messages[1..], retransmissionCount := 0, rto := initRto, startTime := liveTime).RemoveAck(ackno)
      else (this, EndOf(messages[0]))
    }

    /** Timer::tick: advance the clock; once a running timer has run for RTO, retransmit
        the oldest outstanding message, back off (double the RTO and count the
        retransmission) unless the window is zero, and restart. */
    function Tick(ms: nat, windowFull: bool): (res: (TimerState, seq<SenderMessage>))
      requires Valid()
      ensures res.0.liveTime == liveTime + ms && res.0.messages == messages
      ensures |res.1| <= 1 && (res.1 != [] ==> messages != [] && res.1[0] == messages[0].value)
    {
      var live := liveTime + ms;
      if !started then (this.(liveTime := live), [])
      else if live - startTime >= rto then
        var rto' := if windowFull then rto else rto * 2;
        var count := if windowFull then retransmissionCount else retransmissionCount + 1;
        (this.(liveTime := live, rto := rto', retransmissionCount := count).Start(rto'), [messages[0].value])
      else (this.(liveTime := live), [])
    }
  }

  /** A new Timer: nothing outstanding, not started, clock at 0, no retransmissions. */
  function NewTimer(): (t: TimerState)
    ensures t.Valid() && t.messages == [] && !t.started && t.liveTime == 0 && t.retransmissionCount == 0
  {
    TimerState([], 0, 0, false, 0, 0, 0)
  }

  /** add_message keeps the invariant, makes the message outstanding at seqno, records the
      RTO, and leaves a running timer's start time and RTO alone. */
  lemma AddMessageSpec(t: TimerState, seqno: nat, msg: SenderMessage, rto: nat)
    requires t.Valid()
    ensures var t' := t.AddMessage(seqno, msg, rto);
      && t'.Valid() && t'.started && t'.initRto == rto
      && Find(t'.messages, seqno) == Some(msg)
      && Keys(t'.messages) == Keys(t.messages) + {seqno}
      && t'.liveTime == t.liveTime && t'.retransmissionCount == t.retransmissionCount
      && (t.started ==> t'.startTime == t.startTime && t'.rto == t.rto)
      && (!t.started ==> t'.startTime == t.liveTime && t'.rto == rto)
  {
    AscendingSorted(t.messages);
    var put := Put(t.messages, seqno, msg);
    PutSorted(t.messages, seqno, msg);
    PutKeys(t.messages, seqno, msg);
    AscendingSorted(put);
    FindPut(t.messages, seqno, msg, seqno);
    KeysIndex(put);
    assert put[0].key in Keys(put);
  }

  /** The part of AddMessageSpec that a run of additions needs. */
  lemma AddMessageValid(t: TimerState, seqno: nat, msg: SenderMessage, rto: nat)
    requires t.Valid()
    ensures t.AddMessage(seqno, msg, rto).Valid() && t.AddMessage(seqno, msg, rto).messages != []
  {
    AddMessageSpec(t, seqno, msg, rto);
  }

  /** Adding a message at a sequence number beyond every outstanding one adds its sequence
      length to the number in flight. */
  lemma AddMessageInFlight(t: TimerState, seqno: nat, msg: SenderMessage, rto: nat)
    requires t.Valid()
    requires forall i :: 0 <= i < |t.messages| ==> t.messages[i].key < seqno
    ensures InFlight(t.AddMessage(seqno, msg, rto).messages) == InFlight(t.messages) + msg.SequenceLength()
  {
    AscendingSorted(t.messages);
    PutAtEnd(t.messages, seqno, msg);
    InFlightAppend(t.messages, [Entry(seqno, msg)]);
  }

  lemma {:induction false} PutAtEnd(es: seq<Outstanding>, k: nat, v: SenderMessage)
    requires Sorted(es) && forall i :: 0 <= i < |es| ==> es[i].key < k
    ensures Put(es, k, v) == es + [Entry(k, v)]
  {
    if es != [] {
      SortedTail(es);
      PutAtEnd(es[1..], k, v);
      assert [es[0]] + (es[1..] + [Entry(k, v)]) == es + [Entry(k, v)];
    }
  }

  /** remove_ack_msg erases exactly a prefix of the map: every erased message ends at or
      before ackno, the first one kept does not, and the value returned is the end of that
      first kept message, or ackno when none is kept. */
  lemma {:induction false} RemoveAckErasesPrefix(t: TimerState, ackno: nat)
    ensures var (t', r) := t.RemoveAck(ackno);
      var k := |t.messages| - |t'.messages|;
      && t'.messages == t.messages[k..]
      && (forall i :: 0 <= i < k ==> EndOf(t.messages[i]) <= ackno)
      && (t'.messages != [] ==> EndOf(t'.messages[0]) > ackno && r == EndOf(t'.messages[0]))
      && (t'.messages == [] ==> r == ackno)
    decreases |t.messages|
  {
    if t.messages != [] && EndOf(t.messages[0]) <= ackno {
      var t1 := t.(messages := t.messages[1..], retransmissionCount := 0, rto := t.initRto, startTime := t.liveTime);
      RemoveAckErasesPrefix(t1, ackno);
      var k := |t.messages| - |t.RemoveAck(ackno).0.messages|;
      assert t.messages[1..][k - 1..] == t.messages[k..];
      forall i | 0 <= i < k
        ensures EndOf(t.messages[i]) <= ackno
      {
        if i > 0 {
          assert t.messages[i] == t.messages[1..][i - 1];
        }
      }
    }
  }

  /** remove_ack_msg's effect on the timer fields: the clock and init_RTO never change; an
      erasure resets the retransmission count, the RTO and the start time; an emptied map
      stops the timer; nothing erased from a non-empty map leaves the timer as it was. */
  lemma {:induction false} RemoveAckResets(t: TimerState, ackno: nat)
    ensures var t' := t.RemoveAck(ackno).0;
      && t'.liveTime == t.liveTime && t'.initRto == t.initRto
      && (|t'.messages| < |t.messages| ==>
            t'.retransmissionCount == 0 && t'.rto == t.initRto && t'.startTime == t.liveTime)
      && (t'.messages == [] ==> !t'.started && t'.retransmissionCount == 0 && t'.rto == t.initRto)
      && (t'.messages != [] ==> t'.started == t.started)
      && (|t'.messages| == |t.messages| ==> t'.startTime == t.startTime)
      && (|t'.messages| == |t.messages| && t.messages != [] ==> t' == t)
    decreases |t.messages|
  {
    if t.messages != [] && EndOf(t.messages[0]) <= ackno {
      var t1 := t.(messages := t.messages[1..], retransmissionCount := 0, rto := t.initRto, startTime := t.liveTime);
      RemoveAckResets(t1, ackno);
    }
  }

  /** remove_ack_msg keeps the timer's invariant: in particular a timer still running has
      something outstanding. */
  lemma RemoveAckValid(t: TimerState, ackno: nat)
    requires t.Valid()
    ensures t.RemoveAck(ackno).0.Valid()
  {
    RemoveAckErasesPrefix(t, ackno);
    RemoveAckResets(t, ackno);
    var k := |t.messages| - |t.RemoveAck(ackno).0.messages|;
    AscendingSorted(t.messages);
    SortedSlice(t.messages, k);
    AscendingSorted(t.messages[k..]);
  }

  lemma SortedSlice(es: seq<Outstanding>, k: nat)
    requires Sorted(es) && k <= |es|
    ensures Sorted(es[k..])
  {
    forall a, b | 0 <= a < b < |es| - k
      ensures es[k..][a].key < es[k..][b].key
    {
      assert es[k..][a] == es[k + a] && es[k..][b] == es[k + b];
    }
  }

  /** tick always advances the clock by exactly ms; it retransmits the oldest outstanding
      message exactly when the timer is running and has run for at least RTO; the RTO
      doubles and the count grows only when the window is not full, and the timer restarts
      at the new time. */
  lemma TickSpec(t: TimerState, ms: nat, windowFull: bool)
    requires t.Valid()
    ensures var (t', sent) := t.Tick(ms, windowFull);
      var fires := t.started && t.liveTime + ms - t.startTime >= t.rto;
      && t'.Valid()
      && t'.liveTime == t.liveTime + ms
      && t'.messages == t.messages && t'.started == t.started && t'.initRto == t.initRto
      && (fires ==> sent == [t.messages[0].value] && t'.startTime == t'.liveTime)
      && (fires && !windowFull ==> t'.rto == 2 * t.rto && t'.retransmissionCount == t.retransmissionCount + 1)
      && (fires && windowFull ==> t'.rto == t.rto && t'.retransmissionCount == t.retransmissionCount)
      && (!fires ==> sent == [] && t'.rto == t.rto && t'.startTime == t.startTime)
      && (!fires ==> t'.retransmissionCount == t.retransmissionCount)
  {
  }

  /** The object form of Timer. */
  class Timer {
    var messages: seq<Outstanding>
    const isn: u32
    var rto: nat
    var retransmissionCount: nat
    var started: bool
    var startTime: nat
    var liveTime: nat
    var initRto: nat

    function Model(): TimerState
      reads this
    {
      TimerState(messages, rto, retransmissionCount, started, startTime, liveTime, initRto)
    }

    ghost predicate Valid()
      reads this
    {
      Model().Valid()
    }

    constructor (isn: u32)
      ensures Valid() && Model() == NewTimer()
    {
      this.isn := isn;
      messages, rto, retransmissionCount, started, startTime, liveTime, initRto := [], 0, 0, false, 0, 0, 0;
    }

    /** Timer::start. */
    method Start(rto': nat)
      modifies this
      ensures Model() == old(Model()).Start(rto')
    {
      rto := rto';
      started := true;
      startTime := liveTime;
    }

    /** Timer::have_started. */
    function HaveStarted(): (b: bool)
      reads this
      requires Valid()
      ensures b == Model().started
      ensures b ==> messages != []
    {
      started
    }

    /** Timer::get_retransmission_count. */
    function GetRetransmissionCount(): (n: nat)
      reads this
      ensures n == Model().retransmissionCount
    {
      retransmissionCount
    }

    /** Timer::add_message. */
    method AddMessage(seqno: nat, msg: SenderMessage, rto': nat)
      requires Valid()
      modifies this
      ensures Valid() && Model() == old(Model()).AddMessage(seqno, msg, rto')
    {
      AddMessageSpec(Model(), seqno, msg, rto');
      messages := Put(messages, seqno, msg);
      initRto := rto';
      if !started {
        Start(rto');
      }
    }

    /** Timer::get_num: sum the sequence lengths over the map. */
    method GetNum() returns (sum: nat)
      ensures sum == InFlight(messages)
    {
      sum := 0;
      var i := 0;
      while i < |messages|
        invariant i <= |messages|
        invariant sum + InFlight(messages[i..]) == InFlight(messages)
        decreases |messages| - i
      {
        assert messages[i..][1..] == messages[i + 1..];
        sum := sum + messages[i].value.SequenceLength();
        i := i + 1;
      }
    }

    /** Timer::remove_ack_msg. */
    method RemoveAckMsg(ackno: nat) returns (r: nat)
      requires Valid()
      modifies this
      ensures Valid() && (Model(), r) == old(Model()).RemoveAck(ackno)
    {
      RemoveAckValid(Model(), ackno);
      while messages != []
        invariant Model().RemoveAck(ackno) == old(Model()).RemoveAck(ackno)
        decreases |messages|
      {
        if EndOf(messages[0]) <= ackno {
          messages := messages[1..];
          retransmissionCount := 0;
          rto := initRto;
          startTime := liveTime;
        } else {
          return EndOf(messages[0]);
        }
      }
      started := false;
      retransmissionCount := 0;
      rto := initRto;
      return ackno;
    }

    /** Timer::tick; the retransmitted message, if any, is returned. */
    method Tick(ms: nat, windowFull: bool) returns (sent: seq<SenderMessage>)
      requires Valid()
      modifies this
      ensures Valid() && (Model(), sent) == old(Model()).Tick(ms, windowFull)
    {
      TickSpec(Model(), ms, windowFull);
      liveTime := liveTime + ms;
      if !started {
        return [];
      }
      if liveTime - startTime >= rto {
        sent := [messages[0].value];
        if !windowFull {
          retransmissionCount := retransmissionCount + 1;
          rto := rto * 2;
        }
        Start(rto);
      } else {
        sent := [];
      }
    }
  }
}
