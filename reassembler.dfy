/** Reassembler (src/reassembler.cc): byte ranges tagged with absolute offsets arrive in any
    order, possibly overlapping; the contiguous prefix is written into a ByteStream and the
    rest is kept in an ordered map from offset to bytes (buffer_data), coalesced so that no
    two stored ranges overlap or touch. */
module Reassembly {
  import opened Common
  import opened OrderedMaps
  import opened ByteStreams
  import opened Wrap32

  /** One entry of buffer_data: the bytes stored from offset key on. */
  type Chunk = Entry<seq<byte>>

  /** One past the last offset a chunk covers. */
  function End(c: Chunk): nat
  {
    c.key + |c.value|
  }

  /** Consecutive chunks neither overlap nor touch. */
  ghost predicate Separated(cs: seq<Chunk>)
  {
    forall i, j :: 0 <= i < j < |cs| && j == i + 1 ==> End(cs[i]) < cs[j].key
  }

  /** Offset k lies inside some chunk. */
  ghost predicate Covers(cs: seq<Chunk>, k: nat)
  {
    exists i :: 0 <= i < |cs| && cs[i].key <= k < End(cs[i])
  }

  /** Some chunk holds byte b at offset k. */
  ghost predicate HoldsAt(cs: seq<Chunk>, k: nat, b: byte)
  {
    exists i :: 0 <= i < |cs| && cs[i].key <= k < End(cs[i]) && cs[i].value[k - cs[i].key] == b
  }

  /** std::string::substr(pos, count): at most count characters from pos on. */
  function Substr(s: seq<byte>, pos: nat, count: nat): (r: seq<byte>)
    requires pos <= |s|
    ensures |r| == Min(count, |s| - pos) && r == s[pos..pos + |r|]
  {
    s[pos..pos + Min(count, |s| - pos)]
  }

  // ----- merge -----

  /** merge's step on neighbours that overlap or touch: the first is extended by the part
      of the second that lies beyond it, and keeps its own bytes where they overlap. */
  function Join(a: Chunk, b: Chunk): (c: Chunk)
    requires a.key <= b.key <= End(a)
    ensures c.key == a.key && End(c) == if End(a) < End(b) then End(b) else End(a)
  {
    if End(a) < End(b) then Entry(a.key, a.value + b.value[End(a) - b.key..]) else a
  }

  lemma CoversCons(c: Chunk, rest: seq<Chunk>, k: nat)
    ensures Covers([c] + rest, k) <==> (c.key <= k < End(c)) || Covers(rest, k)
  {
    var cs := [c] + rest;
    assert cs[0] == c;
    if Covers(rest, k) {
      var i :| 0 <= i < |rest| && rest[i].key <= k < End(rest[i]);
      assert cs[i + 1] == rest[i];
    }
    if Covers(cs, k) {
      var i :| 0 <= i < |cs| && cs[i].key <= k < End(cs[i]);
      if i > 0 {
        assert rest[i - 1] == cs[i];
      }
    }
  }

  lemma HoldsAtCons(c: Chunk, rest: seq<Chunk>, k: nat, b: byte)
    ensures HoldsAt([c] + rest, k, b) <==>
      (c.key <= k < End(c) && c.value[k - c.key] == b) || HoldsAt(rest, k, b)
  {
    var cs := [c] + rest;
    assert cs[0] == c;
    if HoldsAt(rest, k, b) {
      var i :| 0 <= i < |rest| && rest[i].key <= k < End(rest[i]) && rest[i].value[k - rest[i].key] == b;
      assert cs[i + 1] == rest[i];
    }
    if HoldsAt(cs, k, b) {
      var i :| 0 <= i < |cs| && cs[i].key <= k < End(cs[i]) && cs[i].value[k - cs[i].key] == b;
      if i > 0 {
        assert rest[i - 1] == cs[i];
      }
    }
  }

  /** Join covers exactly what its two arguments cover, and every byte it holds one of
      them held at the same offset. */
  lemma JoinPreserves(a: Chunk, b: Chunk, rest: seq<Chunk>)
    requires a.key <= b.key <= End(a)
    ensures forall k :: Covers([Join(a, b)] + rest, k) <==> Covers([a, b] + rest, k)
    ensures forall k, x :: HoldsAt([Join(a, b)] + rest, k, x) ==> HoldsAt([a, b] + rest, k, x)
  {
    var c := Join(a, b);
    assert [a, b] + rest == [a] + ([b] + rest);
    forall k
      ensures Covers([c] + rest, k) <==> Covers([a, b] + rest, k)
    {
      CoversCons(c, rest, k);
      CoversCons(a, [b] + rest, k);
      CoversCons(b, rest, k);
    }
    forall k: nat, x | HoldsAt([c] + rest, k, x)
      ensures HoldsAt([a, b] + rest, k, x)
    {
      HoldsAtCons(c, rest, k, x);
      HoldsAtCons(a, [b] + rest, k, x);
      HoldsAtCons(b, rest, k, x);
      if c.key <= k < End(c) && c.value[k - c.key] == x && End(a) <= k {
        assert c.value[k - c.key] == b.value[k - b.key];
      }
    }
  }

  /** What merge leaves in buffer_data: walking from the first entry, a chunk that
      overlaps or touches its successor absorbs it; otherwise the walk moves on. */
  function Coalesce(cs: seq<Chunk>): (r: seq<Chunk>)
    requires Sorted(cs)
    ensures Sorted(r) && Separated(r)
    ensures |cs| > 0 ==> |r| > 0 && r[0].key == cs[0].key
    decreases |cs|
  {
    if |cs| <= 1 then cs
    else if End(cs[0]) >= cs[1].key then
      Coalesce([Join(cs[0], cs[1])] + cs[2..])
    else
      var rest := Coalesce(cs[1..]);
      var r := [cs[0]] + rest;
      assert r[1..] == rest;
      r
  }

  /** merge changes neither the set of covered offsets nor any stored byte: it only
      rearranges which entry holds them. */
  lemma {:induction false} CoalescePreserves(cs: seq<Chunk>)
    requires Sorted(cs)
    ensures forall k :: Covers(Coalesce(cs), k) <==> Covers(cs, k)
    ensures forall k, b :: HoldsAt(Coalesce(cs), k, b) ==> HoldsAt(cs, k, b)
    decreases |cs|
  {
    if |cs| <= 1 {
    } else if End(cs[0]) >= cs[1].key {
      var joined := [Join(cs[0], cs[1])] + cs[2..];
      CoalescePreserves(joined);
      JoinPreserves(cs[0], cs[1], cs[2..]);
      assert [cs[0], cs[1]] + cs[2..] == cs;
    } else {
      var rest := Coalesce(cs[1..]);
      CoalescePreserves(cs[1..]);
      assert [cs[0]] + cs[1..] == cs;
      forall k
        ensures Covers([cs[0]] + rest, k) <==> Covers(cs, k)
      {
        CoversCons(cs[0], rest, k);
        CoversCons(cs[0], cs[1..], k);
      }
      forall k: nat, b | HoldsAt([cs[0]] + rest, k, b)
        ensures HoldsAt(cs, k, b)
      {
        HoldsAtCons(cs[0], rest, k, b);
        HoldsAtCons(cs[0], cs[1..], k, b);
      }
    }
  }

  // ----- insert -----

  /** The loop of insert that follows an in-order write: from the first entry on, an entry
      ending at or before now is erased, an entry reaching past now has its part beyond now
      pushed (and now moves to its end) and is erased, and the first entry starting after
      now stops the walk.  Returns the new now, the entries left and the bytes pushed. */
  function Drain(cs: seq<Chunk>, now: nat): (r: (nat, seq<Chunk>, seq<byte>))
    ensures r.0 == now + |r.2| && |r.1| <= |cs|
    decreases |cs|
  {
    if cs == [] then (now, cs, [])
    else if End(cs[0]) <= now then Drain(cs[1..], now)
    else if cs[0].key <= now then
      var piece := cs[0].value[now - cs[0].key..];
      var r := Drain(cs[1..], now + |piece|);
      (r.0, r.1, piece + r.2)
    else (now, cs, [])
  }

  /** A drain keeps a suffix of buffer_data whose first entry starts after the new now,
      erases only entries that end at or before the new now (so no stored byte beyond it is
      lost), and every byte it delivers at offset now + p is the byte stored for that
      offset. */
  lemma DrainFacts(cs: seq<Chunk>, now: nat)
    ensures var r := Drain(cs, now);
      && r.1 == cs[|cs| - |r.1|..]
      && (r.1 != [] ==> r.1[0].key > r.0)
      && (forall i :: 0 <= i < |cs| - |r.1| ==> End(cs[i]) <= r.0)
      && forall p :: 0 <= p < |r.2| ==> HoldsAt(cs, now + p, r.2[p])
  {
    DrainRest(cs, now);
    DrainConsumed(cs, now);
    DrainHolds(cs, now);
  }

  lemma {:induction false} DrainConsumed(cs: seq<Chunk>, now: nat)
    ensures var r := Drain(cs, now);
      forall i :: 0 <= i < |cs| - |r.1| ==> End(cs[i]) <= r.0
    decreases |cs|
  {
    if cs != [] && cs[0].key <= now {
      var now' := if End(cs[0]) <= now then now else End(cs[0]);
      var r := Drain(cs[1..], now');
      assert Drain(cs, now).0 == r.0 && Drain(cs, now).1 == r.1;
      DrainConsumed(cs[1..], now');
      forall i | 1 <= i < |cs| - |r.1|
        ensures End(cs[i]) <= r.0
      {
        assert cs[i] == cs[1..][i - 1];
      }
    }
  }

  lemma {:induction false} DrainRest(cs: seq<Chunk>, now: nat)
    ensures var r := Drain(cs, now);
      && r.1 == cs[|cs| - |r.1|..]
      && (r.1 != [] ==> r.1[0].key > r.0)
    decreases |cs|
  {
    if cs != [] && cs[0].key <= now {
      var now' := if End(cs[0]) <= now then now else End(cs[0]);
      var r := Drain(cs[1..], now');
      assert Drain(cs, now).0 == r.0 && Drain(cs, now).1 == r.1;
      DrainRest(cs[1..], now');
      assert cs[1..][|cs[1..]| - |r.1|..] == cs[|cs| - |r.1|..];
    }
  }

  lemma {:induction false} DrainHolds(cs: seq<Chunk>, now: nat)
    ensures forall p :: 0 <= p < |Drain(cs, now).2| ==> HoldsAt(cs, now + p, Drain(cs, now).2[p])
    decreases |cs|
  {
    if cs == [] {
    } else if End(cs[0]) <= now {
      var r := Drain(cs[1..], now);
      assert Drain(cs, now) == r;
      DrainHolds(cs[1..], now);
      forall p | 0 <= p < |r.2|
        ensures HoldsAt(cs, now + p, r.2[p])
      {
        HoldsAtCons(cs[0], cs[1..], now + p, r.2[p]);
        assert [cs[0]] + cs[1..] == cs;
      }
    } else if cs[0].key <= now {
      var piece := cs[0].value[now - cs[0].key..];
      var r := Drain(cs[1..], now + |piece|);
      assert Drain(cs, now).2 == piece + r.2;
      DrainHolds(cs[1..], now + |piece|);
      forall p | 0 <= p < |piece| + |r.2|
        ensures HoldsAt(cs, now + p, (piece + r.2)[p])
      {
        HoldsAtCons(cs[0], cs[1..], now + p, (piece + r.2)[p]);
        assert [cs[0]] + cs[1..] == cs;
        if p >= |piece| {
          assert (piece + r.2)[p] == r.2[p - |piece|];
          assert now + p == now + |piece| + (p - |piece|);
        }
      }
    }
  }

  /** One step of the drain loop that pushes the part of the first entry from now on. */
  lemma DrainPushStep(c0: seq<Chunk>, n0: nat, cs: seq<Chunk>, now: nat, pushed: seq<byte>, piece: seq<byte>)
    requires cs != [] && cs[0].key <= now < End(cs[0])
    requires piece == Substr(cs[0].value, now - cs[0].key, |cs[0].value|)
    requires Drain(c0, n0) == Prepended(pushed, Drain(cs, now))
    ensures Drain(c0, n0) == Prepended(pushed + piece, Drain(cs[1..], now + |piece|))
  {
    assert piece == cs[0].value[now - cs[0].key..];
    var rest := Drain(cs[1..], now + |piece|);
    assert Drain(cs, now) == (rest.0, rest.1, piece + rest.2);
    assert pushed + (piece + rest.2) == (pushed + piece) + rest.2;
  }

  /** The invariant of merge's walk: entries before i are final, and coalescing the rest
      yields what coalescing the original would. */
  ghost predicate MergeInv(c0: seq<Chunk>, cs: seq<Chunk>, i: nat)
  {
    Sorted(c0) && i <= |cs| && Sorted(cs[i..])
    && Coalesce(c0) == cs[..i] + Coalesce(cs[i..])
  }

  /** merge's walk starts with nothing final. */
  lemma MergeStart(cs: seq<Chunk>)
    requires Sorted(cs)
    ensures MergeInv(cs, cs, 0)
  {
    assert cs[..0] + cs[0..] == cs && cs[0..] == cs;
  }

  /** Once at most one entry is left to visit, merge's walk has coalesced everything. */
  lemma MergeDone(c0: seq<Chunk>, cs: seq<Chunk>, i: nat)
    requires MergeInv(c0, cs, i) && |cs| <= i + 1
    ensures cs == Coalesce(c0)
  {
    if i < |cs| {
      assert cs[i..] == [cs[i]];
      assert cs[..i] + cs[i..] == cs;
    } else {
      assert cs[i..] == [];
      assert cs[..i] == cs;
    }
  }

  lemma SortedSlice(cs: seq<Chunk>, i: nat)
    requires Sorted(cs) && i <= |cs|
    ensures Sorted(cs[i..])
  {
    forall a, b | 0 <= a < b < |cs| - i
      ensures cs[i..][a].key < cs[i..][b].key
    {
      assert cs[i..][a] == cs[i + a] && cs[i..][b] == cs[i + b];
    }
  }

  /** Coalescing a sequence whose first entry reaches its second. */
  lemma CoalesceJoin(t: seq<Chunk>, grown: Chunk)
    requires Sorted(t) && |t| > 1 && End(t[0]) >= t[1].key && grown == Join(t[0], t[1])
    ensures Sorted([grown] + t[2..]) && Coalesce(t) == Coalesce([grown] + t[2..])
  {
    var t' := [grown] + t[2..];
    forall a, b | 0 <= a < b < |t'|
      ensures t'[a].key < t'[b].key
    {
      assert t'[b] == t[b + 1];
      if a > 0 { assert t'[a] == t[a + 1]; }
    }
  }

  /** Coalescing a sequence whose first entry stops short of its second. */
  lemma CoalesceKeep(t: seq<Chunk>)
    requires Sorted(t) && |t| > 1 && End(t[0]) < t[1].key
    ensures Sorted(t[1..]) && Coalesce(t) == [t[0]] + Coalesce(t[1..])
  {
    SortedSlice(t, 1);
  }

  /** One step of merge that absorbs entry i + 1 into entry i (grown is entry i after the
      in-place append) keeps the walk's invariant. */
  lemma JoinStep(c0: seq<Chunk>, cs: seq<Chunk>, i: nat, grown: Chunk)
    requires MergeInv(c0, cs, i) && i + 1 < |cs| && End(cs[i]) >= cs[i + 1].key
    requires grown == if End(cs[i]) < End(cs[i + 1])
      then Entry(cs[i].key, cs[i].value + cs[i + 1].value[End(cs[i]) - cs[i + 1].key..])
      else cs[i]
    ensures MergeInv(c0, cs[..i] + [grown] + cs[i + 2..], i)
  {
    var t := cs[i..];
    assert t[0] == cs[i] && t[1] == cs[i + 1] && t[2..] == cs[i + 2..];
    CoalesceJoin(t, grown);
    var cs' := cs[..i] + [grown] + cs[i + 2..];
    assert cs'[i..] == [grown] + t[2..];
    assert cs'[..i] == cs[..i];
  }

  /** One step of merge that leaves entry i alone and moves on keeps the walk's invariant. */
  lemma KeepStep(c0: seq<Chunk>, cs: seq<Chunk>, i: nat)
    requires MergeInv(c0, cs, i) && i + 1 < |cs| && End(cs[i]) < cs[i + 1].key
    ensures MergeInv(c0, cs, i + 1)
  {
    var t := cs[i..];
    assert t[0] == cs[i] && t[1] == cs[i + 1] && t[1..] == cs[i + 1..];
    CoalesceKeep(t);
    calc {
      Coalesce(c0);
      cs[..i] + Coalesce(t);
      cs[..i] + ([cs[i]] + Coalesce(cs[i + 1..]));
      { assert cs[..i + 1] == cs[..i] + [cs[i]]; }
      cs[..i + 1] + Coalesce(cs[i + 1..]);
    }
  }

  /** The entries a drain leaves still make a valid buffer_data for the new now_index. */
  lemma DrainValid(cs: seq<Chunk>, now: nat, last: nat)
    requires Sorted(cs) && Separated(cs)
    ensures var d := Drain(cs, now); ReasmState(d.0, last, d.1).Valid()
  {
    var d := Drain(cs, now);
    DrainFacts(cs, now);
    var k := |cs| - |d.1|;
    assert forall a :: 0 <= a < |d.1| ==> d.1[a] == cs[k + a];
    if d.1 != [] {
      assert forall a :: 0 <= a < |d.1| ==> d.1[0].key <= d.1[a].key;
    }
  }

  /** Storing a future range and merging keeps buffer_data valid. */
  lemma StoreValid(r: ReasmState, first: nat, stored: seq<byte>)
    requires r.Valid() && first > r.nowIndex
    ensures Sorted(Put(r.chunks, first, stored))
    ensures r.(chunks := Coalesce(Put(r.chunks, first, stored))).Valid()
  {
    PutSorted(r.chunks, first, stored);
    PutKeys(r.chunks, first, stored);
    var put := Put(r.chunks, first, stored);
    var merged := Coalesce(put);
    KeysIndex(put);
    assert put[0].key in Keys(put);
    assert merged[0].key > r.nowIndex;
  }

  /** The state of a Reassembler: now_index, last_index and buffer_data. */
  datatype ReasmState = ReasmState(nowIndex: nat, lastIndex: nat, chunks: seq<Chunk>)
  {
    /** buffer_data is ordered, its entries neither overlap nor touch, and every entry
        starts strictly after now_index. */
    ghost predicate Valid()
    {
      && Sorted(chunks)
      && Separated(chunks)
      && forall i :: 0 <= i < |chunks| ==> chunks[i].key > nowIndex
    }

    /** Reassembler::insert, on this state and the output stream's state.  last_index is a
        uint64_t and is assigned first_index + data.size() with wrap-around. */
    function Insert(s: StreamState, first: nat, data: seq<byte>, isLast: bool)
      : (res: (ReasmState, StreamState))
      requires Valid() && s.Valid()
      ensures res.1.Valid()
    {
      var r1 := if isLast then this.(lastIndex := U64(first + |data|)) else this;
      var avail := s.AvailableCapacity();
      if s.closed || avail == 0 then (r1, s)
      else if first <= r1.nowIndex then
        if first + |data| <= r1.nowIndex then
          if isLast then (r1.(nowIndex := 0, chunks := []), s.Close()) else (r1, s)
        else WriteInOrder(r1, s, avail, first, data)
      else (StoreFuture(r1, avail, first, data), s)
    }
  }

  /** The part of a range that the in-order branch takes, given the writer's available
      capacity as read at the top of insert: data.substr(now_index - first,
      min(size, available + now_index - first)). */
  function InOrderPiece(r: ReasmState, avail: nat, first: nat, data: seq<byte>): (piece: seq<byte>)
    requires first <= r.nowIndex < first + |data|
    ensures |piece| == Min(avail + (r.nowIndex - first), |data| - (r.nowIndex - first))
    ensures piece == data[r.nowIndex - first..r.nowIndex - first + |piece|]
  {
    Substr(data, r.nowIndex - first, Min(|data|, avail + (r.nowIndex - first)))
  }

  /** The part of insert for a range that starts at or before now_index and reaches past
      it: push the piece, advance now_index by the length of the piece, drain buffer_data,
      and close the stream once last_index is reached. */
  function WriteInOrder(r: ReasmState, s: StreamState, avail: nat, first: nat, data: seq<byte>)
    : (res: (ReasmState, StreamState))
    requires s.Valid()
    requires first <= r.nowIndex < first + |data|
    ensures res.1.Valid()
  {
    FinishWrite(r, s, InOrderPiece(r, avail, first, data))
  }

  /** The in-order branch once its piece is known. */
  function FinishWrite(r: ReasmState, s: StreamState, piece: seq<byte>): (res: (ReasmState, StreamState))
    requires s.Valid()
    ensures res.1.Valid()
  {
    var drained := Drain(r.chunks, r.nowIndex + |piece|);
    var s3 := s.Push(piece).Push(drained.2);
    if drained.0 == r.lastIndex then (ReasmState(0, 0, []), s3.Close())
    else (ReasmState(drained.0, r.lastIndex, drained.1), s3)
  }

  /** The part of insert for a range that starts after now_index, given the writer's
      available capacity: drop it beyond the window or when a stored range at the same
      offset is at least as long, otherwise store it cut to the window and merge. */
  function StoreFuture(r: ReasmState, avail: nat, first: nat, data: seq<byte>): (res: ReasmState)
    requires Sorted(r.chunks)
    requires first > r.nowIndex
    ensures res == r.(chunks := res.chunks)
  {
    if first >= r.nowIndex + avail then r
    else if Find(r.chunks, first).Some? && |Find(r.chunks, first).value| >= |data| then r
    else
      var stored := Substr(data, 0, Min(|data|, r.nowIndex + avail - first));
      PutSorted(r.chunks, first, stored);
      r.(chunks := Coalesce(Put(r.chunks, first, stored)))
  }

  /** The in-order branch leaves a valid state. */
  lemma WriteInOrderValid(r: ReasmState, s: StreamState, avail: nat, first: nat, data: seq<byte>)
    requires r.Valid() && s.Valid()
    requires first <= r.nowIndex < first + |data|
    ensures WriteInOrder(r, s, avail, first, data).0.Valid()
  {
    var piece := InOrderPiece(r, avail, first, data);
    DrainValid(r.chunks, r.nowIndex + |piece|, r.lastIndex);
  }

  /** The future branch leaves a valid state. */
  lemma StoreFutureValid(r: ReasmState, avail: nat, first: nat, data: seq<byte>)
    requires r.Valid()
    requires first > r.nowIndex
    ensures StoreFuture(r, avail, first, data).Valid()
  {
    if first < r.nowIndex + avail
      && !(Find(r.chunks, first).Some? && |Find(r.chunks, first).value| >= |data|) {
      StoreValid(r, first, Substr(data, 0, Min(|data|, r.nowIndex + avail - first)));
    }
  }

  /** insert keeps the reassembler's invariant: buffer_data stays ordered and separated
      and every stored range starts after now_index. */
  lemma InsertKeepsValid(r: ReasmState, s: StreamState, first: nat, data: seq<byte>, isLast: bool)
    requires r.Valid() && s.Valid()
    ensures r.Insert(s, first, data, isLast).0.Valid()
  {
    var r1 := if isLast then r.(lastIndex := U64(first + |data|)) else r;
    var avail := s.AvailableCapacity();
    if s.closed || avail == 0 {
    } else if first <= r1.nowIndex {
      if first + |data| > r1.nowIndex {
        assert r.Insert(s, first, data, isLast) == WriteInOrder(r1, s, avail, first, data);
        WriteInOrderValid(r1, s, avail, first, data);
      }
    } else {
      assert r.Insert(s, first, data, isLast) == (StoreFuture(r1, avail, first, data), s);
      StoreFutureValid(r1, avail, first, data);
    }
  }

  /** Reassembler::count_bytes_pending: the total length of the stored ranges. */
  function PendingBytes(cs: seq<Chunk>): (n: nat)
    ensures forall i :: 0 <= i < |cs| ==> |cs[i].value| <= n
    ensures n == 0 <==> forall i :: 0 <= i < |cs| ==> cs[i].value == []
  {
    if cs == [] then 0 else |cs[0].value| + PendingBytes(cs[1..])
  }

  /** The object form: the output stream it writes into and the fields of its state. */
  class Reassembler {
    const output: ByteStream
    var nowIndex: nat
    var lastIndex: nat
    var chunks: seq<Chunk>

    function Model(): ReasmState
      reads this
    {
      ReasmState(nowIndex, lastIndex, chunks)
    }

    ghost predicate Valid()
      reads this, output
    {
      output.Valid() && Model().Valid()
    }

    constructor (output: ByteStream)
      requires output.Valid()
      ensures Valid() && this.output == output && Model() == ReasmState(0, 0, [])
    {
      this.output := output;
      nowIndex, lastIndex, chunks := 0, 0, [];
    }

    /** merge: coalesce buffer_data in place, walking it once from the first entry. */
    method Merge()
      requires Sorted(chunks)
      modifies this`chunks
      ensures chunks == Coalesce(old(chunks))
    {
      var i := 0;
      MergeStart(chunks);
      while i < |chunks|
        invariant MergeInv(old(chunks), chunks, i)
        decreases |chunks| - i
      {
        if i + 1 < |chunks| {
          var cur, next := chunks[i], chunks[i + 1];
          if End(cur) >= next.key {
            var grown := cur;
            if End(cur) < End(next) {
              grown := Entry(cur.key, cur.value + next.value[End(cur) - next.key..]);
            }
            JoinStep(old(chunks), chunks, i, grown);
            chunks := chunks[..i] + [grown] + chunks[i + 2..];
          } else {
            KeepStep(old(chunks), chunks, i);
            i := i + 1;
          }
        } else {
          break;
        }
      }
      MergeDone(old(chunks), chunks, i);
    }

    /** The loop of insert after an in-order write: push what buffer_data holds from
        now_index on and erase the entries it has passed. */
    method DrainReady()
      requires output.Valid()
      modifies this`nowIndex, this`chunks, output
      ensures output.Valid()
      ensures var d := Drain(old(chunks), old(nowIndex));
        nowIndex == d.0 && chunks == d.1 && output.Model() == old(output.Model()).Push(d.2)
    {
      ghost var c0, n0, s0 := chunks, nowIndex, output.Model();
      ghost var pushed: seq<byte> := [];
      assert [] + Drain(c0, n0).2 == Drain(c0, n0).2;
      while chunks != []
        invariant output.Valid() && output.Model() == s0.Push(pushed)
        invariant Drain(c0, n0) == Prepended(pushed, Drain(chunks, nowIndex))
        decreases |chunks|
      {
        var c := chunks[0];
        if c.key + |c.value| <= nowIndex {
          assert Drain(chunks, nowIndex) == Drain(chunks[1..], nowIndex);
          chunks := chunks[1..];
        } else if c.key <= nowIndex {
          var piece := Substr(c.value, nowIndex - c.key, |c.value|);
          output.Push(piece);
          DrainPushStep(c0, n0, chunks, nowIndex, pushed, piece);
          PushAppend(s0, pushed, piece);
          pushed := pushed + piece;
          nowIndex := nowIndex + |piece|;
          chunks := chunks[1..];
        } else {
          break;
        }
      }
      assert pushed + [] == pushed;
    }

    /** The branch of insert for a range that starts at or before now_index and reaches
        past it. */
    method PushInOrder(first: nat, data: seq<byte>, avail: nat)
      requires output.Valid()
      requires first <= nowIndex < first + |data|
      modifies this, output
      ensures output.Valid()
      ensures (Model(), output.Model()) == WriteInOrder(old(Model()), old(output.Model()), avail, first, data)
    {
      ghost var r0, s0 := Model(), output.Model();
      var start := nowIndex - first;
      var piece := Substr(data, start, Min(|data|, avail + start));
      assert piece == InOrderPiece(r0, avail, first, data);
      ghost var expected := FinishWrite(r0, s0, piece);
      assert WriteInOrder(r0, s0, avail, first, data) == expected;
      output.Push(piece);
      nowIndex := nowIndex + |piece|;
      ghost var d := Drain(chunks, nowIndex);
      DrainReady();
      ghost var s3 := s0.Push(piece).Push(d.2);
      assert Model() == ReasmState(d.0, r0.lastIndex, d.1) && output.Model() == s3;
      CloseIfDone();
      if d.0 == r0.lastIndex {
        assert (Model(), output.Model()) == (ReasmState(0, 0, []), s3.Close()) == expected;
      } else {
        assert (Model(), output.Model()) == (ReasmState(d.0, r0.lastIndex, d.1), s3) == expected;
      }
    }

    /** The end of insert's in-order branch: once now_index reaches last_index the output
        is closed and the reassembler's state is reset. */
    method CloseIfDone()
      requires output.Valid()
      modifies this`nowIndex, this`lastIndex, this`chunks, output
      ensures output.Valid()
      ensures old(nowIndex == lastIndex) ==>
        Model() == ReasmState(0, 0, []) && output.Model() == old(output.Model()).Close()
      ensures old(nowIndex != lastIndex) ==>
        Model() == old(Model()) && output.Model() == old(output.Model())
    {
      if nowIndex == lastIndex {
        output.Close();
        nowIndex, lastIndex, chunks := 0, 0, [];
      }
    }

    /** The branch of insert for a range that starts after now_index. */
    method StoreAhead(first: nat, data: seq<byte>, avail: nat)
      requires Sorted(chunks)
      requires first > nowIndex
      modifies this`chunks
      ensures Model() == StoreFuture(old(Model()), avail, first, data)
    {
      ghost var expected := StoreFuture(Model(), avail, first, data);
      if first < nowIndex + avail {
        var found := Find(chunks, first);
        if !(found.Some? && |found.value| >= |data|) {
          var stored := Substr(data, 0, Min(|data|, nowIndex + avail - first));
          PutSorted(chunks, first, stored);
          assert expected.chunks == Coalesce(Put(chunks, first, stored));
          chunks := Put(chunks, first, stored);
          Merge();
        }
      }
      assert Model() == expected;
    }

    /** Reassembler::insert. */
    method Insert(first: nat, data: seq<byte>, isLast: bool)
      requires Valid()
      modifies this, output
      ensures Valid()
      ensures (Model(), output.Model()) == old(Model()).Insert(old(output.Model()), first, data, isLast)
    {
      ghost var r0, s0 := Model(), output.Model();
      ghost var res := r0.Insert(s0, first, data, isLast);
      InsertKeepsValid(r0, s0, first, data, isLast);
      if isLast {
        lastIndex := U64(first + |data|);
      }
      ghost var r1 := Model();
      var avail := output.AvailableCapacity();
      assert avail == s0.AvailableCapacity();
      if output.closed || avail == 0 {
        return;
      }
      if first <= nowIndex {
        if first + |data| <= nowIndex {
          if isLast {
            output.Close();
            nowIndex := 0;
            chunks := [];
          }
          return;
        }
        assert res == WriteInOrder(r1, s0, avail, first, data);
        PushInOrder(first, data, avail);
      } else {
        assert res == (StoreFuture(r1, avail, first, data), s0);
        StoreAhead(first, data, avail);
      }
    }

    /** Reassembler::count_bytes_pending: the total length of the stored ranges. */
    method CountBytesPending() returns (count: nat)
      ensures count == PendingBytes(chunks)
    {
      count := 0;
      var i := 0;
      while i < |chunks|
        invariant i <= |chunks|
        invariant count + PendingBytes(chunks[i..]) == PendingBytes(chunks)
        decreases |chunks| - i
      {
        assert chunks[i..][1..] == chunks[i + 1..];
        count := count + |chunks[i].value|;
        i := i + 1;
      }
    }
  }
}
