/** What Reassembler::insert promises, stated case by case on the value model of
    src/reassembler.cc, together with the facts about map assignment and merge the cases
    rest on. */
module ReassemblyProps {
  import opened Common
  import opened OrderedMaps
  import opened ByteStreams
  import opened Reassembly
  import opened Wrap32

  /** After buffer_data[k0] = v the offsets of v are covered, nothing outside v becomes
      covered, and every byte held is an old byte or the byte of v at that offset. */
  lemma {:induction false} PutCovers(es: seq<Chunk>, k0: nat, v: seq<byte>, k: nat)
    requires Sorted(es)
    ensures k0 <= k < k0 + |v| ==> Covers(Put(es, k0, v), k)
    ensures Covers(Put(es, k0, v), k) ==> Covers(es, k) || k0 <= k < k0 + |v|
    ensures forall b :: HoldsAt(Put(es, k0, v), k, b) ==>
      HoldsAt(es, k, b) || (k0 <= k < k0 + |v| && v[k - k0] == b)
    decreases |es|
  {
    var e := Entry(k0, v);
    if es == [] {
      assert Put(es, k0, v) == [e] + es;
      CoversCons(e, es, k);
      forall b ensures HoldsAt([e] + es, k, b) ==> k0 <= k < k0 + |v| && v[k - k0] == b {
        HoldsAtCons(e, es, k, b);
      }
    } else if k0 < es[0].key {
      CoversCons(e, es, k);
      forall b ensures HoldsAt([e] + es, k, b) ==> HoldsAt(es, k, b) || (k0 <= k < k0 + |v| && v[k - k0] == b) {
        HoldsAtCons(e, es, k, b);
      }
    } else if k0 == es[0].key {
      assert [es[0]] + es[1..] == es;
      CoversCons(e, es[1..], k);
      CoversCons(es[0], es[1..], k);
      forall b ensures HoldsAt([e] + es[1..], k, b) ==> HoldsAt(es, k, b) || (k0 <= k < k0 + |v| && v[k - k0] == b) {
        HoldsAtCons(e, es[1..], k, b);
        HoldsAtCons(es[0], es[1..], k, b);
      }
    } else {
      SortedTail(es);
      var rest := Put(es[1..], k0, v);
      PutCovers(es[1..], k0, v, k);
      assert [es[0]] + es[1..] == es;
      CoversCons(es[0], rest, k);
      CoversCons(es[0], es[1..], k);
      forall b ensures HoldsAt([es[0]] + rest, k, b) ==> HoldsAt(es, k, b) || (k0 <= k < k0 + |v| && v[k - k0] == b) {
        HoldsAtCons(es[0], rest, k, b);
        HoldsAtCons(es[0], es[1..], k, b);
      }
    }
  }

  /** The state insert starts from once is_last_substring has been recorded. */
  function Recorded(r: ReasmState, first: nat, data: seq<byte>, isLast: bool): (r1: ReasmState)
    ensures r1.nowIndex == r.nowIndex && r1.chunks == r.chunks
    ensures r1.lastIndex == if isLast then (first + |data|) % MOD64 else r.lastIndex
    ensures isLast && first + |data| < MOD64 ==> r1.lastIndex == first + |data|
  {
    if isLast then r.(lastIndex := U64(first + |data|)) else r
  }

  /** is_last_substring records last_index = first_index + |data| (modulo 2^64) before any early return;
      the only way it is not kept is the reset that closes the stream. */
  lemma InsertRecordsLast(r: ReasmState, s: StreamState, first: nat, data: seq<byte>, isLast: bool)
    requires r.Valid() && s.Valid()
    ensures var res := r.Insert(s, first, data, isLast);
      res.0.lastIndex == Recorded(r, first, data, isLast).lastIndex
      || (res.0 == ReasmState(0, 0, []) && res.1.closed)
  {
  }

  /** A closed writer or a full stream makes insert a no-op apart from last_index. */
  lemma InsertIgnoredWhenClosedOrFull(r: ReasmState, s: StreamState, first: nat, data: seq<byte>, isLast: bool)
    requires r.Valid() && s.Valid()
    requires s.closed || s.AvailableCapacity() == 0
    ensures r.Insert(s, first, data, isLast) == (Recorded(r, first, data, isLast), s)
  {
  }

  /** A range that ends at or before now_index is discarded; if it is the last one the
      stream is closed and buffer_data cleared. */
  lemma InsertStale(r: ReasmState, s: StreamState, first: nat, data: seq<byte>, isLast: bool)
    requires r.Valid() && s.Valid() && !s.closed && s.AvailableCapacity() > 0
    requires first + |data| <= r.nowIndex
    ensures r.Insert(s, first, data, isLast) ==
      if isLast then (ReasmState(0, (first + |data|) % MOD64, []), s.Close()) else (r, s)
  {
  }

  /** A range starting at or beyond now_index + available_capacity is dropped. */
  lemma InsertBeyondWindow(r: ReasmState, s: StreamState, first: nat, data: seq<byte>, isLast: bool)
    requires r.Valid() && s.Valid() && !s.closed && s.AvailableCapacity() > 0
    requires first >= r.nowIndex + s.AvailableCapacity()
    ensures r.Insert(s, first, data, isLast) == (Recorded(r, first, data, isLast), s)
  {
  }

  /** An entry already stored at first_index that is at least as long blocks the range. */
  lemma InsertBlocked(r: ReasmState, s: StreamState, first: nat, data: seq<byte>, isLast: bool)
    requires r.Valid() && s.Valid() && !s.closed && s.AvailableCapacity() > 0
    requires first > r.nowIndex
    requires Find(r.chunks, first).Some? && |Find(r.chunks, first).value| >= |data|
    ensures r.Insert(s, first, data, isLast) == (Recorded(r, first, data, isLast), s)
  {
  }

  /** Assigning v at k0 and merging covers v's offsets and nothing new besides, and keeps
      only old bytes and v's own bytes. */
  lemma PutMergeCovers(es: seq<Chunk>, k0: nat, v: seq<byte>)
    requires Sorted(es)
    ensures Sorted(Put(es, k0, v))
    ensures var cs := Coalesce(Put(es, k0, v));
      && (forall k: nat :: k0 <= k < k0 + |v| ==> Covers(cs, k))
      && (forall k: nat :: Covers(cs, k) ==> Covers(es, k) || k0 <= k < k0 + |v|)
  {
    PutSorted(es, k0, v);
    var put := Put(es, k0, v);
    CoalescePreserves(put);
    forall k: nat
      ensures k0 <= k < k0 + |v| ==> Covers(put, k)
      ensures Covers(put, k) ==> Covers(es, k) || k0 <= k < k0 + |v|
    {
      PutCovers(es, k0, v, k);
    }
  }

  lemma PutMergeHolds(es: seq<Chunk>, k0: nat, v: seq<byte>)
    requires Sorted(es)
    ensures Sorted(Put(es, k0, v))
    ensures forall k: nat, b :: HoldsAt(Coalesce(Put(es, k0, v)), k, b) ==>
      HoldsAt(es, k, b) || (k0 <= k < k0 + |v| && v[k - k0] == b)
  {
    PutSorted(es, k0, v);
    var put := Put(es, k0, v);
    CoalescePreserves(put);
    forall k: nat, b | HoldsAt(put, k, b)
      ensures HoldsAt(es, k, b) || (k0 <= k < k0 + |v| && v[k - k0] == b)
    {
      PutCovers(es, k0, v, k);
    }
  }

  /** The offsets the future branch covers, on the state it starts from: the range cut to
      n = min(size, now_index + available - first) bytes, and nothing else new. */
  lemma StoreFutureCovers(r: ReasmState, avail: nat, first: nat, data: seq<byte>, n: nat)
    requires r.Valid()
    requires r.nowIndex < first < r.nowIndex + avail
    requires !(Find(r.chunks, first).Some? && |Find(r.chunks, first).value| >= |data|)
    requires n == Min(|data|, r.nowIndex + avail - first)
    ensures forall k: nat :: first <= k < first + n ==> Covers(StoreFuture(r, avail, first, data).chunks, k)
    ensures forall k: nat :: Covers(StoreFuture(r, avail, first, data).chunks, k) ==>
      Covers(r.chunks, k) || first <= k < first + n
  {
    var stored := Substr(data, 0, n);
    assert |stored| == n;
    PutSorted(r.chunks, first, stored);
    assert StoreFuture(r, avail, first, data).chunks == Coalesce(Put(r.chunks, first, stored));
    PutMergeCovers(r.chunks, first, stored);
  }

  /** The bytes the future branch keeps: old ones, or the range's own byte at the offset. */
  lemma StoreFutureHolds(r: ReasmState, avail: nat, first: nat, data: seq<byte>, n: nat)
    requires r.Valid()
    requires r.nowIndex < first < r.nowIndex + avail
    requires !(Find(r.chunks, first).Some? && |Find(r.chunks, first).value| >= |data|)
    requires n == Min(|data|, r.nowIndex + avail - first)
    ensures forall k: nat, b :: HoldsAt(StoreFuture(r, avail, first, data).chunks, k, b) ==>
      HoldsAt(r.chunks, k, b) || (first <= k < first + n && data[k - first] == b)
  {
    var stored := Substr(data, 0, n);
    assert |stored| == n;
    var cs := StoreFuture(r, avail, first, data).chunks;
    PutSorted(r.chunks, first, stored);
    assert cs == Coalesce(Put(r.chunks, first, stored));
    PutMergeHolds(r.chunks, first, stored);
    forall k: nat, b | HoldsAt(cs, k, b) && !HoldsAt(r.chunks, k, b)
      ensures first <= k < first + n && data[k - first] == b
    {
      assert stored[k - first] == data[k - first];
    }
  }

  /** Otherwise a future range is stored cut to end by now_index + available_capacity:
      afterwards its offsets are covered, nothing else becomes covered, every stored byte is
      an old one or the range's own byte at that offset, and the stream is untouched. */
  lemma InsertStoresFuture(r: ReasmState, s: StreamState, first: nat, data: seq<byte>, isLast: bool)
    requires r.Valid() && s.Valid() && !s.closed && s.AvailableCapacity() > 0
    requires r.nowIndex < first < r.nowIndex + s.AvailableCapacity()
    requires !(Find(r.chunks, first).Some? && |Find(r.chunks, first).value| >= |data|)
    ensures var res := r.Insert(s, first, data, isLast);
      var n := Min(|data|, r.nowIndex + s.AvailableCapacity() - first);
      && res.1 == s
      && res.0 == Recorded(r, first, data, isLast).(chunks := res.0.chunks)
      && (forall k: nat :: first <= k < first + n ==> Covers(res.0.chunks, k))
      && (forall k: nat :: Covers(res.0.chunks, k) ==> Covers(r.chunks, k) || first <= k < first + n)
      && (forall k: nat, b :: HoldsAt(res.0.chunks, k, b) ==>
            HoldsAt(r.chunks, k, b) || (first <= k < first + n && data[k - first] == b))
  {
    var r1 := Recorded(r, first, data, isLast);
    var avail := s.AvailableCapacity();
    assert r.Insert(s, first, data, isLast) == (StoreFuture(r1, avail, first, data), s);
    StoreFutureCovers(r1, avail, first, data, Min(|data|, r.nowIndex + avail - first));
    StoreFutureHolds(r1, avail, first, data, Min(|data|, r.nowIndex + avail - first));
  }

  /** The bytes the in-order branch hands to the stream: the substring of data from
      now_index on, then what the drain of buffer_data delivers. */
  function Written(r: ReasmState, avail: nat, first: nat, data: seq<byte>): (w: seq<byte>)
    requires first <= r.nowIndex < first + |data|
    ensures |w| >= Min(|data| - (r.nowIndex - first), avail + r.nowIndex - first)
  {
    var piece := InOrderPiece(r, avail, first, data);
    piece + Drain(r.chunks, r.nowIndex + |piece|).2
  }

  /** The written bytes start with data's own bytes from now_index on and continue, offset
      by offset, with bytes stored in buffer_data. */
  lemma WrittenBytes(r: ReasmState, avail: nat, first: nat, data: seq<byte>)
    requires first <= r.nowIndex < first + |data|
    ensures var start := r.nowIndex - first;
      var n := Min(|data| - start, avail + start);
      var written := Written(r, avail, first, data);
      && written[..n] == data[start..start + n]
      && (forall p :: n <= p < |written| ==> HoldsAt(r.chunks, r.nowIndex + p, written[p]))
  {
    var piece := InOrderPiece(r, avail, first, data);
    var d := Drain(r.chunks, r.nowIndex + |piece|);
    DrainFacts(r.chunks, r.nowIndex + |piece|);
    assert (piece + d.2)[..|piece|] == piece;
    AppendHolds(r.chunks, r.nowIndex, piece, d.2);
  }

  /** The state the in-order branch leaves: the stream has received the written bytes,
      now_index has moved past them and the passed entries are erased, or, once now_index
      reaches last_index, the stream is closed and the state reset. */
  lemma WriteInOrderState(r: ReasmState, s: StreamState, avail: nat, first: nat, data: seq<byte>)
    requires r.Valid() && s.Valid()
    requires first <= r.nowIndex < first + |data|
    ensures var res := WriteInOrder(r, s, avail, first, data);
      var written := Written(r, avail, first, data);
      var now' := r.nowIndex + |written|;
      if now' == r.lastIndex then
        res == (ReasmState(0, 0, []), s.Push(written).Close())
      else
        && res.1 == s.Push(written)
        && res.0 == ReasmState(now', r.lastIndex, res.0.chunks)
        && res.0.chunks == r.chunks[|r.chunks| - |res.0.chunks|..]
        && (res.0.chunks == [] || res.0.chunks[0].key > now')
        && forall i :: 0 <= i < |r.chunks| - |res.0.chunks| ==> End(r.chunks[i]) <= now'
  {
    var piece := InOrderPiece(r, avail, first, data);
    var d := Drain(r.chunks, r.nowIndex + |piece|);
    assert Written(r, avail, first, data) == piece + d.2;
    PushAppend(s, piece, d.2);
    DrainFacts(r.chunks, r.nowIndex + |piece|);
  }

  lemma AppendHolds(cs: seq<Chunk>, now: nat, piece: seq<byte>, tail: seq<byte>)
    requires forall p :: 0 <= p < |tail| ==> HoldsAt(cs, now + |piece| + p, tail[p])
    ensures forall p :: |piece| <= p < |piece + tail| ==> HoldsAt(cs, now + p, (piece + tail)[p])
  {
    forall p | |piece| <= p < |piece + tail|
      ensures HoldsAt(cs, now + p, (piece + tail)[p])
    {
      assert (piece + tail)[p] == tail[p - |piece|];
      assert now + p == now + |piece| + (p - |piece|);
    }
  }

  /** A range that starts at or before now_index and reaches past it takes the in-order
      branch, after last_index has been recorded (what that branch writes and leaves is
      stated by WrittenBytes and WriteInOrderState). */
  lemma InsertInOrder(r: ReasmState, s: StreamState, first: nat, data: seq<byte>, isLast: bool)
    requires r.Valid() && s.Valid() && !s.closed && s.AvailableCapacity() > 0
    requires first <= r.nowIndex < first + |data|
    ensures r.Insert(s, first, data, isLast)
      == WriteInOrder(Recorded(r, first, data, isLast), s, s.AvailableCapacity(), first, data)
  {
  }

  /** The in-order branch as written: with now_index = 5, a 20-byte range at offset 0 and
      room for 3 more bytes, substr's count is 3 + 5 = 8, so 8 bytes are taken and now_index
      becomes 13 while the stream accepts only 3 and its byte count reaches 8. */
  lemma InOrderCountsTakenNotAccepted()
    ensures var r := ReasmState(5, 0, []);
      var s := StreamState(3, [], 5, 5, false, false, false);
      var res := r.Insert(s, 0, seq(20, _ => 0), false);
      res.0.nowIndex == 13 && res.1.bytesPushed == 8
  {
    var r := ReasmState(5, 0, []);
    var s := StreamState(3, [], 5, 5, false, false, false);
    var data: seq<byte> := seq(20, _ => 0);
    var piece := Substr(data, 5, Min(20, 3 + 5));
    assert |piece| == 8;
    assert Drain([], 13) == (13, [], []);
    assert piece + [] == piece;
  }

  /** merge never makes the stored byte count grow: overlapping bytes are kept once. */
  lemma {:induction false} MergeKeepsPendingBounded(cs: seq<Chunk>)
    requires Sorted(cs)
    ensures PendingBytes(Coalesce(cs)) <= PendingBytes(cs)
    decreases |cs|
  {
    if |cs| <= 1 {
    } else if End(cs[0]) >= cs[1].key {
      var joined := [Join(cs[0], cs[1])] + cs[2..];
      assert Sorted(joined) by {
        forall a, b | 0 <= a < b < |joined| ensures joined[a].key < joined[b].key {
          assert joined[b] == cs[b + 1];
          if a > 0 { assert joined[a] == cs[a + 1]; }
        }
      }
      MergeKeepsPendingBounded(joined);
      assert joined[1..] == cs[2..] && cs[1..][1..] == cs[2..];
    } else {
      SortedTail(cs);
      MergeKeepsPendingBounded(cs[1..]);
      assert ([cs[0]] + Coalesce(cs[1..]))[1..] == Coalesce(cs[1..]);
    }
  }
}
