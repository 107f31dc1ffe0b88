/** The std::map<uint64_t, V> of the source (Reassembler::buffer_data, Timer::message_),
    kept as a sequence of entries in strictly increasing key order, so that iterating from
    begin() is walking the sequence from its head. */
module OrderedMaps {
  import opened Common

  datatype Entry<V> = Entry(key: nat, value: V)

  ghost predicate Sorted<V>(es: seq<Entry<V>>)
  {
    forall i, j :: 0 <= i < j < |es| ==> es[i].key < es[j].key
  }

  /** The key set of the map. */
  function Keys<V>(es: seq<Entry<V>>): (ks: set<nat>)
    ensures ks == {} <==> es == []
    ensures es != [] ==> es[0].key in ks
  {
    if es == [] then {} else {es[0].key} + Keys(es[1..])
  }

  /** A key is in the key set exactly when some entry carries it. */
  lemma {:induction false} KeysIndex<V>(es: seq<Entry<V>>)
    ensures forall i :: 0 <= i < |es| ==> es[i].key in Keys(es)
    ensures forall k :: k in Keys(es) ==> exists i :: 0 <= i < |es| && es[i].key == k
  {
    if es != [] {
      KeysIndex(es[1..]);
      forall i | 1 <= i < |es|
        ensures es[i].key in Keys(es)
      {
        assert es[1..][i - 1] == es[i];
      }
      forall k | k in Keys(es[1..])
        ensures exists i :: 0 <= i < |es| && es[i].key == k
      {
        var j :| 0 <= j < |es[1..]| && es[1..][j].key == k;
        assert es[j + 1].key == k;
      }
    }
  }

  /** map::find. */
  function Find<V>(es: seq<Entry<V>>, k: nat): (r: Option<V>)
    ensures r.Some? <==> k in Keys(es)
    ensures r.Some? ==> exists i :: 0 <= i < |es| && es[i] == Entry(k, r.value)
  {
    if es == [] then None
    else if es[0].key == k then Some(es[0].value)
    else Find(es[1..], k)
  }

  /** map::operator[] assignment: insert the key before the first larger key, or
      overwrite its value. */
  function Put<V>(es: seq<Entry<V>>, k: nat, v: V): (es': seq<Entry<V>>)
    ensures |es'| == |es| || |es'| == |es| + 1
  {
    if es == [] then [Entry(k, v)]
    else if k < es[0].key then [Entry(k, v)] + es
    else if k == es[0].key then [Entry(k, v)] + es[1..]
    else [es[0]] + Put(es[1..], k, v)
  }

  /** Putting adds the key to the key set. */
  lemma {:induction false} PutKeys<V>(es: seq<Entry<V>>, k: nat, v: V)
    ensures Keys(Put(es, k, v)) == Keys(es) + {k}
  {
    if es != [] {
      if k < es[0].key {
        assert ([Entry(k, v)] + es)[1..] == es;
      } else if k == es[0].key {
        assert ([Entry(k, v)] + es[1..])[1..] == es[1..];
      } else {
        PutKeys(es[1..], k, v);
        assert ([es[0]] + Put(es[1..], k, v))[1..] == Put(es[1..], k, v);
      }
    }
  }

  /** Putting into a sorted map keeps it sorted. */
  lemma {:induction false} PutSorted<V>(es: seq<Entry<V>>, k: nat, v: V)
    requires Sorted(es)
    ensures Sorted(Put(es, k, v))
  {
    if es != [] && k > es[0].key {
      SortedTail(es);
      PutSorted(es[1..], k, v);
      var rest := Put(es[1..], k, v);
      PutKeys(es[1..], k, v);
      KeysIndex(es[1..]);
      SortedCons(es[0], rest);
    }
  }

  /** After m[k] = v, looking up k finds v and every other key finds what it found before. */
  lemma {:induction false} FindPut<V>(es: seq<Entry<V>>, k: nat, v: V, k': nat)
    requires Sorted(es)
    ensures Find(Put(es, k, v), k') == if k' == k then Some(v) else Find(es, k')
  {
    if es != [] && k > es[0].key {
      SortedTail(es);
      FindPut(es[1..], k, v, k');
      assert ([es[0]] + Put(es[1..], k, v))[1..] == Put(es[1..], k, v);
    }
  }

  lemma SortedTail<V>(es: seq<Entry<V>>)
    requires Sorted(es) && es != []
    ensures Sorted(es[1..])
    ensures forall i :: 0 <= i < |es[1..]| ==> es[0].key < es[1..][i].key
  {
    forall i | 0 <= i < |es[1..]|
      ensures es[0].key < es[1..][i].key
    {
      assert es[1..][i] == es[i + 1];
    }
  }

  /** An entry whose key is below every key of a sorted sequence can head it. */
  lemma SortedCons<V>(e: Entry<V>, es: seq<Entry<V>>)
    requires Sorted(es) && forall k :: k in Keys(es) ==> e.key < k
    ensures Sorted([e] + es)
  {
    var r := [e] + es;
    KeysIndex(es);
    forall i, j | 0 <= i < j < |r|
      ensures r[i].key < r[j].key
    {
      assert r[j] == es[j - 1];
      assert es[j - 1].key in Keys(es);
    }
  }
}
