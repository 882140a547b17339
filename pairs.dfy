/** Ordered dictionaries as sequences of key/value pairs in insertion order: the value model
    shared by the catalog record's localized texts and by the settings dictionaries. */
module Pairs {
  import opened Wrappers

  function KeysOf<K, V>(entries: seq<(K, V)>): (r: seq<K>)
    ensures |r| == |entries| && forall i :: 0 <= i < |r| ==> r[i] == entries[i].0
  {
    seq(|entries|, i requires 0 <= i < |entries| => entries[i].0)
  }

  function ValuesOf<K, V>(entries: seq<(K, V)>): (r: seq<V>)
    ensures |r| == |entries| && forall i :: 0 <= i < |r| ==> r[i] == entries[i].1
  {
    seq(|entries|, i requires 0 <= i < |entries| => entries[i].1)
  }

  predicate DistinctKeys<K(==), V>(entries: seq<(K, V)>)
  {
    forall i, j :: 0 <= i < j < |entries| ==> entries[i].0 != entries[j].0
  }

  predicate DistinctValues<K, V(==)>(entries: seq<(K, V)>)
  {
    forall i, j :: 0 <= i < j < |entries| ==> entries[i].1 != entries[j].1
  }

  /** The position of the first entry with key `k`, or -1. */
  function IndexOfKey<K(==), V>(entries: seq<(K, V)>, k: K): (r: int)
    decreases |entries|
    ensures -1 <= r < |entries|
    ensures r >= 0 ==> entries[r].0 == k && forall j :: 0 <= j < r ==> entries[j].0 != k
    ensures r == -1 <==> forall j :: 0 <= j < |entries| ==> entries[j].0 != k
  {
    if |entries| == 0 then -1
    else if entries[0].0 == k then 0
    else
      var r := IndexOfKey(entries[1..], k);
      if r == -1 then -1 else r + 1
  }

  /** Dictionary lookup: the value of key `k`, or None when `k` is not a key. */
  function Lookup<K(==), V>(entries: seq<(K, V)>, k: K): (r: Option<V>)
    ensures r.None? <==> k !in KeysOf(entries)
    ensures r.Some? ==> (k, r.value) in entries
  {
    var i := IndexOfKey(entries, k);
    if i >= 0 then Some(entries[i].1) else None
  }

  /** With distinct keys, the value of an entry's key is that entry's value. */
  lemma LookupOfEntry<K, V>(entries: seq<(K, V)>, i: nat)
    requires DistinctKeys(entries) && i < |entries|
    ensures Lookup(entries, entries[i].0) == Some(entries[i].1)
  {
    IndexOfKeyAt(entries, entries[i].0, i);
  }

  /** The reverse dictionary: every entry with key and value exchanged. */
  function Swap<K, V>(entries: seq<(K, V)>): (r: seq<(V, K)>)
    ensures |r| == |entries| && forall i :: 0 <= i < |r| ==> r[i] == (entries[i].1, entries[i].0)
  {
    seq(|entries|, i requires 0 <= i < |entries| => (entries[i].1, entries[i].0))
  }

  /** When keys and values are both distinct, looking a key up and then looking its value up
      in the reverse dictionary gives the key back, and the other way round. */
  lemma LookupSwapRoundTrip<K, V>(entries: seq<(K, V)>, k: K)
    requires DistinctKeys(entries) && DistinctValues(entries)
    requires k in KeysOf(entries)
    ensures Lookup(entries, k).Some?
    ensures Lookup(Swap(entries), Lookup(entries, k).value) == Some(k)
  {
    var i := IndexOfKey(entries, k);
    var v := entries[i].1;
    var s := Swap(entries);
    forall a, b | 0 <= a < b < |s| ensures s[a].0 != s[b].0 {
      assert s[a].0 == entries[a].1 && s[b].0 == entries[b].1;
    }
    LookupOfEntry(s, i);
  }

  /** The indexer setter `d[k] = v`: replaces the value of an existing key in place, or
      appends a new entry. */
  function Assign<K(==), V>(entries: seq<(K, V)>, k: K, v: V): (r: seq<(K, V)>)
    ensures |r| == if k in KeysOf(entries) then |entries| else |entries| + 1
  {
    var i := IndexOfKey(entries, k);
    if i >= 0 then entries[i := (k, v)] else entries + [(k, v)]
  }

  /** Lookups depend only on the keys' order, not on the values. */
  lemma IndexOfKeySameKeys<K, V>(a: seq<(K, V)>, b: seq<(K, V)>, k: K)
    requires KeysOf(a) == KeysOf(b)
    ensures IndexOfKey(a, k) == IndexOfKey(b, k)
  {
    assert |a| == |b|;
    assert forall j :: 0 <= j < |a| ==> a[j].0 == KeysOf(a)[j] == KeysOf(b)[j] == b[j].0;
  }

  /** The first index holding key `k` is the index of `k`. */
  lemma IndexOfKeyAt<K, V>(entries: seq<(K, V)>, k: K, i: nat)
    requires i < |entries| && entries[i].0 == k
    requires forall j :: 0 <= j < i ==> entries[j].0 != k
    ensures IndexOfKey(entries, k) == i
  {
  }

  /** Appending an entry keeps the index of every key already present, and a new key is
      found at the end. */
  lemma IndexOfKeyAppend<K, V>(entries: seq<(K, V)>, e: (K, V), k: K)
    ensures var i := IndexOfKey(entries, k);
      IndexOfKey(entries + [e], k) == if i >= 0 then i else if e.0 == k then |entries| else -1
  {
    var a := entries + [e];
    assert forall m :: 0 <= m < |entries| ==> a[m] == entries[m];
    var i := IndexOfKey(entries, k);
    if i >= 0 {
      IndexOfKeyAt(a, k, i);
    } else if e.0 == k {
      IndexOfKeyAt(a, k, |entries|);
    }
  }

  /** After `d[k] = v`: the keys are unchanged or `k` is appended, `k` maps to `v`, every other
      key keeps its value, and distinct keys stay distinct. */
  lemma AssignSpec<K, V>(entries: seq<(K, V)>, k: K, v: V)
    ensures var r := Assign(entries, k, v);
      KeysOf(r) == (if k in KeysOf(entries) then KeysOf(entries) else KeysOf(entries) + [k]) &&
      Lookup(r, k) == Some(v) &&
      (forall k' :: k' != k ==> Lookup(r, k') == Lookup(entries, k')) &&
      (DistinctKeys(entries) ==> DistinctKeys(r))
  {
    var r := Assign(entries, k, v);
    var i := IndexOfKey(entries, k);
    if i >= 0 {
      assert KeysOf(r) == KeysOf(entries);
      forall k' ensures IndexOfKey(r, k') == IndexOfKey(entries, k') {
        IndexOfKeySameKeys(r, entries, k');
      }
    } else {
      assert KeysOf(r) == KeysOf(entries) + [k];
      forall k' ensures IndexOfKey(r, k') == if k' == k then |entries| else IndexOfKey(entries, k') {
        IndexOfKeyAppend(entries, (k, v), k');
      }
    }
  }

  /** The reverse dictionary's keys are the forward dictionary's values, in order. */
  lemma KeysOfSwap<K, V>(entries: seq<(K, V)>)
    ensures KeysOf(Swap(entries)) == ValuesOf(entries)
    ensures DistinctKeys(Swap(entries)) <==> DistinctValues(entries)
  {
    var s := Swap(entries);
    if DistinctValues(entries) {
      forall a, b | 0 <= a < b < |s| ensures s[a].0 != s[b].0 {
        assert s[a].0 == entries[a].1 && s[b].0 == entries[b].1;
      }
    }
    if DistinctKeys(s) {
      forall a, b | 0 <= a < b < |entries| ensures entries[a].1 != entries[b].1 {
        assert s[a].0 == entries[a].1 && s[b].0 == entries[b].1;
      }
    }
  }
}
