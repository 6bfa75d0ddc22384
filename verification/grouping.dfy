/**
 * `groupBy` and `keyBy` with a callback. The callback's answer is taken
 * as the array key PHP would use for it.
 */
module Grouping {
  import opened Wrappers
  import opened PhpValues
  import opened OrderedArray

  // ----- groupBy -------------------------------------------------------------

  /** The bucket of each entry, in order: the callback applied to its value and key. */
  function BucketKeys(items: Entries, g: (Value, Value) -> Key): seq<Key> {
    seq(|items|, i requires 0 <= i < |items| => g(items[i].1, KeyValue(items[i].0)))
  }

  /** The values that go to bucket `b`, in source order. */
  function Bucket(items: Entries, g: (Value, Value) -> Key, b: Key): seq<Value>
    decreases |items|
  {
    if |items| == 0 then []
    else
      var n := |items| - 1;
      Bucket(items[..n], g, b) + (if g(items[n].1, KeyValue(items[n].0)) == b then [items[n].1] else [])
  }

  /** The entry of the result for bucket `b`: the list of its values, or nothing when no value went there. */
  function BucketEntry(items: Entries, g: (Value, Value) -> Key, b: Key): Option<Value> {
    if b in BucketKeys(items, g) then Some(Arr(ListOf(Bucket(items, g, b)))) else None
  }

  /** `$list[] = $v` on a bucket that may not exist yet. */
  function AppendTo(bucket: Option<Value>, v: Value): Entries {
    match bucket
    case Some(Arr(l)) => l + [(I(|l|), v)]
    case _ => [(I(0), v)]
  }

  /**
   * `groupBy($callback)`: for each entry in order, `$results[g(v, k)][] = v`.
   * The buckets appear in order of first use, and each bucket is the list
   * of the values sent to it, in source order.
   */
  function GroupBy(items: Entries, g: (Value, Value) -> Key): (r: Entries)
    ensures KeysOf(r) == FirstSeen(BucketKeys(items, g))
    ensures forall b :: Lookup(r, b) == BucketEntry(items, g, b)
    decreases |items|
  {
    if |items| == 0 then []
    else
      var n := |items| - 1;
      var acc := GroupBy(items[..n], g);
      var b := g(items[n].1, KeyValue(items[n].0));
      GroupStep(items, g, acc);
      Put(acc, b, Arr(AppendTo(Lookup(acc, b), items[n].1)))
  }

  lemma ListOfSnoc(vs: seq<Value>, v: Value)
    ensures ListOf(vs + [v]) == ListOf(vs) + [(I(|vs|), v)]
  {
  }

  lemma GroupStep(items: Entries, g: (Value, Value) -> Key, acc: Entries)
    requires |items| > 0
    requires KeysOf(acc) == FirstSeen(BucketKeys(items[..|items| - 1], g))
    requires forall b :: Lookup(acc, b) == BucketEntry(items[..|items| - 1], g, b)
    ensures var n := |items| - 1;
      var b := g(items[n].1, KeyValue(items[n].0));
      var r := Put(acc, b, Arr(AppendTo(Lookup(acc, b), items[n].1)));
      && KeysOf(r) == FirstSeen(BucketKeys(items, g))
      && (forall b' :: Lookup(r, b') == BucketEntry(items, g, b'))
  {
    var n := |items| - 1;
    var b := g(items[n].1, KeyValue(items[n].0));
    var ks := BucketKeys(items, g);
    assert BucketKeys(items[..n], g) == ks[..n];
    assert ks == ks[..n] + [b];
    var x := Arr(AppendTo(Lookup(acc, b), items[n].1));
    GroupStepNew(items, g, acc);
    GroupStepOthers(items, g, acc, b, x);
  }

  lemma GroupStepNew(items: Entries, g: (Value, Value) -> Key, acc: Entries)
    requires |items| > 0
    requires forall b :: Lookup(acc, b) == BucketEntry(items[..|items| - 1], g, b)
    ensures var n := |items| - 1;
      var b := g(items[n].1, KeyValue(items[n].0));
      Some(Arr(AppendTo(Lookup(acc, b), items[n].1))) == BucketEntry(items, g, b)
  {
    var n := |items| - 1;
    var b := g(items[n].1, KeyValue(items[n].0));
    var ks := BucketKeys(items, g);
    assert BucketKeys(items[..n], g) == ks[..n];
    assert ks[n] == b;
    var p := Bucket(items[..n], g, b);
    assert Bucket(items, g, b) == p + [items[n].1];
    ListOfSnoc(p, items[n].1);
    assert Lookup(acc, b) == BucketEntry(items[..n], g, b);
    if b !in ks[..n] {
      BucketUnused(items[..n], g, b);
      assert Lookup(acc, b) == None;
      assert ListOf(p + [items[n].1]) == [(I(0), items[n].1)];
    } else {
      assert Lookup(acc, b) == Some(Arr(ListOf(p)));
    }
  }

  lemma GroupStepOthers(items: Entries, g: (Value, Value) -> Key, acc: Entries, b: Key, x: Value)
    requires |items| > 0
    requires b == g(items[|items| - 1].1, KeyValue(items[|items| - 1].0))
    requires forall b :: Lookup(acc, b) == BucketEntry(items[..|items| - 1], g, b)
    ensures forall b' :: b' != b ==> Lookup(Put(acc, b, x), b') == BucketEntry(items, g, b')
  {
    var n := |items| - 1;
    var ks := BucketKeys(items, g);
    assert BucketKeys(items[..n], g) == ks[..n];
    assert ks == ks[..n] + [b];
    forall b' | b' != b
      ensures Lookup(Put(acc, b, x), b') == BucketEntry(items, g, b')
    {
      assert Bucket(items, g, b') == Bucket(items[..n], g, b');
      assert b' in ks <==> b' in ks[..n];
    }
  }

  /** The total size of the buckets named in `bs`. */
  function SizeOfBuckets(items: Entries, g: (Value, Value) -> Key, bs: seq<Key>): nat
    decreases |bs|
  {
    if |bs| == 0 then 0
    else SizeOfBuckets(items, g, bs[..|bs| - 1]) + |Bucket(items, g, bs[|bs| - 1])|
  }

  lemma {:induction false} BucketUnused(items: Entries, g: (Value, Value) -> Key, b: Key)
    requires b !in BucketKeys(items, g)
    ensures Bucket(items, g, b) == []
    decreases |items|
  {
    if |items| > 0 {
      var n := |items| - 1;
      assert BucketKeys(items[..n], g) == BucketKeys(items, g)[..n];
      assert BucketKeys(items, g)[n] != b;
      BucketUnused(items[..n], g, b);
    }
  }

  lemma {:induction false} SizeOfBucketsSnoc(items: Entries, g: (Value, Value) -> Key, bs: seq<Key>)
    requires |items| > 0 && Distinct(bs)
    ensures var n := |items| - 1;
      SizeOfBuckets(items, g, bs) == SizeOfBuckets(items[..n], g, bs) + (if g(items[n].1, KeyValue(items[n].0)) in bs then 1 else 0)
    decreases |bs|
  {
    if |bs| > 0 {
      SizeOfBucketsSnoc(items, g, bs[..|bs| - 1]);
      assert forall k :: k in bs <==> k in bs[..|bs| - 1] || k == bs[|bs| - 1];
    }
  }

  /** Every entry lands in exactly one bucket: the bucket sizes add up to the number of entries. */
  lemma {:induction false} GroupSizesSum(items: Entries, g: (Value, Value) -> Key)
    ensures SizeOfBuckets(items, g, FirstSeen(BucketKeys(items, g))) == |items|
    decreases |items|
  {
    if |items| > 0 {
      var n := |items| - 1;
      var ks := BucketKeys(items, g);
      var b := ks[n];
      assert BucketKeys(items[..n], g) == ks[..n];
      assert ks == ks[..n] + [b];
      GroupSizesSum(items[..n], g);
      var f := FirstSeen(ks[..n]);
      SizeOfBucketsSnoc(items, g, f);
      if b !in f {
        BucketUnused(items[..n], g, b);
        assert FirstSeen(ks) == f + [b];
        assert (f + [b])[..|f|] == f;
      }
    }
  }

  // ----- keyBy ---------------------------------------------------------------

  /** The key each value is filed under, in order. */
  function KeysBy(items: Entries, h: Value -> Key): seq<Key> {
    seq(|items|, i requires 0 <= i < |items| => h(items[i].1))
  }

  /** The last value filed under `b`, if any. */
  function LastWith(items: Entries, h: Value -> Key, b: Key): (r: Option<Value>)
    ensures r.None? <==> b !in KeysBy(items, h)
    ensures r.Some? ==> exists i :: (0 <= i < |items| && h(items[i].1) == b && r.value == items[i].1
      && forall j :: i < j < |items| ==> h(items[j].1) != b)
    decreases |items|
  {
    if |items| == 0 then None
    else
      var n := |items| - 1;
      assert KeysBy(items[..n], h) == KeysBy(items, h)[..n];
      assert KeysBy(items, h) == KeysBy(items, h)[..n] + [h(items[n].1)];
      if h(items[n].1) == b then Some(items[n].1) else LastWith(items[..n], h, b)
  }

  /**
   * `keyBy($callback)`: for each value in order, `$results[h(v)] = v`.
   * There is one entry per derived key, at the position where that key
   * was first produced, holding the last value that produced it.
   */
  function KeyBy(items: Entries, h: Value -> Key): (r: Entries)
    ensures KeysOf(r) == FirstSeen(KeysBy(items, h))
    ensures forall b :: Lookup(r, b) == LastWith(items, h, b)
    decreases |items|
  {
    if |items| == 0 then []
    else
      var n := |items| - 1;
      var acc := KeyBy(items[..n], h);
      KeyByStep(items, h, acc);
      Put(acc, h(items[n].1), items[n].1)
  }

  lemma KeyByStep(items: Entries, h: Value -> Key, acc: Entries)
    requires |items| > 0
    requires KeysOf(acc) == FirstSeen(KeysBy(items[..|items| - 1], h))
    requires forall b :: Lookup(acc, b) == LastWith(items[..|items| - 1], h, b)
    ensures var n := |items| - 1;
      var r := Put(acc, h(items[n].1), items[n].1);
      && KeysOf(r) == FirstSeen(KeysBy(items, h))
      && forall b :: Lookup(r, b) == LastWith(items, h, b)
  {
    KeyByKeys(items, h, acc);
    KeyByLookups(items, h, acc);
  }

  lemma KeyByKeys(items: Entries, h: Value -> Key, acc: Entries)
    requires |items| > 0
    requires KeysOf(acc) == FirstSeen(KeysBy(items[..|items| - 1], h))
    ensures var n := |items| - 1;
      KeysOf(Put(acc, h(items[n].1), items[n].1)) == FirstSeen(KeysBy(items, h))
  {
    var n := |items| - 1;
    var ks := KeysBy(items, h);
    assert KeysBy(items[..n], h) == ks[..n];
    assert ks[..|ks| - 1] == ks[..n];
    assert ks[n] == h(items[n].1);
  }

  lemma KeyByLookups(items: Entries, h: Value -> Key, acc: Entries)
    requires |items| > 0
    requires forall b :: Lookup(acc, b) == LastWith(items[..|items| - 1], h, b)
    ensures var n := |items| - 1;
      forall b :: Lookup(Put(acc, h(items[n].1), items[n].1), b) == LastWith(items, h, b)
  {
    forall b
      ensures Lookup(Put(acc, h(items[|items| - 1].1), items[|items| - 1].1), b) == LastWith(items, h, b)
    {
      KeyByLookupAt(items, h, acc, b);
    }
  }

  lemma KeyByLookupAt(items: Entries, h: Value -> Key, acc: Entries, b: Key)
    requires |items| > 0
    requires Lookup(acc, b) == LastWith(items[..|items| - 1], h, b)
    ensures var n := |items| - 1;
      Lookup(Put(acc, h(items[n].1), items[n].1), b) == LastWith(items, h, b)
  {
    LastWithSnoc(items, h, b);
  }

  lemma LastWithSnoc(items: Entries, h: Value -> Key, b: Key)
    requires |items| > 0
    ensures var n := |items| - 1;
      LastWith(items, h, b) == if h(items[n].1) == b then Some(items[n].1) else LastWith(items[..n], h, b)
  {
  }
}
