/**
 * The element-wise transformations of the collection: `map`, `transform`,
 * `filter`, `reject` with a callback, and `reduce`. Each returns the items
 * of the collection it produces.
 */
module Pipeline {
  import opened PhpValues
  import opened OrderedArray

  // ----- map and transform -----------------------------------------------------

  /**
   * `map($callback)`: `array_map` over the values and the keys side by
   * side, so the callback sees each value with its key, and the result is
   * a list in the original order.
   */
  function Map(items: Entries, f: (Value, Value) -> Value): (r: Entries)
    ensures |r| == |items|
    ensures forall i :: 0 <= i < |r| ==> r[i] == (I(i), f(items[i].1, KeyValue(items[i].0)))
    decreases |items|
  {
    if |items| == 0 then []
    else
      var n := |items| - 1;
      Map(items[..n], f) + [(I(n), f(items[n].1, KeyValue(items[n].0)))]
  }

  /**
   * `transform($callback)`: `array_map` over the values alone, which keeps
   * every key, integer or string, in place; the collection's items are
   * replaced by the result.
   */
  function Transform(items: Entries, f: Value -> Value): (r: Entries)
    ensures KeysOf(r) == KeysOf(items)
    ensures forall i :: 0 <= i < |r| ==> r[i].1 == f(items[i].1)
    decreases |items|
  {
    if |items| == 0 then []
    else
      var n := |items| - 1;
      var r := Transform(items[..n], f) + [(items[n].0, f(items[n].1))];
      assert KeysOf(r) == KeysOf(items[..n]) + [items[n].0];
      assert KeysOf(items) == KeysOf(items[..n]) + [items[n].0];
      r
  }

  /**
   * With a callback that ignores the key, `map` gives the values of
   * `transform` under fresh list keys; `transform` alone keeps the keys.
   */
  lemma MapIsRenumberedTransform(items: Entries, f: Value -> Value)
    ensures Map(items, (v, k) => f(v)) == ListOf(ValuesOf(Transform(items, f)))
    ensures UniqueKeys(items) ==> UniqueKeys(Transform(items, f))
  {
    var t := Transform(items, f);
    if UniqueKeys(items) {
      forall i, j | 0 <= i < j < |t|
        ensures t[i].0 != t[j].0
      {
        assert KeysOf(t)[i] == KeysOf(items)[i] && KeysOf(t)[j] == KeysOf(items)[j];
      }
    }
  }

  // ----- filter and reject -------------------------------------------------------

  /**
   * Whether `filter` keeps an entry. It iterates the instance itself, so
   * the callback is shown the iterator's wrapper of the value, and its
   * answer is read as a PHP boolean.
   */
  predicate Keeps(cb: Value -> Value, e: (Key, Value)) {
    Truthy(cb(Wrap(e.1)))
  }

  /** The positions `filter` keeps, in increasing order: exactly those whose entry the callback accepts. */
  function KeptPositions(items: Entries, cb: Value -> Value): (ps: seq<nat>)
    ensures forall j :: 0 <= j < |ps| ==> ps[j] < |items|
    ensures forall j, j' :: 0 <= j < j' < |ps| ==> ps[j] < ps[j']
    ensures forall i :: 0 <= i < |items| ==> (i in ps <==> Keeps(cb, items[i]))
    decreases |items|
  {
    if |items| == 0 then []
    else
      var n := |items| - 1;
      KeptPositions(items[..n], cb) + (if Keeps(cb, items[n]) then [n] else [])
  }

  /**
   * `filter($callback)`: walk the entries in order and keep, under its
   * own key, the wrapper of each value the callback accepts. Keys are
   * distinct, so each kept entry is appended. The result is an in-order
   * selection of the source entries, stored as their wrappers.
   */
  function Filter(items: Entries, cb: Value -> Value): (r: Entries)
    ensures var ps := KeptPositions(items, cb);
      && |r| == |ps|
      && forall j :: 0 <= j < |r| ==> r[j] == (items[ps[j]].0, Wrap(items[ps[j]].1))
    ensures UniqueKeys(items) ==> UniqueKeys(r)
    decreases |items|
  {
    if |items| == 0 then []
    else
      var n := |items| - 1;
      var r := Filter(items[..n], cb) + (if Keeps(cb, items[n]) then [(items[n].0, Wrap(items[n].1))] else []);
      FilterUnique(items, cb, r);
      r
  }

  lemma FilterUnique(items: Entries, cb: Value -> Value, r: Entries)
    requires var ps := KeptPositions(items, cb);
      && |r| == |ps|
      && forall j :: 0 <= j < |r| ==> r[j] == (items[ps[j]].0, Wrap(items[ps[j]].1))
    ensures UniqueKeys(items) ==> UniqueKeys(r)
  {
  }

  /** The closure `reject` hands to `filter`: the callback's answer, negated. */
  function Negated(cb: Value -> Value): Value -> Value {
    x => Bool(!Truthy(cb(x)))
  }

  /**
   * `reject($callback)` with a callable: `filter` with the callback's answer
   * negated. The kept entries are, in order, those the callback turns down.
   */
  function Reject(items: Entries, cb: Value -> Value): (r: Entries)
    ensures var ps := KeptPositions(items, Negated(cb));
      && |r| == |ps|
      && (forall j :: 0 <= j < |r| ==> r[j] == (items[ps[j]].0, Wrap(items[ps[j]].1)))
      && (forall i :: 0 <= i < |items| ==> (i in ps <==> !Keeps(cb, items[i])))
  {
    Filter(items, Negated(cb))
  }

  /** `filter` and `reject` with the same callback split the entries between them. */
  lemma FilterRejectPartition(items: Entries, cb: Value -> Value)
    ensures |Filter(items, cb)| + |Reject(items, cb)| == |items|
  {
    KeptSplit(items, cb, Negated(cb));
  }

  lemma {:induction false} KeptSplit(items: Entries, cb: Value -> Value, other: Value -> Value)
    requires forall e :: Keeps(other, e) <==> !Keeps(cb, e)
    ensures |KeptPositions(items, cb)| + |KeptPositions(items, other)| == |items|
    decreases |items|
  {
    if |items| > 0 {
      KeptSplit(items[..|items| - 1], cb, other);
    }
  }

  /** A callback that accepts everything keeps every key, in order. */
  lemma FilterAcceptAll(items: Entries, cb: Value -> Value)
    requires forall x :: Truthy(cb(x))
    ensures KeysOf(Filter(items, cb)) == KeysOf(items)
  {
    var ps := KeptPositions(items, cb);
    assert forall i :: 0 <= i < |items| ==> Keeps(cb, items[i]);
    KeptAll(items, cb);
    var r := Filter(items, cb);
    assert |KeysOf(r)| == |items|;
    forall j | 0 <= j < |r|
      ensures KeysOf(r)[j] == KeysOf(items)[j]
    {
      assert ps[j] == j;
    }
  }

  /** The positions `0 .. n - 1`, in order. */
  function Upto(n: nat): (r: seq<nat>)
    ensures |r| == n
    ensures forall j :: 0 <= j < n ==> r[j] == j
  {
    if n == 0 then [] else Upto(n - 1) + [n - 1]
  }

  lemma {:induction false} KeptAll(items: Entries, cb: Value -> Value)
    requires forall i :: 0 <= i < |items| ==> Keeps(cb, items[i])
    ensures KeptPositions(items, cb) == Upto(|items|)
    decreases |items|
  {
    if |items| > 0 {
      var n := |items| - 1;
      KeptAll(items[..n], cb);
      assert Keeps(cb, items[n]);
    }
  }

  // ----- reduce ------------------------------------------------------------------

  /** `array_reduce`: a left fold of the callback over the values, starting from `initial`. */
  function Fold(vs: seq<Value>, f: (Value, Value) -> Value, initial: Value): Value
    decreases |vs|
  {
    if |vs| == 0 then initial else f(Fold(vs[..|vs| - 1], f, initial), vs[|vs| - 1])
  }

  /** Folding a concatenation folds the second part starting from the fold of the first. */
  lemma {:induction false} FoldAppend(a: seq<Value>, b: seq<Value>, f: (Value, Value) -> Value, initial: Value)
    ensures Fold(a + b, f, initial) == Fold(b, f, Fold(a, f, initial))
    decreases |b|
  {
    if |b| == 0 {
      assert a + b == a;
    } else {
      assert (a + b)[..|a + b| - 1] == a + b[..|b| - 1];
      FoldAppend(a, b[..|b| - 1], f, initial);
    }
  }

  /** `reduce($callback, $initial)`: the fold, passed through the constructor. */
  function Reduce(items: Entries, f: (Value, Value) -> Value, initial: Value): (r: Entries)
    ensures |items| == 0 ==> r == Coerce(initial)
    ensures |items| > 0 ==> r == Coerce(f(Fold(ValuesOf(items)[..|items| - 1], f, initial), items[|items| - 1].1))
  {
    Coerce(Fold(ValuesOf(items), f, initial))
  }
}
