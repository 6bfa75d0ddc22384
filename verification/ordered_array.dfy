/**
 * PHP arrays as ordered sequences of entries: lookup, assignment to a
 * key, and the renumbering of integer keys that many array functions do.
 */
module OrderedArray {
  import opened Wrappers
  import opened PhpValues

  function KeysOf(a: Entries): seq<Key> {
    seq(|a|, i requires 0 <= i < |a| => a[i].0)
  }

  function ValuesOf(a: Entries): seq<Value> {
    seq(|a|, i requires 0 <= i < |a| => a[i].1)
  }

  lemma KeysOfSnoc(a: Entries, e: (Key, Value))
    ensures KeysOf(a + [e]) == KeysOf(a) + [e.0]
  {
  }

  lemma ValuesOfAppend(a: Entries, b: Entries)
    ensures ValuesOf(a + b) == ValuesOf(a) + ValuesOf(b)
  {
  }

  /** A list: the values under the keys 0, 1, 2, ... in order. */
  function ListOf(vs: seq<Value>): Entries {
    seq(|vs|, i requires 0 <= i < |vs| => (I(i), vs[i]))
  }

  /** No key occurs twice. */
  predicate Distinct(ks: seq<Key>) {
    forall i, j :: 0 <= i < j < |ks| ==> ks[i] != ks[j]
  }

  /** The distinct elements of `ks`, in the order they first appear. */
  function FirstSeen(ks: seq<Key>): (r: seq<Key>)
    ensures forall k :: k in r <==> k in ks
    ensures Distinct(r)
    decreases |ks|
  {
    if |ks| == 0 then []
    else
      var n := |ks| - 1;
      assert forall k :: k in ks <==> k in ks[..n] || k == ks[n];
      var p := FirstSeen(ks[..n]);
      if ks[n] in p then p else p + [ks[n]]
  }

  /** Every PHP array has pairwise distinct keys. */
  predicate UniqueKeys(a: Entries) {
    forall i, j :: 0 <= i < j < |a| ==> a[i].0 != a[j].0
  }

  /** The position of key `k` in `a`, if it is there. */
  function IndexOf(a: Entries, k: Key): (r: Option<nat>)
    ensures r.Some? ==> r.value < |a| && a[r.value].0 == k
    ensures r.Some? ==> forall j :: 0 <= j < r.value ==> a[j].0 != k
    ensures r.None? <==> k !in KeysOf(a)
    decreases |a|
  {
    if |a| == 0 then None
    else if a[0].0 == k then assert KeysOf(a)[0] == k; Some(0)
    else
      var r := IndexOf(a[1..], k);
      assert KeysOf(a) == [a[0].0] + KeysOf(a[1..]);
      if r.Some? then Some(r.value + 1) else None
  }

  /** `$a[$k]` when `array_key_exists($k, $a)`, and nothing otherwise. */
  function Lookup(a: Entries, k: Key): (r: Option<Value>)
    ensures r.Some? <==> k in KeysOf(a)
    ensures r.Some? ==> (k, r.value) in a
  {
    match IndexOf(a, k)
    case Some(i) => Some(a[i].1)
    case None => None
  }

  lemma IndexOfIs(a: Entries, k: Key, i: nat)
    requires i < |a| && a[i].0 == k
    requires forall j :: 0 <= j < i ==> a[j].0 != k
    ensures IndexOf(a, k) == Some(i)
  {
    var r := IndexOf(a, k);
    assert k in KeysOf(a) by { assert KeysOf(a)[i] == k; }
  }

  /** In an array with distinct keys, an entry is present exactly when lookup finds it. */
  lemma LookupUnique(a: Entries, k: Key, v: Value)
    requires UniqueKeys(a)
    ensures Lookup(a, k) == Some(v) <==> (k, v) in a
  {
    if (k, v) in a {
      var i :| 0 <= i < |a| && a[i] == (k, v);
      IndexOfIs(a, k, i);
    }
  }

  /**
   * `$a[$k] = $v`: an existing key keeps its position and takes the new
   * value; a new key is appended. Nothing else changes.
   */
  function Put(a: Entries, k: Key, v: Value): (r: Entries)
    ensures Lookup(r, k) == Some(v)
    ensures forall k' :: k' != k ==> Lookup(r, k') == Lookup(a, k')
    ensures KeysOf(r) == if k in KeysOf(a) then KeysOf(a) else KeysOf(a) + [k]
    ensures UniqueKeys(a) ==> UniqueKeys(r)
  {
    match IndexOf(a, k)
    case Some(i) =>
      ReplaceFacts(a, k, v, i);
      a[i := (k, v)]
    case None =>
      AppendFacts(a, k, v);
      a + [(k, v)]
  }

  lemma ReplaceFacts(a: Entries, k: Key, v: Value, i: nat)
    requires IndexOf(a, k) == Some(i)
    ensures Lookup(a[i := (k, v)], k) == Some(v)
    ensures forall k' :: k' != k ==> Lookup(a[i := (k, v)], k') == Lookup(a, k')
    ensures KeysOf(a[i := (k, v)]) == KeysOf(a)
  {
    var r := a[i := (k, v)];
    assert KeysOf(r) == KeysOf(a);
    IndexOfIs(r, k, i);
    forall k' | k' != k
      ensures Lookup(r, k') == Lookup(a, k')
    {
      match IndexOf(a, k')
      case Some(j) => IndexOfIs(r, k', j);
      case None =>
    }
  }

  lemma AppendFacts(a: Entries, k: Key, v: Value)
    requires k !in KeysOf(a)
    ensures Lookup(a + [(k, v)], k) == Some(v)
    ensures forall k' :: k' != k ==> Lookup(a + [(k, v)], k') == Lookup(a, k')
    ensures KeysOf(a + [(k, v)]) == KeysOf(a) + [k]
    ensures forall j :: 0 <= j < |a| ==> a[j].0 != k
  {
    var r := a + [(k, v)];
    forall j | 0 <= j < |a|
      ensures a[j].0 != k
    {
      assert KeysOf(a)[j] == a[j].0;
    }
    assert KeysOf(r) == KeysOf(a) + [k];
    IndexOfIs(r, k, |a|);
    forall k' | k' != k
      ensures Lookup(r, k') == Lookup(a, k')
    {
      match IndexOf(a, k')
      case Some(j) => IndexOfIs(r, k', j);
      case None => assert k' !in KeysOf(r);
    }
  }

  /** The number of integer-keyed entries of `a`. */
  function IntCount(a: Entries): nat
    decreases |a|
  {
    if |a| == 0 then 0 else (if a[0].0.I? then 1 else 0) + IntCount(a[1..])
  }

  /**
   * The re-indexing PHP's array functions apply: integer keys become
   * `from`, `from + 1`, ... in order, string keys stay.
   */
  function RenumberFrom(a: Entries, from: int): (r: Entries)
    ensures |r| == |a|
    ensures forall i :: 0 <= i < |a| ==> r[i].1 == a[i].1
    ensures forall i :: 0 <= i < |a| && a[i].0.S? ==> r[i].0 == a[i].0
    ensures forall i :: 0 <= i < |a| && a[i].0.I? ==> r[i].0 == I(from + IntCount(a[..i]))
    decreases |a|
  {
    if |a| == 0 then []
    else
      var rest := RenumberFrom(a[1..], if a[0].0.I? then from + 1 else from);
      IntCountTail(a);
      [if a[0].0.I? then (I(from), a[0].1) else a[0]] + rest
  }

  lemma IntCountTail(a: Entries)
    requires |a| > 0
    ensures forall i :: 1 <= i <= |a| ==> IntCount(a[..i]) == (if a[0].0.I? then 1 else 0) + IntCount(a[1..][..i - 1])
  {
    forall i | 1 <= i <= |a|
      ensures IntCount(a[..i]) == (if a[0].0.I? then 1 else 0) + IntCount(a[1..][..i - 1])
    {
      assert a[..i][1..] == a[1..][..i - 1];
    }
  }

  function Renumber(a: Entries): Entries {
    RenumberFrom(a, 0)
  }

  /** Renumbering does not depend on the numbering it starts from. */
  lemma {:induction false} RenumberTwice(a: Entries, m: int, n: int)
    ensures RenumberFrom(RenumberFrom(a, m), n) == RenumberFrom(a, n)
    decreases |a|
  {
    if |a| > 0 {
      var r := RenumberFrom(a, m);
      assert r[1..] == RenumberFrom(a[1..], if a[0].0.I? then m + 1 else m);
      RenumberTwice(a[1..], if a[0].0.I? then m + 1 else m, if a[0].0.I? then n + 1 else n);
    }
  }

  /** A renumbered array still has distinct keys. */
  lemma RenumberUnique(a: Entries, from: int)
    requires UniqueKeys(a)
    ensures UniqueKeys(RenumberFrom(a, from))
  {
    var r := RenumberFrom(a, from);
    forall i, j | 0 <= i < j < |a|
      ensures r[i].0 != r[j].0
    {
      if a[i].0.I? && a[j].0.I? {
        IntCountGrows(a, i, j);
      }
    }
  }

  lemma {:induction false} IntCountGrows(a: Entries, i: nat, j: nat)
    requires i < j <= |a| && a[i].0.I?
    ensures IntCount(a[..i]) < IntCount(a[..j])
    decreases j
  {
    if j == i + 1 {
      IntCountSnoc(a, i);
    } else {
      IntCountGrows(a, i, j - 1);
      IntCountSnoc(a, j - 1);
    }
  }

  lemma {:induction false} IntCountSnoc(a: Entries, i: nat)
    requires i < |a|
    ensures IntCount(a[..i + 1]) == IntCount(a[..i]) + (if a[i].0.I? then 1 else 0)
    decreases i
  {
    if i > 0 {
      assert a[..i + 1][1..] == a[1..][..i];
      assert a[..i][1..] == a[1..][..i - 1];
      IntCountSnoc(a[1..], i - 1);
    }
  }
}
