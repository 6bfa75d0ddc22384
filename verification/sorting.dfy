/**
 * `sort` (PHP `uasort`) and `sortBy` (a derived value per entry, then
 * `asort`/`arsort`). Both keep each key with its value and only reorder
 * the entries; neither renumbers keys. PHP's own sort algorithm is not
 * modelled: any permutation that is ordered meets the contracts, and an
 * insertion sort is the witness.
 */
module Sorting {
  import opened PhpValues
  import opened OrderedArray

  type Entry = (Key, Value)

  /** `le` orders entries consistently: any two are comparable, and the order is transitive. */
  ghost predicate TotalPreorder(le: (Entry, Entry) -> bool) {
    && (forall a, b :: le(a, b) || le(b, a))
    && (forall a, b, c :: le(a, b) && le(b, c) ==> le(a, c))
  }

  predicate SortedBy(s: Entries, le: (Entry, Entry) -> bool) {
    forall i, j :: 0 <= i < j < |s| ==> le(s[i], s[j])
  }

  /** Puts `x` before the first entry it may precede. */
  function Insert(x: Entry, s: Entries, le: (Entry, Entry) -> bool): (r: Entries)
    ensures |r| == |s| + 1
    ensures multiset(r) == multiset(s) + multiset{x}
    decreases |s|
  {
    if |s| == 0 then [x]
    else if le(x, s[0]) then [x] + s
    else
      assert s == [s[0]] + s[1..];
      [s[0]] + Insert(x, s[1..], le)
  }

  function InsertionSort(s: Entries, le: (Entry, Entry) -> bool): (r: Entries)
    ensures |r| == |s|
    ensures multiset(r) == multiset(s)
    decreases |s|
  {
    if |s| == 0 then []
    else
      assert s == [s[0]] + s[1..];
      Insert(s[0], InsertionSort(s[1..], le), le)
  }

  lemma {:induction false} InsertSorted(x: Entry, s: Entries, le: (Entry, Entry) -> bool)
    requires TotalPreorder(le) && SortedBy(s, le)
    ensures SortedBy(Insert(x, s, le), le)
    decreases |s|
  {
    if |s| > 0 && !le(x, s[0]) {
      var t := s[1..];
      assert SortedBy(t, le);
      InsertSorted(x, t, le);
      var r := Insert(x, t, le);
      assert le(s[0], x);
      forall e | e in r
        ensures le(s[0], e)
      {
        assert e in multiset(r);
        if e != x {
          assert e in multiset(t);
          var j :| 0 <= j < |t| && t[j] == e;
          assert s[j + 1] == e;
        }
      }
      assert forall j :: 0 < j < |r| + 1 ==> ([s[0]] + r)[j] == r[j - 1];
    } else if |s| > 0 {
      forall i, j | 0 <= i < j < |s| + 1
        ensures le(([x] + s)[i], ([x] + s)[j])
      {
        if i == 0 && j > 1 {
          assert le(s[0], s[j - 1]);
        }
      }
    }
  }

  lemma {:induction false} InsertionSortSorted(s: Entries, le: (Entry, Entry) -> bool)
    requires TotalPreorder(le)
    ensures SortedBy(InsertionSort(s, le), le)
    decreases |s|
  {
    if |s| > 0 {
      InsertionSortSorted(s[1..], le);
      InsertSorted(s[0], InsertionSort(s[1..], le), le);
    }
  }

  /**
   * Reordering the entries of a PHP array keeps its keys distinct and
   * every key bound to the same value.
   */
  lemma PermutationKeepsLookup(a: Entries, b: Entries)
    requires multiset(a) == multiset(b) && UniqueKeys(a)
    ensures UniqueKeys(b)
    ensures forall k :: Lookup(b, k) == Lookup(a, k)
  {
    forall i, j | 0 <= i < j < |b|
      ensures b[i].0 != b[j].0
    {
      var p, q := SeparatePositions(a, b, i, j);
      assert a[p].0 != a[q].0;
    }
    forall k
      ensures Lookup(b, k) == Lookup(a, k)
    {
      if Lookup(a, k).Some? {
        LookupUnique(a, k, Lookup(a, k).value);
        assert (k, Lookup(a, k).value) in multiset(b);
        LookupUnique(b, k, Lookup(a, k).value);
      } else if Lookup(b, k).Some? {
        assert (k, Lookup(b, k).value) in multiset(a);
        LookupUnique(a, k, Lookup(b, k).value);
      }
    }
  }

  /** Two positions of `b` come from two different positions of `a`. */
  lemma SeparatePositions(a: Entries, b: Entries, i: nat, j: nat) returns (p: nat, q: nat)
    requires multiset(a) == multiset(b)
    requires i < j < |b|
    ensures p < |a| && q < |a| && p != q
    ensures a[p] == b[i] && a[q] == b[j]
  {
    if b[i] == b[j] {
      CountTwo(b, i, j);
      p, q := TwoPositions(a, b[i]);
    } else {
      assert b[i] in multiset(a) && b[j] in multiset(a);
      p :| 0 <= p < |a| && a[p] == b[i];
      q :| 0 <= q < |a| && a[q] == b[j];
    }
  }

  lemma CountTwo(s: Entries, i: nat, j: nat)
    requires i < j < |s| && s[i] == s[j]
    ensures multiset(s)[s[i]] >= 2
  {
    var e := s[i];
    var u := s[..j];
    assert s == u + s[j..];
    assert e in u by { assert u[i] == e; }
    assert multiset(s[j..])[e] >= 1 by { assert s[j..][0] == e; }
  }

  lemma TwoPositions(s: Entries, e: Entry) returns (p: nat, q: nat)
    requires multiset(s)[e] >= 2
    ensures p < |s| && q < |s| && p != q && s[p] == e && s[q] == e
  {
    assert e in multiset(s);
    p :| 0 <= p < |s| && s[p] == e;
    var rest := s[..p] + s[p + 1..];
    assert s == s[..p] + [s[p]] + s[p + 1..];
    assert multiset(rest)[e] >= 1;
    var k :| 0 <= k < |rest| && rest[k] == e;
    q := if k < p then k else k + 1;
  }

  // ----- sortBy --------------------------------------------------------------

  /** The value `sortBy` files an entry under: the callback on the value and key. */
  function Derived(cb: (Value, Value) -> int, e: Entry): int {
    cb(e.1, KeyValue(e.0))
  }

  /** Ascending order on derived values, or descending when `descending` is set. */
  function ByDerived(cb: (Value, Value) -> int, descending: bool): (Entry, Entry) -> bool {
    (a: Entry, b: Entry) => if descending then Derived(cb, a) >= Derived(cb, b) else Derived(cb, a) <= Derived(cb, b)
  }

  lemma ByDerivedTotal(cb: (Value, Value) -> int, descending: bool)
    ensures TotalPreorder(ByDerived(cb, descending))
  {
  }

  /**
   * `sortBy($callback, SORT_REGULAR, $descending)`: the same entries, ordered
   * so the derived values never decrease (never increase when descending).
   */
  function SortBy(items: Entries, cb: (Value, Value) -> int, descending: bool): (r: Entries)
    ensures multiset(r) == multiset(items)
    ensures forall i, j :: 0 <= i < j < |r| ==>
      if descending then Derived(cb, r[i]) >= Derived(cb, r[j]) else Derived(cb, r[i]) <= Derived(cb, r[j])
  {
    var le := ByDerived(cb, descending);
    ByDerivedTotal(cb, descending);
    InsertionSortSorted(items, le);
    InsertionSort(items, le)
  }

  /** `sortBy` on a PHP array: keys stay distinct and each keeps its value. */
  lemma SortByKeepsPairs(items: Entries, cb: (Value, Value) -> int, descending: bool)
    requires UniqueKeys(items)
    ensures UniqueKeys(SortBy(items, cb, descending))
    ensures forall k :: Lookup(SortBy(items, cb, descending), k) == Lookup(items, k)
  {
    PermutationKeepsLookup(items, SortBy(items, cb, descending));
  }

  // ----- sort ----------------------------------------------------------------

  /** `uasort`'s use of the user comparator: `a` may stay before `b` when `cmp(a, b) <= 0`. */
  function ByComparator(cmp: (Value, Value) -> int): (Entry, Entry) -> bool {
    (a: Entry, b: Entry) => cmp(a.1, b.1) <= 0
  }

  /** `sort($callback)`: `uasort` with the user comparator; keys travel with their values. */
  function Sort(items: Entries, cmp: (Value, Value) -> int): (r: Entries)
    ensures multiset(r) == multiset(items)
    ensures TotalPreorder(ByComparator(cmp)) ==> forall i, j :: 0 <= i < j < |r| ==> cmp(r[i].1, r[j].1) <= 0
  {
    var le := ByComparator(cmp);
    SortedWhenConsistent(items, le);
    InsertionSort(items, le)
  }

  lemma SortedWhenConsistent(s: Entries, le: (Entry, Entry) -> bool)
    ensures TotalPreorder(le) ==> SortedBy(InsertionSort(s, le), le)
  {
    if TotalPreorder(le) {
      InsertionSortSorted(s, le);
    }
  }

  /** `sort` on a PHP array: keys stay distinct and each keeps its value. */
  lemma SortKeepsPairs(items: Entries, cmp: (Value, Value) -> int)
    requires UniqueKeys(items)
    ensures UniqueKeys(Sort(items, cmp))
    ensures forall k :: Lookup(Sort(items, cmp), k) == Lookup(items, k)
  {
    PermutationKeepsLookup(items, Sort(items, cmp));
  }
}
