/**
 * The read-only views of the collection built on PHP array functions:
 * `keys`, `values`, `reverse`, `isEmpty`/`count`, `first`, `last` and
 * `search`.
 */
module ArrayViews {
  import opened Wrappers
  import opened PhpValues
  import opened NumericKeys
  import opened OrderedArray
  import Pipeline

  // ----- keys and values -------------------------------------------------------

  /** `keys()`: `array_keys`, the keys in order as a list of values. */
  function Keys(items: Entries): (r: Entries)
    ensures |r| == |items|
    ensures forall i :: 0 <= i < |r| ==> r[i] == (I(i), KeyValue(items[i].0))
  {
    ListOf(seq(|items|, i requires 0 <= i < |items| => KeyValue(items[i].0)))
  }

  /** `values()`: `array_values`, the values in order under fresh list keys. */
  function Values(items: Entries): (r: Entries)
    ensures |r| == |items|
    ensures forall i :: 0 <= i < |r| ==> r[i] == (I(i), items[i].1)
  {
    ListOf(ValuesOf(items))
  }

  /** A key as PHP stores it: a numeric string is never kept as a string key. */
  predicate NormalKey(k: Key) {
    k.S? ==> NormKey(k.s) == k
  }

  /** The array key a key value read back from `keys()` stands for. */
  function KeyOf(v: Value): Key
    requires v.Int? || v.Str?
  {
    if v.Int? then I(v.i) else NormKey(v.s)
  }

  /** Pairing `keys()` with `values()` position by position rebuilds the items. */
  lemma KeysValuesRebuild(items: Entries)
    requires forall i :: 0 <= i < |items| ==> NormalKey(items[i].0)
    ensures var ks := Keys(items); var vs := Values(items);
      forall i :: 0 <= i < |items| ==> (KeyOf(ks[i].1), vs[i].1) == items[i]
  {
  }

  /** `values()` is `map` with a callback that returns the value it is given. */
  lemma ValuesIsIdentityMap(items: Entries)
    ensures Values(items) == Pipeline.Map(items, (v, k) => v)
  {
  }

  /** `values()` of a list is that list. */
  lemma ValuesIdempotent(items: Entries)
    ensures Values(Values(items)) == Values(items)
    ensures Keys(Values(items)) == ListOf(seq(|items|, i requires 0 <= i < |items| => Int(i)))
  {
  }

  // ----- reverse ---------------------------------------------------------------

  /** The entries in the opposite order, keys untouched. */
  function Flip(a: Entries): (r: Entries)
    ensures |r| == |a|
  {
    seq(|a|, i requires 0 <= i < |a| => a[|a| - 1 - i])
  }

  /**
   * `reverse()`: `array_reverse` without key preservation. The values come
   * in the opposite order; string keys go with their values and integer
   * keys are renumbered from 0 in the new order.
   */
  function Reverse(items: Entries): (r: Entries)
    ensures |r| == |items|
    ensures forall i :: 0 <= i < |r| ==> r[i].1 == items[|items| - 1 - i].1
    ensures forall i :: 0 <= i < |r| && items[|items| - 1 - i].0.S? ==> r[i].0 == items[|items| - 1 - i].0
    ensures forall i :: 0 <= i < |r| && items[|items| - 1 - i].0.I? ==> r[i].0 == I(IntCount(r[..i]))
    ensures UniqueKeys(items) ==> UniqueKeys(r)
  {
    var f := Flip(items);
    var r := Renumber(f);
    forall i | 0 <= i < |r| && f[i].0.I?
      ensures r[i].0 == I(IntCount(r[..i]))
    {
      SameIntCount(f, r, i);
    }
    assert UniqueKeys(items) ==> UniqueKeys(r) by {
      if UniqueKeys(items) {
        FlipUnique(items);
        RenumberUnique(f, 0);
      }
    }
    r
  }

  /** Reversing the entries keeps their keys distinct. */
  lemma FlipUnique(a: Entries)
    requires UniqueKeys(a)
    ensures UniqueKeys(Flip(a))
  {
    var f := Flip(a);
    forall i, j | 0 <= i < j < |f|
      ensures f[i].0 != f[j].0
    {
      assert f[i] == a[|a| - 1 - i] && f[j] == a[|a| - 1 - j];
    }
  }

  /** Same values, same string keys, and integer keys where the other has them. */
  predicate SameShape(a: Entries, b: Entries) {
    && |a| == |b|
    && (forall i :: 0 <= i < |a| ==> a[i].1 == b[i].1 && a[i].0.I? == b[i].0.I?)
    && (forall i :: 0 <= i < |a| && a[i].0.S? ==> a[i].0 == b[i].0)
  }

  lemma {:induction false} SameIntCount(a: Entries, b: Entries, i: nat)
    requires |a| == |b| && i <= |a|
    requires forall j :: 0 <= j < |a| ==> a[j].0.I? == b[j].0.I?
    ensures IntCount(a[..i]) == IntCount(b[..i])
    decreases i
  {
    if i > 0 {
      SameIntCount(a, b, i - 1);
      IntCountSnoc(a, i - 1);
      IntCountSnoc(b, i - 1);
    }
  }

  /** Renumbering sees only the values, the string keys and where the integer keys are. */
  lemma {:induction false} RenumberShape(a: Entries, b: Entries, from: int)
    requires SameShape(a, b)
    ensures RenumberFrom(a, from) == RenumberFrom(b, from)
    decreases |a|
  {
    if |a| > 0 {
      assert SameShape(a[1..], b[1..]);
      RenumberShape(a[1..], b[1..], if a[0].0.I? then from + 1 else from);
    }
  }

  /** Reversing twice gives the items back, renumbered. */
  lemma ReverseTwice(items: Entries)
    ensures Reverse(Reverse(items)) == Renumber(items)
  {
    var once := Reverse(items);
    var f := Flip(once);
    assert SameShape(f, items);
    RenumberShape(f, items, 0);
  }

  // ----- count and isEmpty -------------------------------------------------------

  /** `count()`: the number of entries, as many as `keys()` and `values()` list. */
  function Count(items: Entries): (r: nat)
    ensures r == |Keys(items)| == |Values(items)|
  {
    |items|
  }

  /** `isEmpty()`: `empty($this->items)`, which is PHP's falsiness of the array. */
  function IsEmpty(items: Entries): (r: bool)
    ensures r <==> !Truthy(Arr(items))
    ensures r <==> Count(items) == 0
  {
    items == []
  }

  // ----- first, last, search -------------------------------------------------------

  /** The first position whose entry `accept` takes. */
  function FirstAccepted(items: Entries, accept: (Key, Value) -> bool): (r: Option<nat>)
    ensures r.Some? ==> r.value < |items| && accept(items[r.value].0, items[r.value].1)
    ensures r.Some? ==> forall j :: 0 <= j < r.value ==> !accept(items[j].0, items[j].1)
    ensures r.None? <==> forall j :: 0 <= j < |items| ==> !accept(items[j].0, items[j].1)
    decreases |items|
  {
    if |items| == 0 then None
    else if accept(items[0].0, items[0].1) then Some(0)
    else
      var r := FirstAccepted(items[1..], accept);
      if r.Some? then Some(r.value + 1) else None
  }

  /**
   * `first($callback, $default)`. Without a callback: the first value, or
   * null when there is none. With one: the first value for which
   * `callback(key, value)` is truthy, or the default.
   */
  function First(items: Entries, callback: Option<(Value, Value) -> Value>, default: Value): (r: Value)
    ensures callback.None? ==> r == if |items| > 0 then items[0].1 else Null
    ensures callback.Some? ==>
      var accept := (k: Key, v: Value) => Truthy(callback.value(KeyValue(k), v));
      || (exists i :: 0 <= i < |items| && accept(items[i].0, items[i].1) && r == items[i].1
            && forall j :: 0 <= j < i ==> !accept(items[j].0, items[j].1))
      || ((forall j :: 0 <= j < |items| ==> !accept(items[j].0, items[j].1)) && r == default)
  {
    match callback
    case None => if |items| > 0 then items[0].1 else Null
    case Some(cb) =>
      match FirstAccepted(items, (k: Key, v: Value) => Truthy(cb(KeyValue(k), v)))
      case Some(i) => items[i].1
      case None => default
  }

  /** `last()`: the last value, or null when there is none. */
  function Last(items: Entries): (r: Value)
    ensures |items| == 0 ==> r == Null
    ensures |items| > 0 ==> r == items[|items| - 1].1
  {
    if |items| > 0 then items[|items| - 1].1 else Null
  }

  /** The last value is the first value of the reversed items. */
  lemma LastIsFirstOfReverse(items: Entries)
    ensures Last(items) == First(Reverse(items), None, Null)
  {
  }

  /**
   * `search($callback)`: the key of the first entry for which
   * `callback(value, key)` is truthy; `false` is modelled as `None`.
   */
  function Search(items: Entries, callback: (Value, Value) -> Value): (r: Option<Key>)
    ensures r.None? <==> forall j :: 0 <= j < |items| ==> !Truthy(callback(items[j].1, KeyValue(items[j].0)))
    ensures r.Some? ==> exists i :: (0 <= i < |items| && items[i].0 == r.value
      && Truthy(callback(items[i].1, KeyValue(items[i].0)))
      && forall j :: 0 <= j < i ==> !Truthy(callback(items[j].1, KeyValue(items[j].0))))
  {
    match FirstAccepted(items, (k: Key, v: Value) => Truthy(callback(v, KeyValue(k))))
    case Some(i) => Some(items[i].0)
    case None => None
  }

  /** `search($value, true)`: `array_search` with strict comparison, the key of the first identical value. */
  function SearchStrict(items: Entries, value: Value): (r: Option<Key>)
    ensures r.None? <==> value !in ValuesOf(items)
    ensures r.Some? ==> exists i :: (0 <= i < |items| && items[i] == (r.value, value)
      && value !in ValuesOf(items[..i]))
  {
    match FirstAccepted(items, (k: Key, v: Value) => v == value)
    case Some(i) =>
      assert ValuesOf(items)[i] == value;
      assert forall x :: x in ValuesOf(items[..i]) ==> exists j :: 0 <= j < i && items[j].1 == x;
      Some(items[i].0)
    case None =>
      assert forall x :: x in ValuesOf(items) ==> exists j :: 0 <= j < |items| && items[j].1 == x;
      None
  }

  /**
   * On a PHP array the key `search` finds leads back, through a lookup,
   * to the value `first` finds with the same test.
   */
  lemma SearchAgreesWithFirst(items: Entries, test: (Value, Value) -> Value)
    requires UniqueKeys(items)
    ensures var found := Search(items, test);
      found.Some? ==> Lookup(items, found.value) == Some(First(items, Some((k, v) => test(v, k)), Null))
    ensures Search(items, test).None? ==> First(items, Some((k, v) => test(v, k)), Null) == Null
  {
    var cb := (k, v) => test(v, k);
    var bySearch := (k: Key, v: Value) => Truthy(test(v, KeyValue(k)));
    var byFirst := (k: Key, v: Value) => Truthy(cb(KeyValue(k), v));
    SameFirstAccepted(items, bySearch, byFirst);
    var p := FirstAccepted(items, bySearch);
    if p.Some? {
      LookupUnique(items, items[p.value].0, items[p.value].1);
    }
  }

  /** Two tests that agree on every entry accept the same first position. */
  lemma SameFirstAccepted(items: Entries, a: (Key, Value) -> bool, b: (Key, Value) -> bool)
    requires forall k, v :: a(k, v) == b(k, v)
    ensures FirstAccepted(items, a) == FirstAccepted(items, b)
  {
    var p := FirstAccepted(items, a);
    if p.Some? {
      assert b(items[p.value].0, items[p.value].1);
      assert forall j :: 0 <= j < p.value ==> !b(items[j].0, items[j].1);
    }
  }

  /** `search($value, true)` is `search` with a callback testing for that value. */
  lemma SearchStrictIsSearch(items: Entries, value: Value)
    ensures SearchStrict(items, value) == Search(items, (v, k) => Bool(v == value))
  {
  }
}
