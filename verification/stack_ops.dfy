/**
 * The operations that add or remove entries at either end (`prepend`,
 * `pop`, `shift`) and `merge` (PHP `array_merge`). The stateful ones return
 * the new items of the collection together with their result.
 */
module StackOps {
  import opened Wrappers
  import opened PhpValues
  import opened OrderedArray
  import ArrayViews

  // ----- prepend, pop, shift ---------------------------------------------------

  /**
   * `prepend($value)`: `array_unshift`. The value comes first under key 0;
   * the old entries follow, string keys kept and integer keys renumbered
   * from 1.
   */
  function Prepend(items: Entries, value: Value): (r: Entries)
    ensures |r| == |items| + 1
    ensures r[0] == (I(0), value)
    ensures forall i :: 0 <= i < |items| ==> r[i + 1].1 == items[i].1
    ensures forall i :: 0 <= i < |items| && items[i].0.S? ==> r[i + 1].0 == items[i].0
    ensures forall i :: 0 <= i < |items| && items[i].0.I? ==> r[i + 1].0 == I(1 + IntCount(items[..i]))
  {
    var r := Renumber([(I(0), value)] + items);
    assert r == [(I(0), value)] + RenumberFrom(items, 1);
    r
  }

  /** The items and result of a stateful call. */
  datatype Step = Step(items: Entries, result: Value)

  /**
   * `pop()`: `array_pop`. The last entry goes and its value is returned;
   * an empty collection gives null and stays empty. Keys are not touched.
   */
  function Pop(items: Entries): (r: Step)
    ensures r.result == ArrayViews.Last(items)
    ensures |items| > 0 ==> r.items + [items[|items| - 1]] == items
    ensures |items| == 0 ==> r.items == []
  {
    if |items| == 0 then Step([], Null)
    else Step(items[..|items| - 1], items[|items| - 1].1)
  }

  /** Popping after appending an entry gives that entry's value and the old items back. */
  lemma PopAfterAppend(items: Entries, k: Key, v: Value)
    ensures Pop(items + [(k, v)]) == Step(items, v)
  {
    assert (items + [(k, v)])[..|items|] == items;
  }

  /**
   * `shift()`: `array_shift`. The first entry goes, the rest are renumbered
   * (string keys kept), and the removed value comes back wrapped in a new
   * collection, so null gives an empty one and a scalar a one-entry list.
   */
  function Shift(items: Entries): (r: Step)
    ensures r.result == Coll(Coerce(ArrayViews.First(items, None, Null)))
    ensures |items| > 0 ==> r.items == Renumber(items[1..])
    ensures |items| == 0 ==> r.items == []
  {
    if |items| == 0 then Step([], Coll([]))
    else Step(Renumber(items[1..]), Coll(Coerce(items[0].1)))
  }

  /** Shifting after prepending gives the value back (wrapped) and the old items renumbered. */
  lemma ShiftAfterPrepend(items: Entries, value: Value)
    ensures Shift(Prepend(items, value)) == Step(Renumber(items), Coll(Coerce(value)))
  {
    var p := Prepend(items, value);
    assert p[1..] == RenumberFrom(items, 1);
    RenumberTwice(items, 1, 0);
  }

  // ----- merge -------------------------------------------------------------------

  /** The integer-keyed entries of `a`, in order. */
  function IntPart(a: Entries): Entries
    decreases |a|
  {
    if |a| == 0 then []
    else
      var n := |a| - 1;
      IntPart(a[..n]) + (if a[n].0.I? then [a[n]] else [])
  }

  /** The shape `array_merge` builds: distinct keys, and the integer keys are 0, 1, ... in order. */
  predicate Packed(a: Entries) {
    UniqueKeys(a) && Counted(IntPart(a))
  }

  /** Entry `j` has key `j`. */
  predicate Counted(a: Entries) {
    forall j :: 0 <= j < |a| ==> a[j].0 == I(j)
  }

  /** One entry of the second pass: a string key overwrites, an integer key goes on the end. */
  function MergeStep(acc: Entries, e: (Key, Value)): Entries {
    if e.0.S? then Put(acc, e.0, e.1) else acc + [(I(|IntPart(acc)|), e.1)]
  }

  /** Each string key has its value from `src` when `src` has it, and from `acc` otherwise. */
  ghost predicate StringsFrom(r: Entries, acc: Entries, src: Entries) {
    forall s :: Lookup(r, S(s)) == if S(s) in KeysOf(src) then Lookup(src, S(s)) else Lookup(acc, S(s))
  }

  /**
   * Copies `src` into `acc` the way `array_merge` does. A packed result
   * stays packed; the integer-keyed values are those of `acc` followed by
   * those of `src`; and each string key of a PHP array `src` ends up with
   * its value from `src`, other string keys keeping theirs.
   */
  function MergeInto(acc: Entries, src: Entries): (r: Entries)
    ensures Packed(acc) ==> Packed(r)
    ensures ValuesOf(IntPart(r)) == ValuesOf(IntPart(acc)) + ValuesOf(IntPart(src))
    ensures Packed(acc) && UniqueKeys(src) ==> StringsFrom(r, acc, src)
    decreases |src|
  {
    if |src| == 0 then acc
    else
      var n := |src| - 1;
      var mid := MergeInto(acc, src[..n]);
      MergeIntoStep(acc, src, mid);
      MergeStep(mid, src[n])
  }

  /**
   * The keys of a merge come in first-seen order: the destination's keys,
   * then the source's keys as `array_merge` gives them.
   */
  lemma {:induction false} MergeIntoKeys(acc: Entries, src: Entries)
    requires Packed(acc)
    ensures KeysOf(MergeInto(acc, src)) == FirstSeen(KeysOf(acc) + Rekeyed(src, |IntPart(acc)|))
    decreases |src|
  {
    if |src| == 0 {
      assert KeysOf(acc) + Rekeyed(src, |IntPart(acc)|) == KeysOf(acc);
      FirstSeenDistinct(KeysOf(acc));
    } else {
      var n := |src| - 1;
      MergeIntoKeys(acc, src[..n]);
      MergeKeysStep(acc, src, MergeInto(acc, src[..n]));
    }
  }

  /** Keys that are already distinct are their own first-seen order. */
  lemma {:induction false} FirstSeenDistinct(ks: seq<Key>)
    requires Distinct(ks)
    ensures FirstSeen(ks) == ks
    decreases |ks|
  {
    if |ks| > 0 {
      var n := |ks| - 1;
      FirstSeenDistinct(ks[..n]);
      assert ks[..n] + [ks[n]] == ks;
    }
  }

  /**
   * One more entry of the merge keeps the key order: the keys of the
   * destination followed by the renumbered keys of the source, each key
   * where it first occurs.
   */
  lemma MergeKeysStep(acc: Entries, src: Entries, mid: Entries)
    requires |src| > 0 && Packed(acc) && Packed(mid)
    requires ValuesOf(IntPart(mid)) == ValuesOf(IntPart(acc)) + ValuesOf(IntPart(src[..|src| - 1]))
    requires KeysOf(mid) == FirstSeen(KeysOf(acc) + Rekeyed(src[..|src| - 1], |IntPart(acc)|))
    ensures KeysOf(MergeStep(mid, src[|src| - 1])) == FirstSeen(KeysOf(acc) + Rekeyed(src, |IntPart(acc)|))
  {
    var n := |src| - 1;
    var c := |IntPart(acc)|;
    var front := KeysOf(acc) + Rekeyed(src[..n], c);
    if src[n].0.S? {
      RekeyedSnoc(KeysOf(acc), src, c, src[n].0);
      PutKeysSeen(mid, front, src[n].0, src[n].1);
    } else {
      IntPartLength(mid, acc, src[..n]);
      PackedIntKeys(mid);
      AppendKeysStep(KeysOf(acc), src, c, mid);
    }
  }

  /** An integer-keyed entry goes in under the next integer key, the one the rekeyed source gives it. */
  lemma AppendKeysStep(ks: seq<Key>, src: Entries, c: int, mid: Entries)
    requires |src| > 0 && src[|src| - 1].0.I?
    requires |IntPart(mid)| == c + |IntPart(src[..|src| - 1])|
    requires I(|IntPart(mid)|) !in KeysOf(mid)
    requires KeysOf(mid) == FirstSeen(ks + Rekeyed(src[..|src| - 1], c))
    ensures KeysOf(mid + [(I(|IntPart(mid)|), src[|src| - 1].1)]) == FirstSeen(ks + Rekeyed(src, c))
  {
    var n := |src| - 1;
    RekeyedSnoc(ks, src, c, I(|IntPart(mid)|));
    AppendKeysSeen(mid, ks + Rekeyed(src[..n], c), src[n].1);
  }

  /** Integer parts whose values concatenate have lengths that add up. */
  lemma IntPartLength(r: Entries, a: Entries, b: Entries)
    requires ValuesOf(IntPart(r)) == ValuesOf(IntPart(a)) + ValuesOf(IntPart(b))
    ensures |IntPart(r)| == |IntPart(a)| + |IntPart(b)|
  {
    assert |ValuesOf(IntPart(r))| == |IntPart(r)|;
  }

  /** Putting a string key keeps the first-seen order of the keys put so far. */
  lemma PutKeysSeen(mid: Entries, front: seq<Key>, k: Key, v: Value)
    requires KeysOf(mid) == FirstSeen(front)
    ensures KeysOf(Put(mid, k, v)) == FirstSeen(front + [k])
  {
    FirstSeenSnoc(front, k);
  }

  /** Appending under the next integer key, which is new, extends the first-seen order. */
  lemma AppendKeysSeen(mid: Entries, front: seq<Key>, v: Value)
    requires KeysOf(mid) == FirstSeen(front)
    requires I(|IntPart(mid)|) !in KeysOf(mid)
    ensures KeysOf(mid + [(I(|IntPart(mid)|), v)]) == FirstSeen(front + [I(|IntPart(mid)|)])
  {
    FirstSeenSnoc(front, I(|IntPart(mid)|));
    KeysOfSnoc(mid, (I(|IntPart(mid)|), v));
  }

  /**
   * The keys `array_merge` gives the entries of `src` when `c` integer
   * keys come before them: a string key stays, the j-th integer key
   * becomes `c + j`.
   */
  function Rekeyed(src: Entries, c: int): (r: seq<Key>)
    ensures |r| == |src|
    decreases |src|
  {
    if |src| == 0 then []
    else
      var n := |src| - 1;
      Rekeyed(src[..n], c) + [if src[n].0.S? then src[n].0 else I(c + |IntPart(src[..n])|)]
  }

  /** The rekeyed source grows by the key its last entry gets. */
  lemma RekeyedSnoc(ks: seq<Key>, src: Entries, c: int, last: Key)
    requires |src| > 0
    requires last == if src[|src| - 1].0.S? then src[|src| - 1].0 else I(c + |IntPart(src[..|src| - 1])|)
    ensures ks + Rekeyed(src, c) == ks + Rekeyed(src[..|src| - 1], c) + [last]
  {
  }

  /** First-seen order grows by a key only when the key is new. */
  lemma FirstSeenSnoc(ks: seq<Key>, k: Key)
    ensures FirstSeen(ks + [k]) == if k in FirstSeen(ks) then FirstSeen(ks) else FirstSeen(ks) + [k]
  {
    assert (ks + [k])[..|ks|] == ks;
  }

  /** Merging two sources one after the other is merging their concatenation. */
  lemma {:induction false} MergeIntoAppend(acc: Entries, a: Entries, b: Entries)
    ensures MergeInto(acc, a + b) == MergeInto(MergeInto(acc, a), b)
    decreases |b|
  {
    if |b| == 0 {
      assert a + b == a;
    } else {
      var m := |b| - 1;
      MergeIntoAppend(acc, a, b[..m]);
      SnocSplit(a, b);
      MergeIntoSnoc(acc, a + b[..m], b[m]);
      MergeIntoSnoc(MergeInto(acc, a), b[..m], b[m]);
    }
  }

  /** A non-empty `b` is its front followed by its last entry, also after `a`. */
  lemma SnocSplit(a: Entries, b: Entries)
    requires |b| > 0
    ensures b == b[..|b| - 1] + [b[|b| - 1]]
    ensures a + b == (a + b[..|b| - 1]) + [b[|b| - 1]]
  {
  }

  /** Merging one more entry is one more `MergeStep`. */
  lemma MergeIntoSnoc(acc: Entries, src: Entries, e: (Key, Value))
    ensures MergeInto(acc, src + [e]) == MergeStep(MergeInto(acc, src), e)
  {
    assert (src + [e])[..|src|] == src;
  }

  /** The contract of `MergeInto` carries over one more entry of `src`. */
  lemma MergeIntoStep(acc: Entries, src: Entries, mid: Entries)
    requires |src| > 0
    requires Packed(acc) ==> Packed(mid)
    requires ValuesOf(IntPart(mid)) == ValuesOf(IntPart(acc)) + ValuesOf(IntPart(src[..|src| - 1]))
    requires Packed(acc) && UniqueKeys(src[..|src| - 1]) ==> StringsFrom(mid, acc, src[..|src| - 1])
    ensures var r := MergeStep(mid, src[|src| - 1]);
      && (Packed(acc) ==> Packed(r))
      && ValuesOf(IntPart(r)) == ValuesOf(IntPart(acc)) + ValuesOf(IntPart(src))
      && (Packed(acc) && UniqueKeys(src) ==> StringsFrom(r, acc, src))
  {
    var n := |src| - 1;
    var e := src[n];
    var r := MergeStep(mid, e);
    assert Packed(acc) ==> Packed(r) by {
      MergeStepPacked(mid, e);
    }
    assert ValuesOf(IntPart(r)) == ValuesOf(IntPart(acc)) + ValuesOf(IntPart(src)) by {
      MergeStepInts(mid, e);
      IntPartValuesSnoc(src);
    }
    assert Packed(acc) && UniqueKeys(src) ==> StringsFrom(r, acc, src) by {
      MergeLookupStep(acc, src, mid);
    }
  }

  lemma IntPartValuesSnoc(src: Entries)
    requires |src| > 0
    ensures var n := |src| - 1;
      ValuesOf(IntPart(src)) == ValuesOf(IntPart(src[..n])) + (if src[n].0.I? then [src[n].1] else [])
  {
    var n := |src| - 1;
    var tail: Entries := if src[n].0.I? then [src[n]] else [];
    ValuesOfAppend(IntPart(src[..n]), tail);
  }

  /**
   * `merge($items)`: `array_merge($this->items, $items)` where `$items` is
   * another collection's items or an array.
   */
  function Merge(items: Entries, other: Entries): (r: Entries)
    ensures UniqueKeys(r)
    ensures ValuesOf(IntPart(r)) == ValuesOf(IntPart(items)) + ValuesOf(IntPart(other))
    ensures forall k :: k in KeysOf(r) && k.I? ==> k.n < |IntPart(r)|
    ensures Counted(IntPart(r))
    ensures UniqueKeys(items) && UniqueKeys(other) ==> StringsFrom(r, items, other)
    ensures KeysOf(r) == FirstSeen(Rekeyed(items + other, 0))
  {
    var r := MergeInto(MergeInto([], items), other);
    MergeFacts(items, other);
    PackedIntKeys(r);
    MergeOrder(items, other);
    r
  }

  /** `array_merge(["a" => 1, 0 => 2], [])` keeps the string key in front. */
  lemma MergeKeepsOrder()
    ensures KeysOf(Merge([(S("a"), Int(1)), (I(0), Int(2))], [])) == [S("a"), I(0)]
  {
    var items := [(S("a"), Int(1)), (I(0), Int(2))];
    assert items + [] == items;
    assert items[..1] == [(S("a"), Int(1))] && items[..1][..0] == [];
    assert Rekeyed(items[..1], 0) == [S("a")];
    assert IntPart(items[..1]) == [];
    assert Rekeyed(items, 0) == [S("a"), I(0)];
    assert [S("a"), I(0)][..1] == [S("a")];
    assert FirstSeen([S("a")]) == [S("a")];
  }

  /** The merged keys are those of both arrays, rekeyed, each where it first occurs. */
  lemma MergeOrder(items: Entries, other: Entries)
    ensures KeysOf(MergeInto(MergeInto([], items), other)) == FirstSeen(Rekeyed(items + other, 0))
  {
    MergeIntoAppend([], items, other);
    assert Packed([]) && IntPart([]) == [];
    MergeIntoKeys([], items + other);
    assert KeysOf([]) + Rekeyed(items + other, 0) == Rekeyed(items + other, 0);
  }

  lemma MergeFacts(items: Entries, other: Entries)
    ensures var r := MergeInto(MergeInto([], items), other);
      && Packed(r)
      && ValuesOf(IntPart(r)) == ValuesOf(IntPart(items)) + ValuesOf(IntPart(other))
      && (UniqueKeys(items) && UniqueKeys(other) ==> StringsFrom(r, items, other))
  {
    FirstPassPacked(items);
    FirstPassInts(items);
    if UniqueKeys(items) && UniqueKeys(other) {
      MergeStrings(items, other);
    }
  }

  lemma FirstPassPacked(items: Entries)
    ensures Packed(MergeInto([], items))
  {
    assert Packed([]);
  }

  lemma FirstPassInts(items: Entries)
    ensures ValuesOf(IntPart(MergeInto([], items))) == ValuesOf(IntPart(items))
  {
    var vs := ValuesOf(IntPart(items));
    assert ValuesOf(IntPart([])) + vs == vs by {
      assert IntPart([]) == [];
      assert ValuesOf([]) == [];
    }
  }

  lemma MergeStrings(items: Entries, other: Entries)
    requires UniqueKeys(items) && UniqueKeys(other)
    ensures StringsFrom(MergeInto(MergeInto([], items), other), items, other)
  {
    var first := MergeInto([], items);
    FirstPassPacked(items);
    PackedLookupEmpty(items);
    var r := MergeInto(first, other);
    assert StringsFrom(r, first, other);
    forall s
      ensures Lookup(r, S(s)) == if S(s) in KeysOf(other) then Lookup(other, S(s)) else Lookup(items, S(s))
    {
      assert Lookup(first, S(s)) == Lookup(items, S(s));
    }
  }

  /** The first pass of `array_merge` over a PHP array keeps every string key's value. */
  lemma PackedLookupEmpty(items: Entries)
    ensures UniqueKeys(items) ==> forall s :: Lookup(MergeInto([], items), S(s)) == Lookup(items, S(s))
  {
    assert Packed([]);
    forall s | UniqueKeys(items)
      ensures Lookup(MergeInto([], items), S(s)) == Lookup(items, S(s))
    {
      assert Lookup([], S(s)) == None;
    }
  }

  // ----- facts about merging ---------------------------------------------------------

  lemma IntPartSnoc(a: Entries, e: (Key, Value))
    ensures IntPart(a + [e]) == IntPart(a) + (if e.0.I? then [e] else [])
  {
    assert (a + [e])[..|a|] == a;
  }

  /** In a packed array every integer key is below the number of integer keys. */
  lemma {:induction false} PackedIntKeys(a: Entries)
    requires Packed(a)
    ensures forall k :: k in KeysOf(a) && k.I? ==> k.n < |IntPart(a)|
  {
    forall k | k in KeysOf(a) && k.I?
      ensures k.n < |IntPart(a)|
    {
      var i :| 0 <= i < |a| && a[i].0 == k;
      IntPartHas(a, i);
      var j :| 0 <= j < |IntPart(a)| && IntPart(a)[j] == a[i];
      assert IntPart(a)[j].0 == I(j);
    }
  }

  lemma {:induction false} IntPartHas(a: Entries, i: nat)
    requires i < |a| && a[i].0.I?
    ensures a[i] in IntPart(a)
    decreases |a|
  {
    var n := |a| - 1;
    if i < n {
      assert a[..n][i] == a[i];
      IntPartHas(a[..n], i);
    }
  }

  /** Overwriting the value under a string key leaves the integer-keyed entries alone. */
  lemma {:induction false} IntPartReplaceString(a: Entries, i: nat, e: (Key, Value))
    requires i < |a| && a[i].0.S? && e.0.S?
    ensures IntPart(a[i := e]) == IntPart(a)
    decreases |a|
  {
    var n := |a| - 1;
    if i < n {
      assert a[i := e][..n] == a[..n][i := e];
      IntPartReplaceString(a[..n], i, e);
    } else {
      assert a[i := e][..n] == a[..n];
    }
  }

  lemma MergeStepPacked(acc: Entries, e: (Key, Value))
    ensures Packed(acc) ==> Packed(MergeStep(acc, e))
  {
    if Packed(acc) {
      if e.0.S? {
        PutStringPacked(acc, e);
      } else {
        AppendIntPacked(acc, e.1);
      }
    }
  }

  lemma PutStringPacked(acc: Entries, e: (Key, Value))
    requires Packed(acc) && e.0.S?
    ensures Packed(Put(acc, e.0, e.1))
  {
    match IndexOf(acc, e.0)
    case Some(i) => IntPartReplaceString(acc, i, e);
    case None => IntPartSnoc(acc, e);
  }

  lemma AppendIntPacked(acc: Entries, v: Value)
    requires Packed(acc)
    ensures Packed(acc + [(I(|IntPart(acc)|), v)])
  {
    var k := I(|IntPart(acc)|);
    var r := acc + [(k, v)];
    assert k !in KeysOf(acc) by {
      PackedIntKeys(acc);
    }
    assert UniqueKeys(r) by {
      AppendFacts(acc, k, v);
      assert forall j :: 0 <= j < |acc| ==> r[j].0 != k;
    }
    assert Counted(IntPart(r)) by {
      IntPartSnoc(acc, (k, v));
    }
  }

  lemma MergeStepInts(acc: Entries, e: (Key, Value))
    ensures ValuesOf(IntPart(MergeStep(acc, e))) == ValuesOf(IntPart(acc)) + (if e.0.I? then [e.1] else [])
  {
    if e.0.S? {
      match IndexOf(acc, e.0)
      case Some(i) => IntPartReplaceString(acc, i, e);
      case None => IntPartSnoc(acc, e);
    } else {
      IntPartSnoc(acc, (I(|IntPart(acc)|), e.1));
    }
  }

  /** An integer-keyed entry leaves every string key's value as it was. */
  lemma MergeStepStrings(acc: Entries, e: (Key, Value))
    requires e.0.I? && Packed(acc)
    ensures forall s :: Lookup(MergeStep(acc, e), S(s)) == Lookup(acc, S(s))
  {
    PackedIntKeys(acc);
    AppendFacts(acc, I(|IntPart(acc)|), e.1);
  }

  /** The string-key lookups after one more entry of a PHP array `src` has been merged. */
  lemma MergeLookupStep(acc: Entries, src: Entries, mid: Entries)
    requires |src| > 0
    requires Packed(acc) ==> Packed(mid)
    requires Packed(acc) && UniqueKeys(src[..|src| - 1]) ==> StringsFrom(mid, acc, src[..|src| - 1])
    ensures Packed(acc) && UniqueKeys(src) ==> StringsFrom(MergeStep(mid, src[|src| - 1]), acc, src)
  {
    if Packed(acc) && UniqueKeys(src) {
      var n := |src| - 1;
      assert UniqueKeys(src[..n]);
      var e := src[n];
      var r := MergeStep(mid, e);
      assert src == src[..n] + [e];
      assert e.0 !in KeysOf(src[..n]) by {
        forall j | 0 <= j < n
          ensures src[..n][j].0 != e.0
        {
          assert src[j].0 != src[n].0;
        }
      }
      AppendFacts(src[..n], e.0, e.1);
      if e.0.I? {
        MergeStepStrings(mid, e);
      }
      forall s
        ensures Lookup(r, S(s)) == if S(s) in KeysOf(src) then Lookup(src, S(s)) else Lookup(acc, S(s))
      {
        if S(s) != e.0 {
          assert S(s) in KeysOf(src) <==> S(s) in KeysOf(src[..n]);
        }
      }
    }
  }
}
