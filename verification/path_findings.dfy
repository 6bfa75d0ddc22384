/**
 * Two defects of the collection's `get` and `set`, each shown on a
 * concrete input against the as-written model, next to the corrected
 * definition. For `set` the correction follows the comment in its loop,
 * which promises to create the arrays that hold the final value at the
 * correct depth.
 */
module PathFindings {
  import opened Wrappers
  import opened PhpValues
  import opened NumericKeys
  import opened Explode
  import opened OrderedArray
  import opened DottedPath

  // ----- set rebinds items instead of writing through it ---------------------

  /**
   * The deep assignment the comments in `set` describe: create missing or
   * non-array levels as empty arrays and assign the value at the end of
   * the path, keeping every level above it.
   */
  function SetDeep(top: Entries, segs: seq<string>, v: Value): (r: Entries)
    requires |segs| >= 1
    ensures ValueAt(Arr(r), segs) == Some(v)
    ensures forall k :: k != NormKey(segs[0]) ==> Lookup(r, k) == Lookup(top, k)
    ensures KeepsLevels(r, top, segs)
    decreases |segs|
  {
    var k := NormKey(segs[0]);
    if |segs| == 1 then
      LevelsPut(top, segs, v);
      Put(top, k, v)
    else
      var inner := match Lookup(top, k) case Some(Arr(e)) => e case _ => [];
      var sub := SetDeep(inner, segs[1..], v);
      LevelsStep(top, segs, inner, sub);
      Put(top, k, Arr(sub))
  }

  /**
   * `r` keeps every level above the end of `segs`: at each prefix of the
   * path, every key other than the next segment holds what it held in
   * `top` (nothing, where that level was missing or not an array and had
   * to be created).
   */
  ghost predicate KeepsLevels(r: Entries, top: Entries, segs: seq<string>) {
    forall j, k :: 0 <= j < |segs| && k != NormKey(segs[j]) ==>
      Lookup(ContainerAt(r, segs[..j]), k) == Lookup(ContainerAt(top, segs[..j]), k)
  }

  lemma LevelsPut(top: Entries, segs: seq<string>, v: Value)
    requires |segs| == 1
    ensures KeepsLevels(Put(top, NormKey(segs[0]), v), top, segs)
  {
    assert segs[..0] == [];
  }

  lemma LevelsStep(top: Entries, segs: seq<string>, inner: Entries, sub: Entries)
    requires |segs| >= 2
    requires inner == match Lookup(top, NormKey(segs[0])) case Some(Arr(e)) => e case _ => []
    requires KeepsLevels(sub, inner, segs[1..])
    ensures KeepsLevels(Put(top, NormKey(segs[0]), Arr(sub)), top, segs)
  {
    var r := Put(top, NormKey(segs[0]), Arr(sub));
    forall j, k | 0 <= j < |segs| && k != NormKey(segs[j])
      ensures Lookup(ContainerAt(r, segs[..j]), k) == Lookup(ContainerAt(top, segs[..j]), k)
    {
      if j == 0 {
        assert segs[..0] == [];
      } else {
        ContainerAtShift(top, segs, inner, j);
        ContainerAtShift(r, segs, sub, j);
        assert segs[1..][j - 1] == segs[j];
      }
    }
  }

  /** `set` as intended: a deep assignment into the whole of `items`. */
  function SetIntended(items: Value, key: Option<string>, v: Value): (r: Access)
    ensures EmptyKey(key) ==> r == Set(items, key, v)
    ensures !EmptyKey(key) ==> r.items.Arr? && ValueAt(r.items, Split(key.value)) == Some(v)
    ensures !EmptyKey(key) ==> forall k :: k != NormKey(Split(key.value)[0]) ==>
      Lookup(r.items.entries, k) == Lookup(Container(items), k)
    ensures !EmptyKey(key) ==> KeepsLevels(r.items.entries, Container(items), Split(key.value))
  {
    if EmptyKey(key) then Set(items, key, v)
    else
      var e := SetDeep(Container(items), Split(key.value), v);
      Access(Arr(e), Coll(e))
  }

  // ----- get walks by assigning to items ---------------------------------------

  /**
   * `get` as intended: the same shortcuts for an empty key and a set
   * top-level key, then the value at the path or the default, with
   * `items` left as it was.
   */
  function GetIntended(items: Value, key: Option<string>, default: Value): (r: Value)
    ensures EmptyKey(key) ==> r == items
    ensures !EmptyKey(key) && IssetValue(items, key.value).Some? ==> r == IssetValue(items, key.value).value
    ensures !EmptyKey(key) && IssetValue(items, key.value).None? ==>
      r == ValueAt(items, Split(key.value)).GetOr(default)
  {
    if EmptyKey(key) then items
    else if IssetValue(items, key.value).Some? then IssetValue(items, key.value).value
    else
      match Descend(items, Split(key.value))
      case Reached(n) => n
      case Stopped(_) => default
  }

  /** On plain arrays the intended `get` is the class's own `dataGet` behind the two shortcuts. */
  lemma GetIntendedIsDataGet(items: Value, k: string, d: Value)
    requires Plain(items) && !EmptyKey(Some(k)) && IssetValue(items, k).None?
    ensures GetIntended(items, Some(k), d) == DataGet(items, Some(k), d)
  {
  }

  lemma DottedKeyNotSegment(k: string)
    requires !NoDot(k)
    ensures NormKey(k) == S(k)
    ensures NormKey(k) != NormKey(Split(k)[0])
  {
    SplitShape(k);
    assert !IsCanonicalInt(k) by {
      var i :| 0 <= i < |k| && k[i] == '.';
    }
    assert NoDot(Split(k)[0]);
  }

  /**
   * The intended pair round-trips: after writing a path, reading it gives
   * the value back, provided the whole key is not also a set top-level key
   * (whose `isset` shortcut answers first).
   */
  lemma IntendedRoundTrip(items: Value, k: string, v: Value, d: Value)
    requires !EmptyKey(Some(k))
    requires NoDot(k) || IssetValue(Arr(Container(items)), k).None?
    ensures GetIntended(SetIntended(items, Some(k), v).items, Some(k), d) == v
  {
    var s := SetIntended(items, Some(k), v).items;
    if NoDot(k) {
      SplitNoDot(k);
    } else {
      DottedKeyNotSegment(k);
      assert Lookup(s.entries, NormKey(k)) == Lookup(Container(items), NormKey(k));
    }
  }

  // ----- the as-written code on concrete inputs ---------------------------------

  /** A two-segment key splits into its two segments. */
  lemma SplitPair(x: string, y: string)
    requires NoDot(x) && NoDot(y)
    ensures Split(x + "." + y) == [x, y]
  {
    SplitConcatSegment(x, y);
    SplitNoDot(y);
  }

  /** Keys made of letters and dots stay string keys. */
  lemma NormKeyOfLettersIsString()
    ensures NormKey("a") == S("a") && NormKey("b") == S("b") && NormKey("x") == S("x")
    ensures NormKey("a.b") == S("a.b")
  {
    assert !IsDigit('a') && !IsDigit('b') && !IsDigit('x');
    assert Magnitude("a") == "a" && Magnitude("b") == "b" && Magnitude("x") == "x";
    assert Magnitude("a.b") == "a.b";
  }

  /**
   * `set("a.b", 2)` on `["x" => 1]` leaves `items` as `["b" => 2]`: the
   * entry "x" is gone, and `get("a.b")` afterwards misses and returns its
   * default, where the intended pair returns 2.
   */
  lemma SetDottedLosesTopLevel()
    ensures var before := Arr([(S("x"), Int(1))]);
      var after := Set(before, Some("a.b"), Int(2)).items;
      && after == Arr([(S("b"), Int(2))])
      && Get(after, Some("a.b"), Null).result == Null
      && GetIntended(SetIntended(before, Some("a.b"), Int(2)).items, Some("a.b"), Null) == Int(2)
  {
    var before := Arr([(S("x"), Int(1))]);
    SetABOnXKeepsOnlyB();
    GetABOnBMisses();
    NormKeyOfLettersIsString();
    assert Lookup([(S("x"), Int(1))], S("a.b")) == None;
    IntendedRoundTrip(before, "a.b", Int(2), Null);
  }

  /** As written, `set("a.b", 2)` on `["x" => 1]` leaves only `["b" => 2]`. */
  lemma SetABOnXKeepsOnlyB()
    ensures Set(Arr([(S("x"), Int(1))]), Some("a.b"), Int(2)).items == Arr([(S("b"), Int(2))])
  {
    SplitPair("a", "b");
    assert "a" + "." + "b" == "a.b";
    NormKeyOfLettersIsString();
    var segs := Split("a.b");
    assert segs[..1] == ["a"] && segs[1] == "b";
    assert ContainerAt([(S("x"), Int(1))], ["a"]) == [];
    assert Put([], S("b"), Int(2)) == [(S("b"), Int(2))];
  }

  /**
   * `set("a.c", 2)` on `["a" => ["b" => 1]]`: the intended assignment
   * keeps the sibling "b" inside "a", while the as-written code leaves
   * only the inner array.
   */
  lemma SetKeepsSibling()
    ensures var before := Arr([(S("a"), Arr([(S("b"), Int(1))]))]);
      && SetIntended(before, Some("a.c"), Int(2)).items == Arr([(S("a"), Arr([(S("b"), Int(1)), (S("c"), Int(2))]))])
      && Set(before, Some("a.c"), Int(2)).items == Arr([(S("b"), Int(1)), (S("c"), Int(2))])
  {
    var top := [(S("a"), Arr([(S("b"), Int(1))]))];
    SplitPair("a", "c");
    assert "a" + "." + "c" == "a.c";
    assert !EmptyKey(Some("a.c"));
    assert SetIntended(Arr(top), Some("a.c"), Int(2)).items == Arr(SetDeep(top, ["a", "c"], Int(2)));
    SetDeepACKeepsSibling();
    SetACKeepsOnlyInner();
  }

  /** The key "c" stays a string key. */
  lemma NormKeyOfCIsString()
    ensures NormKey("c") == S("c")
  {
    assert !IsDigit('c') && Magnitude("c") == "c";
  }

  /** The intended walk writes "c" next to "b" inside "a". */
  lemma SetDeepACKeepsSibling()
    ensures SetDeep([(S("a"), Arr([(S("b"), Int(1))]))], ["a", "c"], Int(2))
      == [(S("a"), Arr([(S("b"), Int(1)), (S("c"), Int(2))]))]
  {
    NormKeyOfLettersIsString();
    var top := [(S("a"), Arr([(S("b"), Int(1))]))];
    var inner := [(S("b"), Int(1))];
    var sub := inner + [(S("c"), Int(2))];
    assert ["a", "c"][1..] == ["c"];
    SetDeepCAppends();
    assert Lookup(top, S("a")) == Some(Arr(inner));
    PutFirstKeyReplaces(top, Arr(sub));
  }

  /** Putting the new key "c" appends it after "b". */
  lemma SetDeepCAppends()
    ensures SetDeep([(S("b"), Int(1))], ["c"], Int(2)) == [(S("b"), Int(1)), (S("c"), Int(2))]
  {
    NormKeyOfCIsString();
    var inner := [(S("b"), Int(1))];
    assert S("b") != S("c");
    assert KeysOf(inner) == [S("b")];
    assert IndexOf(inner, S("c")) == None;
  }

  /** Putting the first key again replaces its value in place. */
  lemma PutFirstKeyReplaces(a: Entries, v: Value)
    requires |a| >= 1
    ensures Put(a, a[0].0, v) == a[0 := (a[0].0, v)]
  {
    assert IndexOf(a, a[0].0) == Some(0);
  }

  /** As written, `set("a.c", 2)` on `["a" => ["b" => 1]]` leaves only the inner array. */
  lemma SetACKeepsOnlyInner()
    ensures Set(Arr([(S("a"), Arr([(S("b"), Int(1))]))]), Some("a.c"), Int(2)).items
      == Arr([(S("b"), Int(1)), (S("c"), Int(2))])
  {
    assert Split("a.c") == ["a", "c"] by {
      SplitPair("a", "c");
      assert "a" + "." + "c" == "a.c";
    }
    NormKeyOfLettersIsString();
    var top := [(S("a"), Arr([(S("b"), Int(1))]))];
    var inner := [(S("b"), Int(1))];
    var segs := ["a", "c"];
    assert segs[..1] == ["a"] && segs[1] == "c";
    assert Lookup(top, S("a")) == Some(Arr(inner));
    assert ContainerAt(top, ["a"]) == inner;
    SetDeepCAppends();
    assert SetDeep(inner, ["c"], Int(2)) == Put(inner, NormKey("c"), Int(2));
  }

  /** `get("a.b")` on `["b" => 2]` misses and returns its default. */
  lemma GetABOnBMisses()
    ensures Get(Arr([(S("b"), Int(2))]), Some("a.b"), Null).result == Null
  {
    SplitPair("a", "b");
    assert "a" + "." + "b" == "a.b";
    NormKeyOfLettersIsString();
    var after := Arr([(S("b"), Int(2))]);
    assert Lookup([(S("b"), Int(2))], S("a.b")) == None;
    assert IssetValue(after, "a.b").None?;
    assert Lookup([(S("b"), Int(2))], S("a")) == None;
    assert ValueAt(after, ["a", "b"]).None?;
  }

  /**
   * `get("a.b")` on `["a" => ["b" => 1]]` returns an instance over `[1]`
   * and leaves `items` as the integer 1, so the same call a second time
   * misses and returns the default.
   */
  lemma GetTwiceDiffers()
    ensures var items := Arr([(S("a"), Arr([(S("b"), Int(1))]))]);
      var first := Get(items, Some("a.b"), Null);
      var second := Get(first.items, Some("a.b"), Null);
      && first == Access(Int(1), Coll([(I(0), Int(1))]))
      && second == Access(Int(1), Null)
      && GetIntended(items, Some("a.b"), Null) == Int(1)
  {
    SplitPair("a", "b");
    assert "a" + "." + "b" == "a.b";
    NormKeyOfLettersIsString();
    var items := Arr([(S("a"), Arr([(S("b"), Int(1))]))]);
    assert IssetValue(items, "a.b").None?;
    assert Lookup([(S("a"), Arr([(S("b"), Int(1))]))], S("a")) == Some(Arr([(S("b"), Int(1))]));
    assert Lookup([(S("b"), Int(1))], S("b")) == Some(Int(1));
    assert ValueAt(items, ["a", "b"]) == Some(Int(1));
    assert ValueAt(Int(1), ["a", "b"]) == None;
  }
}
