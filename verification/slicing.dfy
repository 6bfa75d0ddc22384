/**
 * The windows of the collection: `slice` (PHP `array_slice`), `take`,
 * `forPage`, and `chunk` (PHP `array_chunk`, each chunk wrapped in a new
 * collection).
 */
module Slicing {
  import opened Wrappers
  import opened PhpValues
  import opened OrderedArray

  // ----- slice -----------------------------------------------------------------

  /**
   * The positions `array_slice` copies, `[lo, hi)`, worked out the way PHP
   * clamps its arguments: an offset past the end gives nothing, a negative
   * offset counts from the end (but not before the start), a missing length
   * runs to the end, a negative length stops that far from the end, and a
   * length that runs past the end is cut back.
   */
  function SliceBounds(n: nat, offset: int, length: Option<int>): (b: (nat, nat))
    ensures b.0 <= b.1 <= n
    ensures offset >= 0 ==> b.0 == Min(offset, n)
    ensures offset < 0 ==> b.0 == Max(n + offset, 0)
    ensures length.None? ==> b.1 == n
    ensures length.Some? && length.value >= 0 ==> b.1 == Min(b.0 + length.value, n)
    ensures length.Some? && length.value < 0 ==> b.1 == Max(b.0, n + length.value)
  {
    var len := length.GetOr(n);
    if offset > n then (n, n)
    else
      var lo: nat := if offset < 0 then (if n + offset < 0 then 0 else n + offset) else offset;
      var count := if len < 0 then n - lo + len else if lo + len > n then n - lo else len;
      if count <= 0 then (lo, lo) else (lo, lo + count)
  }

  function Min(a: int, b: int): int {
    if a <= b then a else b
  }

  function Max(a: int, b: int): int {
    if a >= b then a else b
  }

  /**
   * `slice($offset, $length, $preserveKeys)`: the entries in the window, in
   * order. String keys are always kept; integer keys are kept only when
   * `$preserveKeys` is set and are otherwise renumbered from 0.
   */
  function Slice(items: Entries, offset: int, length: Option<int>, preserveKeys: bool): (r: Entries)
    ensures var (lo, hi) := SliceBounds(|items|, offset, length);
      Windowed(r, items, lo, hi, preserveKeys)
  {
    var (lo, hi) := SliceBounds(|items|, offset, length);
    WindowKeys(items, lo, hi, preserveKeys);
    Window(items, lo, hi, preserveKeys)
  }

  /** `r` holds the entries of `items` from `lo` to `hi`, with keys kept or renumbered. */
  predicate Windowed(r: Entries, items: Entries, lo: nat, hi: nat, preserveKeys: bool)
    requires lo <= hi <= |items|
  {
    && |r| == hi - lo
    && (forall i :: 0 <= i < |r| ==> r[i].1 == items[lo + i].1)
    && (forall i :: 0 <= i < |r| && (preserveKeys || items[lo + i].0.S?) ==> r[i].0 == items[lo + i].0)
    && (forall i :: 0 <= i < |r| && !preserveKeys && items[lo + i].0.I? ==> r[i].0 == I(IntCount(items[lo..hi][..i])))
  }

  function Window(items: Entries, lo: nat, hi: nat, preserveKeys: bool): (r: Entries)
    requires lo <= hi <= |items|
    ensures ValuesOf(r) == ValuesOf(items)[lo..hi]
  {
    var w := items[lo..hi];
    if preserveKeys then w else Renumber(w)
  }

  lemma WindowKeys(items: Entries, lo: nat, hi: nat, preserveKeys: bool)
    requires lo <= hi <= |items|
    ensures Windowed(Window(items, lo, hi, preserveKeys), items, lo, hi, preserveKeys)
  {
  }

  /** A slice keeping keys, up to a cut and from the cut on, puts the items back together. */
  lemma SliceSplit(items: Entries, cut: nat)
    ensures Slice(items, 0, Some(cut), true) + Slice(items, cut, None, true) == items
  {
    var (lo, hi) := SliceBounds(|items|, 0, Some(cut));
    var (lo', hi') := SliceBounds(|items|, cut, None);
    assert items == items[lo..hi] + items[lo'..hi'];
  }

  /** A slice renumbered afterwards is the slice that renumbers. */
  lemma RenumberedSliceIsSlice(items: Entries, offset: int, length: Option<int>)
    ensures Renumber(Slice(items, offset, length, true)) == Slice(items, offset, length, false)
  {
  }

  // ----- take and forPage --------------------------------------------------------

  /**
   * `take($limit)`: the first `$limit` entries, or the last `-$limit` when
   * the limit is negative; with no limit, everything (renumbered, as
   * `slice` does).
   */
  function Take(items: Entries, limit: Option<int>): (r: Entries)
    ensures limit.None? ==> ValuesOf(r) == ValuesOf(items)
    ensures limit.Some? && limit.value >= 0 ==> ValuesOf(r) == ValuesOf(items)[..Min(limit.value, |items|)]
    ensures limit.Some? && limit.value < 0 ==> ValuesOf(r) == ValuesOf(items)[|items| - Min(-limit.value, |items|)..]
    ensures limit.Some? && limit.value < 0 ==> r == Slice(items, limit.value, Some(-limit.value), false)
    ensures !(limit.Some? && limit.value < 0) ==> r == Slice(items, 0, limit, false)
  {
    var (lo, hi) := if limit.Some? && limit.value < 0 then SliceBounds(|items|, limit.value, Some(-limit.value))
      else SliceBounds(|items|, 0, limit);
    Window(items, lo, hi, false)
  }

  /**
   * The offset `forPage` slices from: `($page - 1) * $perPage`, written as
   * repeated addition. From page 1 on, with a page size that is not
   * negative, it is not negative; page 0 and below count back from the
   * end, as a negative offset does for `array_slice`.
   */
  function PageStart(page: int, perPage: int): (r: int)
    ensures page >= 1 && perPage >= 0 ==> r >= 0
  {
    if page >= 1 then Times(page - 1, perPage) else -Times(1 - page, perPage)
  }

  /** `n` copies of `m` added up. */
  function Times(n: nat, m: int): (r: int)
    ensures m >= 0 ==> r >= 0
  {
    if n == 0 then 0 else Times(n - 1, m) + m
  }

  lemma {:induction false} TimesIsProduct(n: nat, m: int)
    ensures Times(n, m) == n * m
  {
    if n > 0 {
      TimesIsProduct(n - 1, m);
      assert (n - 1) * m + m == n * m;
    }
  }

  /** The offset is the product the source computes, for every page and page size. */
  lemma PageStartIsProduct(page: int, perPage: int)
    ensures PageStart(page, perPage) == (page - 1) * perPage
  {
    if page >= 1 {
      TimesIsProduct(page - 1, perPage);
    } else {
      TimesIsProduct(1 - page, perPage);
      assert -((1 - page) * perPage) == (page - 1) * perPage;
    }
  }

  /**
   * `forPage($page, $perPage)`: page `$page`, counting from 1, of
   * `$perPage` entries each; for every page and page size it is the
   * renumbering slice from `PageStart`, so page 0 and below count back
   * from the end.
   */
  function ForPage(items: Entries, page: int, perPage: int): (r: Entries)
    ensures page >= 1 && perPage >= 0 ==> var start := PageStart(page, perPage);
      ValuesOf(r) == ValuesOf(items)[Min(start, |items|)..Min(start + perPage, |items|)]
    ensures r == Slice(items, PageStart(page, perPage), Some(perPage), false)
  {
    var (lo, hi) := SliceBounds(|items|, PageStart(page, perPage), Some(perPage));
    Window(items, lo, hi, false)
  }

  /** Consecutive pages follow on from each other: together they are the span of both. */
  lemma PagesAdjoin(items: Entries, page: int, perPage: nat)
    requires page >= 1
    ensures var start := PageStart(page, perPage);
      ValuesOf(ForPage(items, page, perPage)) + ValuesOf(ForPage(items, page + 1, perPage))
      == ValuesOf(items)[Min(start, |items|)..Min(start + 2 * perPage, |items|)]
  {
    NextPageStart(page, perPage);
    PageValues(items, page, perPage);
    PageValues(items, page + 1, perPage);
    WindowsAdjoin(ValuesOf(items), PageStart(page, perPage), perPage,
      ValuesOf(ForPage(items, page, perPage)), ValuesOf(ForPage(items, page + 1, perPage)));
  }

  /** Two clamped windows of width `m`, one after the other, make the clamped window of width `2 * m`. */
  lemma WindowsAdjoin(vs: seq<Value>, start: int, m: nat, p1: seq<Value>, p2: seq<Value>)
    requires start >= 0
    requires p1 == vs[Min(start, |vs|)..Min(start + m, |vs|)]
    requires p2 == vs[Min(start + m, |vs|)..Min(start + m + m, |vs|)]
    ensures p1 + p2 == vs[Min(start, |vs|)..Min(start + 2 * m, |vs|)]
  {
    var a, b, c := Min(start, |vs|), Min(start + m, |vs|), Min(start + 2 * m, |vs|);
    assert vs[a..c] == vs[a..b] + vs[b..c];
  }

  lemma PageValues(items: Entries, page: int, perPage: nat)
    requires page >= 1
    ensures var start := PageStart(page, perPage);
      ValuesOf(ForPage(items, page, perPage)) == ValuesOf(items)[Min(start, |items|)..Min(start + perPage, |items|)]
  {
  }

  lemma NextPageStart(page: int, perPage: int)
    ensures PageStart(page + 1, perPage) == PageStart(page, perPage) + perPage
  {
    if page <= 0 {
      assert Times(1 - page, perPage) == Times(-page, perPage) + perPage;
    }
  }


  // ----- chunk -------------------------------------------------------------------

  /** The items cut into consecutive runs of `size` entries, the last one possibly shorter. */
  function Runs(items: Entries, size: nat): (r: seq<Entries>)
    requires size >= 1
    ensures Concat(r) == items
    ensures forall i :: 0 <= i < |r| ==> 1 <= |r[i]| <= size
    ensures forall i :: 0 <= i < |r| - 1 ==> |r[i]| == size
    decreases |items|
  {
    if |items| == 0 then []
    else if |items| <= size then [items]
    else
      var rest := Runs(items[size..], size);
      assert items == items[..size] + items[size..];
      [items[..size]] + rest
  }

  function Concat(runs: seq<Entries>): Entries
    decreases |runs|
  {
    if |runs| == 0 then [] else runs[0] + Concat(runs[1..])
  }

  /**
   * `chunk($size, $preserveKeys)`: a list of new collections, one per run of
   * `$size` entries. A chunk keeps the original keys when `$preserveKeys` is
   * set and is a plain list otherwise. PHP refuses a size below 1 (a warning
   * and `null` on older versions, an error on newer ones); that is `None`.
   */
  function Chunk(items: Entries, size: int, preserveKeys: bool): (r: Option<Entries>)
    ensures r.None? <==> size < 1
    ensures r.Some? ==> var runs := Runs(items, size);
      && |r.value| == |runs|
      && (forall i :: 0 <= i < |runs| ==> r.value[i].0 == I(i))
      && (forall i :: 0 <= i < |runs| && preserveKeys ==> r.value[i].1 == Coll(runs[i]))
      && (forall i :: 0 <= i < |runs| && !preserveKeys ==> r.value[i].1 == Coll(ListOf(ValuesOf(runs[i]))))
  {
    if size < 1 then None
    else
      var runs := Runs(items, size);
      Some(ListOf(seq(|runs|, i requires 0 <= i < |runs| =>
        Coll(if preserveKeys then runs[i] else ListOf(ValuesOf(runs[i]))))))
  }

  /** The items of the chunk collections, put one after another. */
  function ChunkContents(chunks: Entries): Entries
    decreases |chunks|
  {
    if |chunks| == 0 then []
    else (if chunks[0].1.Coll? then chunks[0].1.items else []) + ChunkContents(chunks[1..])
  }

  /** Chunking with keys kept loses and reorders nothing; without keys, the values still come in order. */
  lemma ChunkCovers(items: Entries, size: int)
    requires size >= 1
    ensures ChunkContents(Chunk(items, size, true).value) == items
    ensures ValuesOf(ChunkContents(Chunk(items, size, false).value)) == ValuesOf(items)
  {
    var runs := Runs(items, size);
    ChunkContentsRuns(runs, Chunk(items, size, true).value, true);
    ChunkContentsRuns(runs, Chunk(items, size, false).value, false);
  }

  lemma {:induction false} ChunkContentsRuns(runs: seq<Entries>, chunks: Entries, preserveKeys: bool)
    requires |chunks| == |runs|
    requires forall i :: 0 <= i < |runs| ==>
      chunks[i].1 == Coll(if preserveKeys then runs[i] else ListOf(ValuesOf(runs[i])))
    ensures preserveKeys ==> ChunkContents(chunks) == Concat(runs)
    ensures ValuesOf(ChunkContents(chunks)) == ValuesOf(Concat(runs))
    decreases |runs|
  {
    if |runs| > 0 {
      ChunkContentsRuns(runs[1..], chunks[1..], preserveKeys);
      assert ChunkContents(chunks) == chunks[0].1.items + ChunkContents(chunks[1..]);
      assert Concat(runs) == runs[0] + Concat(runs[1..]);
      assert ValuesOf(chunks[0].1.items) == ValuesOf(runs[0]);
      ValuesOfAppend(chunks[0].1.items, ChunkContents(chunks[1..]));
      ValuesOfAppend(runs[0], Concat(runs[1..]));
    }
  }
}
