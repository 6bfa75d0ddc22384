# A Dafny model of the Roquie collection class

The PHP class `Collection` wraps one PHP array, its `items`, and offers
dotted-path access (`dataGet`, `has`, `get`, `set` and the `ArrayAccess`
offsets built on them) and a set of transformations that mostly return a new
instance (`map`, `transform`, `filter`, `reject`, `reduce`, `groupBy`,
`keyBy`, `sort`, `sortBy`, `slice`, `take`, `forPage`, `chunk`, `keys`,
`values`, `reverse`, `merge`, ...). This project models that core as pure
Dafny functions over immutable values and proves what each operation
promises.

How PHP values appear in the model:

- `PhpValues.Value` is a PHP value: null, bool, int, string, an array
  (`Arr`, an ordered sequence of key/value entries) or an instance of the
  collection class (`Coll`, holding that instance's `items`).
- `PhpValues.Key` is an array key, an integer or a string. A numeric string
  key is stored as the integer it denotes (`NumericKeys.NormKey`).
- The integer keys PHP's list functions produce are renumbered from 0
  (`OrderedArray.RenumberFrom`). String keys travel with their values.
- A stateful method (`get`, `set`, `pop`, `shift`) returns the new `items`
  together with its result (`DottedPath.Access`, `StackOps.Step`). `sort`,
  `sortBy` and `transform` update `items` in place and return the instance,
  and `prepend` updates `items` in place and returns nothing; for these four
  the model returns the new `items`. The other methods return the `items` of
  the instance they build.
- Callbacks are Dafny functions. PHP reads their answers through its boolean
  cast (`PhpValues.Truthy`).
- `filter` iterates the instance itself, so its callback sees what the
  iterator's `current()` hands out: a new instance over the `(array)` cast of
  the element (`PhpValues.Wrap`). The kept entries are those wrappers.

Modules, one per area of the class:

- `Wrappers`: `Option`.
- `PhpValues`: values, truthiness, the `(array)` cast and the constructor's coercion.
- `NumericKeys`: string-to-integer key normalisation.
- `Explode`: `explode('.')` and its inverse.
- `OrderedArray`: PHP arrays as entry sequences (lookup, assignment, renumbering).
- `DottedPath`: `dataGet`, `has`, `get`, `set`.
- `PathFindings`: the two defects below and their corrections.
- `Pipeline`: `map`, `transform`, `filter`, `reject`, `reduce`.
- `Grouping`: `groupBy`, `keyBy`.
- `Sorting`: `sort`, `sortBy`, `sortByDesc`.
- `ArrayViews`: `keys`, `values`, `reverse`, `count`, `isEmpty`, `first`, `last`, `search`.
- `Slicing`: `slice`, `take`, `forPage`, `chunk`.
- `StackOps`: `prepend`, `pop`, `shift`, `merge`.

`offsetExists`, `offsetGet` and `offsetSet` only forward to `has`, `get` and
`set`, so the models of those three serve for them. `dataGet` reaches them
through `isset` and indexing when it walks into a collection instance.

Where the class's comments and its code disagree, the model follows the code:

- `get` on a dotted path returns a new instance over the value found, not the value.
- `set` on a dotted path rebinds `items` to the innermost array instead of writing through it.
- `filter` hands its callback the iterator's wrapper, not the raw element.

The first two are logged under Findings.

## Model

| member | source | states |
|---|---|---|
| PhpValues.Coerce | src/Collection.php:34-39 | The constructor's items: null gives none, an instance gives its items, an array stays, a scalar becomes a one-entry list. |
| PhpValues.CastArray | src/Collection.php:38 | The `(array)` cast is empty exactly for null and the empty array; a scalar becomes a one-entry list. |
| PhpValues.CoerceIdempotent | src/Collection.php:1038-1050 | Building an instance from an instance's items (or from that array) gives the same items back. |
| PhpValues.Wrap | src/Collection.php:1264-1271 | `current()` gives null exactly for null and the empty array; otherwise a new instance over the `(array)` cast. |
| NumericKeys.NormKey | src/Collection.php:97-102 | A segment becomes an integer key exactly when it is the canonical decimal form of a 64-bit integer, and that form is the segment itself. |
| NumericKeys.NormKeyOfIntToString | src/Collection.php:97-102 | Every 64-bit integer, written in decimal as a path segment, looks up the integer key it names. |
| Explode.Split | src/Collection.php:93 | `explode('.')` always yields at least one segment. |
| Explode.SplitShape | src/Collection.php:93 | There is one more segment than there are dots, and no segment contains a dot. |
| Explode.JoinSplit | src/Collection.php:93 | Joining the segments with dots gives back the key. |
| Explode.SplitJoin | src/Collection.php:626 | Splitting the join of dot-free segments gives back the segments. |
| OrderedArray.Put | src/Collection.php:643 | `$a[$k] = $v`: `k` now maps to `v`, other keys keep their values, a new key is appended, distinct keys stay distinct. |
| OrderedArray.RenumberFrom | src/Collection.php:706 | Re-indexing keeps the values and string keys; the i-th integer key becomes `from` plus the number of integer keys before it. |
| DottedPath.DataGet | src/Collection.php:89-129 | A null key returns the target; on plain arrays the result is the value at the dotted path, or the default when a segment is missing or a non-array is met. |
| DottedPath.DataWalk | src/Collection.php:93-126 | The loop over the segments: on plain arrays, the value at the remaining path, or the default when a segment is missing or a non-array is met. |
| DottedPath.Descend | src/Collection.php:406-414 | The shared walk ends at the path's value exactly when the path resolves; otherwise it stops at the deepest node reached. |
| DottedPath.Has | src/Collection.php:399-417 | False for empty items or a null key; true for a literal top-level key; otherwise true exactly when the dotted path resolves. |
| DottedPath.HasAgreesWithDataGet | src/Collection.php:406-414 | On non-empty plain arrays, once no top-level key matches the whole key, `has` holds exactly when the dotted path resolves, and then `dataGet` gives the value at the path; otherwise `dataGet` gives the default. |
| DottedPath.Get | src/Collection.php:328-345 | An empty key returns the items; a set top-level key returns its value; otherwise a hit leaves `items` at the value and returns a new instance over it, and a miss returns the default and leaves `items` at the deepest node reached. |
| DottedPath.Set | src/Collection.php:622-646 | An empty key replaces the items; otherwise the result is the array the walk ends at, with the last segment assigned and every other key kept. |
| DottedPath.SetSingleSegment | src/Collection.php:643-645 | With a dot-free key, `set` assigns into the top-level array and keeps everything else. |
| DottedPath.SetThroughNonArray | src/Collection.php:635-640 | When the path's prefix is missing or not an array, `set` leaves a one-entry array. |
| DottedPath.SetThenGetSameKey | src/Collection.php:332 | After `set` of a dot-free key, `get` returns the value through the `isset` shortcut; a null value misses it and gives an empty instance. |
| DottedPath.SetThenHas | src/Collection.php:404 | After `set` of a dot-free key, `has` reports the key, even for a null value. |
| PathFindings.SetDeep | src/Collection.php:632-637 | The deep assignment the comments describe: the value sits at the path, and at every level along it every key other than the next segment keeps its value (a missing or non-array level becomes a new array holding only the path). |
| PathFindings.SetIntended | src/Collection.php:622-646 | Corrected `set`: the value sits at the path in the whole array, and every level along the path keeps its other keys. |
| PathFindings.SetKeepsSibling | src/Collection.php:635-640 | `set("a.c", 2)` on `["a" => ["b" => 1]]` gives `["a" => ["b" => 1, "c" => 2]]` when corrected, and only `["b" => 1, "c" => 2]` as written. |
| PathFindings.GetIntended | src/Collection.php:330-344 | Corrected `get`: the same shortcuts, then the value at the path or the default, without touching `items`. |
| PathFindings.GetIntendedIsDataGet | src/Collection.php:89-129 | On plain arrays, behind the two shortcuts, corrected `get` is `dataGet`. |
| PathFindings.IntendedRoundTrip | src/Collection.php:328-346 | Reading back a path the corrected `set` wrote gives the value, unless a literal top-level key of the same name answers first. |
| PathFindings.SetDottedLosesTopLevel | src/Collection.php:640 | `set("a.b", 2)` on `["x" => 1]` leaves `["b" => 2]`; `get("a.b")` then misses, while the corrected pair returns 2. |
| PathFindings.GetTwiceDiffers | src/Collection.php:341 | `get("a.b")` on `["a" => ["b" => 1]]` returns an instance over `[1]` and leaves `items` as 1; the same call again misses. |
| Pipeline.Map | src/Collection.php:529-532 | A list as long as the items whose i-th value is the callback on the i-th value and key. |
| Pipeline.Transform | src/Collection.php:907-912 | Every key kept in order; each value replaced by the callback's result on it. |
| Pipeline.MapIsRenumberedTransform | src/Collection.php:529 | With a callback that ignores keys, `map` is `transform`'s values under list keys; `transform` keeps distinct keys distinct. |
| Pipeline.KeptPositions | src/Collection.php:1080-1084 | The kept positions are increasing and are exactly those whose wrapped value the callback accepts. |
| Pipeline.Filter | src/Collection.php:1077-1087 | The kept entries in order, each under its own key and holding the iterator's wrapper of its value; distinct keys stay distinct. |
| Pipeline.FilterAcceptAll | src/Collection.php:1082 | A callback that accepts everything keeps every key, in order. |
| Pipeline.Reject | src/Collection.php:683-691 | The entries the callback turns down, in order, under their own keys and as wrappers. |
| Pipeline.FilterRejectPartition | src/Collection.php:689 | `filter` and `reject` with one callback together keep as many entries as there are. |
| Pipeline.FoldAppend | src/Collection.php:674 | Folding a concatenation folds the second part from the fold of the first. |
| Pipeline.Reduce | src/Collection.php:672-675 | An empty collection gives the initial value as items; otherwise the last step applies the callback to the fold so far and the last value. |
| Grouping.GroupBy | src/Collection.php:353-370 | Buckets in order of first use; each bucket is the list of values sent to it, in source order. |
| Grouping.GroupSizesSum | src/Collection.php:364-367 | The bucket sizes add up to the number of entries. |
| Grouping.LastWith | src/Collection.php:387 | The value kept for a derived key is the last one that produced it. |
| Grouping.KeyBy | src/Collection.php:376-391 | One entry per derived key, at the key's first position, holding the last value that produced it. |
| Sorting.InsertionSortSorted | src/Collection.php:793 | Under a consistent order the reordering is sorted. |
| Sorting.PermutationKeepsLookup | src/Collection.php:826-834 | Reordering the entries keeps keys distinct and every key bound to its value. |
| Sorting.SortBy | src/Collection.php:806-837 | The same entries, ordered so that the derived values never decrease. |
| Sorting.ByDerivedTotal | src/Collection.php:846-849 | Descending order on derived values (`sortByDesc`), like ascending, is a total preorder. |
| Sorting.SortByKeepsPairs | src/Collection.php:821-824 | After `sortBy` every key still holds its own value. |
| Sorting.Sort | src/Collection.php:791-796 | The same entries; with a consistent comparator, every earlier value compares at most 0 to every later one. |
| Sorting.SortKeepsPairs | src/Collection.php:793 | `uasort` keeps every key bound to its value. |
| ArrayViews.Keys | src/Collection.php:475-478 | A list of the keys, in order, as values. |
| ArrayViews.Values | src/Collection.php:929-932 | A list of the values, in order. |
| ArrayViews.KeysValuesRebuild | src/Collection.php:477 | Pairing `keys()` with `values()` position by position rebuilds the items. |
| ArrayViews.ValuesIsIdentityMap | src/Collection.php:931 | `values()` is `map` with a callback that returns its value. |
| ArrayViews.ValuesIdempotent | src/Collection.php:930 | `values()` of a list is that list, whose keys are 0, 1, ... |
| ArrayViews.Reverse | src/Collection.php:704-707 | Values in the opposite order; string keys travel with them; integer keys are renumbered in the new order; distinct keys stay distinct. |
| ArrayViews.ReverseTwice | src/Collection.php:706 | Reversing twice gives the items back, renumbered. |
| ArrayViews.Count | src/Collection.php:972-975 | The number of entries, as many as `keys()` and `values()` list. |
| ArrayViews.IsEmpty | src/Collection.php:454-457 | True exactly when the items are falsy, which is exactly when the count is 0. |
| ArrayViews.First | src/Collection.php:242-255 | Without a callback the first value or null; with one, the first value whose key and value it accepts, or the default. |
| ArrayViews.Last | src/Collection.php:485-488 | The last value, or null for an empty collection. |
| ArrayViews.LastIsFirstOfReverse | src/Collection.php:487 | The last value is the first value of the reversed items. |
| ArrayViews.Search | src/Collection.php:716-729 | The key of the first entry whose value and key the callback accepts; none exactly when no entry is accepted. |
| ArrayViews.SearchStrict | src/Collection.php:718-721 | Strict `array_search`: the key of the first identical value; none exactly when the value is absent. |
| ArrayViews.SearchAgreesWithFirst | src/Collection.php:723-726 | The key `search` finds looks up the value `first` returns with the same test. |
| ArrayViews.SearchStrictIsSearch | src/Collection.php:720 | Strict search is search with a callback testing identity. |
| Slicing.SliceBounds | src/Collection.php:763 | `array_slice`'s window: offset and length clamped to the array, negative ones counted from the end. |
| Slicing.Slice | src/Collection.php:761-764 | The entries in the window, in order; string keys kept, integer keys kept only with `preserveKeys`, otherwise renumbered. |
| Slicing.SliceSplit | src/Collection.php:762 | A slice up to a cut and a slice from it, both keeping keys, put the items back together. |
| Slicing.RenumberedSliceIsSlice | src/Collection.php:764 | Renumbering a key-keeping slice gives the renumbering slice. |
| Slicing.Take | src/Collection.php:894-899 | The first `limit` values, the last `-limit` for a negative limit, or all of them without a limit; in each case exactly the renumbering `slice` the method delegates to, so string keys stay and integer keys become 0, 1, ... |
| Slicing.PageStartIsProduct | src/Collection.php:554 | The page offset is `(page - 1) * perPage` for every page and page size. |
| Slicing.ForPage | src/Collection.php:552-555 | For every page, the renumbering `slice` of `perPage` entries from `(page - 1) * perPage` (counted from the end for page 0 and below); from page 1 on, the values from that offset, clamped to the array. |
| Slicing.PagesAdjoin | src/Collection.php:553 | Two consecutive pages together are the window of twice the page size. |
| Slicing.Runs | src/Collection.php:777 | The runs of `size` entries concatenate to the items; all are full except perhaps the last. |
| Slicing.Chunk | src/Collection.php:773-783 | None exactly for a size below 1; otherwise a list of instances, one per run, keeping keys or holding plain lists. |
| Slicing.ChunkCovers | src/Collection.php:775-780 | The chunks' items concatenate to the items (with keys kept), or to their values. |
| StackOps.Prepend | src/Collection.php:573-576 | The value first under key 0; the old values follow, string keys kept, integer keys renumbered from 1. |
| StackOps.Pop | src/Collection.php:562-565 | Returns the last value (null when empty) and drops the last entry. |
| StackOps.PopAfterAppend | src/Collection.php:564 | Popping after appending gives the appended value and the old items back. |
| StackOps.Shift | src/Collection.php:736-739 | Returns a new instance over the first value and leaves the rest renumbered. |
| StackOps.ShiftAfterPrepend | src/Collection.php:738 | Shifting after prepending gives the value (wrapped) and the old items renumbered. |
| StackOps.MergeInto | src/Collection.php:542 | Copying entries the `array_merge` way: integer-keyed values appended in order, string keys overwritten or added. |
| StackOps.MergeIntoKeys | src/Collection.php:542 | The merged keys come in first-seen order: the destination's keys, then the source's, each string key kept and each integer key renumbered after the destination's integer keys (`Rekeyed`). |
| StackOps.Merge | src/Collection.php:540-543 | Distinct keys; the integer-keyed values are this collection's then the other's, under keys 0, 1, ... in order; each string key holds the other's value if it has one, else this one's; the key sequence is that of both arrays with integer keys renumbered from 0, each key where it first occurs. |
| StackOps.MergeKeepsOrder | src/Collection.php:542 | `array_merge(["a" => 1, 0 => 2], [])` keeps the keys in the order `"a"`, `0`. |

## Left out

- The transformations and views (`count`, `map`, `keys`, `filter`, `slice`, `merge`, ...) take `items` to be an array. `set` with an empty or null key (also `$c[] = $v` through `offsetSet`) and `get`'s walk can leave a scalar or an instance in `items`; what PHP's array functions do with such a state (warnings, `TypeError`, `count` of a scalar) is not modelled.
- I/O, JSON and serialisation, and the iteration cursor (`each`, `next`, `key`, `valid`, `rewind`) are outside the model.
- `rm`, `forget`, `pull`, `clean`, `flatten`, `push`, `implode` and `splice` are not part of this model.
- `random` and `shuffle` draw on randomness and are not part of this model.
- `contains`, `unique`, `diff`, `intersect`, `reject` by value and `where` with `$strict = false` use PHP's loose comparison, and `sum` relies on PHP's numeric type juggling; neither is modelled, and `where` is otherwise outside this model.
- `search` with a non-strict value (loose `array_search`) is left out for the same reason.
- `offsetUnset` forwards to `rm`, which is left out.
- Closures as defaults are not modelled: `value($default)` calls a closure default, and the model takes defaults as plain values.
- PHP integers are unbounded in the model. The 64-bit range appears only in key normalisation. Overflow to float in `forPage`'s offset is not modelled.
- DottedPath.DataGet: the contract covers plain targets only. A walk through a collection instance follows `has` and `get` in the body, but nothing is stated about it. The instance `get` mutates is a copy, so nested-object aliasing is not modelled. `is_object` targets other than collection instances give the default.
- DottedPath.DataWalk: for the same reason, its contract covers plain targets only.
- DottedPath.Set: `items` that are neither an array nor null are treated as an empty array. A collection instance left in `items` by `set(null, $instance)` or by `get`'s walk receives the assignment through its `offsetSet` and `set` (src/Collection.php:1006-1008), and PHP returns that instance's entries with the key set; the model drops those entries. `false` is silently turned into an array before PHP 8.1, which the model matches; other scalars warn or throw.
- DottedPath.Has: non-array `items` (left behind by `get`) are treated as having no keys.
- DottedPath.Get: non-array `items` are treated as having no keys.
- Grouping.GroupBy: the callback returns an array key directly. PHP's conversion of other callback results (floats, bools, null) to keys is folded into the callback. The string form (a field name through `valueRetriever`) is not modelled.
- Grouping.KeyBy: the same conversion is folded into the callback, and the string form is not modelled.
- Sorting.SortBy: derived values are integers compared numerically. The `$options` flags and PHP's comparison of mixed types are not modelled. Stability depends on the PHP version (the sorts are stable from PHP 8.0) and is not modelled: the model only promises some ordered permutation.
- Sorting.Sort: ordering is promised only when the comparator is a consistent total preorder. For other comparators PHP's result depends on its algorithm.
- Slicing.Chunk: `None` stands for `array_chunk` refusing a size below 1. PHP 5 and 7 warn and the method returns an empty collection; PHP 8 throws.
- StackOps.Merge: the argument is taken as an array or an instance's items. `Arrayable` objects converted through `toArray()`, and scalars, where `array_merge` warns or throws, are not modelled.
- StackOps.Merge: string keys are described under the assumption that both arrays have distinct keys, which every PHP array has.
- ArrayViews.Search: `false` for "not found" is modelled as `None`.
- ArrayViews.SearchStrict: strict identity on collection instances compares their items, not object identity.

## Findings

| source | as written | input that shows it | evidently intended | confidence | as-written member | corrected member |
|---|---|---|---|---|---|---|
| src/Collection.php:628-643 | `set` rebinds `$this->items` by reference to each inner array on the way down, so after a dotted `set` the collection holds only the innermost array | `set("a.b", 2)` on `["x" => 1]` leaves `["b" => 2]`; `get("a.b")` then returns the default | a deep assignment that keeps every level above, as the loop's comment says, so that `get("a.b")` returns 2 | not executed | PathFindings.SetDottedLosesTopLevel | PathFindings.SetIntended |
| src/Collection.php:334-344 | `get` walks by assigning each visited node to `$this->items`, so a dotted read replaces the collection's contents | `get("a.b")` on `["a" => ["b" => 1]]` leaves `items` as `1`; the same call again returns the default | a read that leaves `items` unchanged and returns the value at the path | not executed | PathFindings.GetTwiceDiffers | PathFindings.GetIntended |
