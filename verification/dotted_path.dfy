/**
 * Dotted-path access on a collection: `dataGet`, `has`, `get` and `set`.
 * A key is split on "." and each segment, after PHP's numeric-string
 * normalisation, selects an entry one level deeper.
 */
module DottedPath {
  import opened Wrappers
  import opened PhpValues
  import opened NumericKeys
  import opened Explode
  import opened OrderedArray

  /** The collection's `items` after a call, and the value the call returned. */
  datatype Access = Access(items: Value, result: Value)

  /** `empty($key)` for a key argument: null, "" and "0". */
  predicate EmptyKey(key: Option<string>) {
    key.None? || key.value == "" || key.value == "0"
  }

  /**
   * The reference resolver: the value reached by following `segs` through
   * nested PHP arrays, or nothing when a segment is missing or a
   * non-array is met before the path ends.
   */
  function ValueAt(node: Value, segs: seq<string>): Option<Value>
    decreases |segs|
  {
    if |segs| == 0 then Some(node)
    else if !node.Arr? then None
    else match Lookup(node.entries, NormKey(segs[0]))
      case None => None
      case Some(child) => ValueAt(child, segs[1..])
  }

  /** A value with no collection instance anywhere inside it. */
  predicate Plain(v: Value)
    decreases v
  {
    match v
    case Arr(e) => forall kv :: kv in e ==> Plain(kv.1)
    case Coll(_) => false
    case _ => true
  }

  /** Following a path whose first segment leads from `node` to `child`. */
  lemma ValueAtPrefix(node: Value, child: Value, segs: seq<string>, j: nat)
    requires |segs| >= 1 && 1 <= j <= |segs|
    requires node.Arr? && Lookup(node.entries, NormKey(segs[0])) == Some(child)
    ensures ValueAt(node, segs[..j]) == ValueAt(child, segs[1..][..j - 1])
  {
    assert segs[..j][1..] == segs[1..][..j - 1];
  }

  // ----- dataGet -----------------------------------------------------------

  /**
   * `dataGet($target, $key, $default)`: a null key gives the target back;
   * otherwise each segment is looked up with `array_key_exists` in an
   * array, or through `isset`/indexing (the class's `has` and `get`) in a
   * collection instance, and any other node gives the default.
   */
  function DataGet(target: Value, key: Option<string>, default: Value): (r: Value)
    ensures key.None? ==> r == target
    ensures key.Some? && Plain(target) ==> r == ValueAt(target, Split(key.value)).GetOr(default)
  {
    if key.None? then target else DataWalk(target, Split(key.value), default)
  }

  /** The loop of `dataGet` over the remaining segments. */
  function DataWalk(target: Value, segs: seq<string>, default: Value): (r: Value)
    ensures Plain(target) ==> r == ValueAt(target, segs).GetOr(default)
    decreases |segs|
  {
    if |segs| == 0 then target
    else
      match target
      case Arr(e) =>
        (match Lookup(e, NormKey(segs[0]))
         case None => default
         case Some(child) => DataWalk(child, segs[1..], default))
      case Coll(items) =>
        if Has(Arr(items), Some(segs[0])) then
          DataWalk(Get(Arr(items), Some(segs[0]), Null).result, segs[1..], default)
        else
          default
      case _ => default
  }

  // ----- the walk shared by has and get ------------------------------------

  /** Where the walk of `has` and `get` ends. */
  datatype Walk = Reached(node: Value) | Stopped(at: Value)

  /**
   * The loop of `has` and `get`: descend while the current node is an
   * array that holds the next segment. It reaches the end exactly when
   * the path resolves, and otherwise stops at the deepest node on the
   * path, the one lacking the next segment.
   */
  function Descend(node: Value, segs: seq<string>): (w: Walk)
    ensures w.Reached? <==> ValueAt(node, segs).Some?
    ensures w.Reached? ==> ValueAt(node, segs) == Some(w.node)
    ensures w.Stopped? ==> exists j :: 0 <= j < |segs| && ValueAt(node, segs[..j]) == Some(w.at) && ValueAt(node, segs[..j + 1]).None?
    decreases |segs|
  {
    if |segs| == 0 then Reached(node)
    else if !node.Arr? || Lookup(node.entries, NormKey(segs[0])).None? then
      assert segs[..0] == [] && segs[..1][1..] == [];
      Stopped(node)
    else
      var child := Lookup(node.entries, NormKey(segs[0])).value;
      var w := Descend(child, segs[1..]);
      StoppedDeeper(node, child, segs, w);
      w
  }

  lemma StoppedDeeper(node: Value, child: Value, segs: seq<string>, w: Walk)
    requires |segs| >= 1 && node.Arr? && Lookup(node.entries, NormKey(segs[0])) == Some(child)
    requires w.Stopped? ==> exists j :: 0 <= j < |segs| - 1 && ValueAt(child, segs[1..][..j]) == Some(w.at) && ValueAt(child, segs[1..][..j + 1]).None?
    ensures w.Stopped? ==> exists j :: 0 <= j < |segs| && ValueAt(node, segs[..j]) == Some(w.at) && ValueAt(node, segs[..j + 1]).None?
  {
    if w.Stopped? {
      var j :| 0 <= j < |segs| - 1 && ValueAt(child, segs[1..][..j]) == Some(w.at) && ValueAt(child, segs[1..][..j + 1]).None?;
      ValueAtPrefix(node, child, segs, j + 1);
      ValueAtPrefix(node, child, segs, j + 2);
      var k := j + 1;
      assert 0 <= k < |segs| && ValueAt(node, segs[..k]) == Some(w.at) && ValueAt(node, segs[..k + 1]).None?;
    }
  }

  // ----- has ---------------------------------------------------------------

  /** `array_key_exists($key, $items)`: the whole key, dots included, names a top-level entry. */
  predicate TopLevel(items: Value, key: string) {
    items.Arr? && Lookup(items.entries, NormKey(key)).Some?
  }

  /**
   * `has($key)`: false for empty items or a null key; true when the whole
   * key is a top-level key (even one holding null); otherwise true
   * exactly when every segment resolves through nested arrays.
   */
  function Has(items: Value, key: Option<string>): (r: bool)
    ensures !Truthy(items) || key.None? ==> !r
    ensures Truthy(items) && key.Some? && TopLevel(items, key.value) ==> r
    ensures Truthy(items) && key.Some? && !TopLevel(items, key.value) ==>
      (r <==> ValueAt(items, Split(key.value)).Some?)
  {
    if !Truthy(items) || key.None? then false
    else if TopLevel(items, key.value) then true
    else Descend(items, Split(key.value)).Reached?
  }

  // ----- get ---------------------------------------------------------------

  /** `isset($items[$key])`: the top-level entry, when it exists and is not null. */
  function IssetValue(items: Value, key: string): Option<Value> {
    if !items.Arr? then None
    else
      match Lookup(items.entries, NormKey(key))
      case Some(v) => if v != Null then Some(v) else None
      case None => None
  }

  /**
   * `get($key, $default)`. An empty key returns the whole items. A
   * literal top-level key with a non-null value returns that value as it
   * is. Otherwise the walk assigns every node it visits to `items`: on
   * success `items` ends as the node at the path and the result is a new
   * instance built from it; on a miss the result is the default and
   * `items` is left as the deepest node the walk reached.
   */
  function Get(items: Value, key: Option<string>, default: Value): (r: Access)
    ensures EmptyKey(key) ==> r == Access(items, items)
    ensures !EmptyKey(key) && IssetValue(items, key.value).Some? ==>
      r == Access(items, IssetValue(items, key.value).value)
    ensures !EmptyKey(key) && IssetValue(items, key.value).None? ==>
      var segs := Split(key.value);
      match ValueAt(items, segs)
      case Some(n) => r == Access(n, Coll(Coerce(n)))
      case None =>
        && r.result == default
        && exists j :: 0 <= j < |segs| && ValueAt(items, segs[..j]) == Some(r.items) && ValueAt(items, segs[..j + 1]).None?
  {
    if EmptyKey(key) then Access(items, items)
    else if IssetValue(items, key.value).Some? then Access(items, IssetValue(items, key.value).value)
    else
      match Descend(items, Split(key.value))
      case Reached(n) => Access(n, Coll(Coerce(n)))
      case Stopped(at) => Access(at, default)
  }

  // ----- set ---------------------------------------------------------------

  /** The array `set` assigns into at the top: a null `items` becomes an array on assignment. */
  function Container(items: Value): Entries {
    if items.Arr? then items.entries else []
  }

  /**
   * The array `set`'s loop is left bound to after walking `prefix` from
   * `top`: the array at that path if there is one, and an empty array when
   * some level on the way is missing or is not an array.
   */
  function ContainerAt(top: Entries, prefix: seq<string>): Entries {
    match ValueAt(Arr(top), prefix)
    case Some(Arr(e)) => e
    case _ => []
  }

  lemma {:induction false} ContainerAtEmpty(segs: seq<string>)
    ensures ContainerAt([], segs) == []
  {
  }

  lemma ContainerAtStep(top: Entries, segs: seq<string>, inner: Entries)
    requires |segs| >= 2
    requires inner == match Lookup(top, NormKey(segs[0])) case Some(Arr(e)) => e case _ => []
    ensures ContainerAt(top, segs[..|segs| - 1]) == ContainerAt(inner, segs[1..][..|segs| - 2])
  {
    ContainerAtShift(top, segs, inner, |segs| - 1);
  }

  /**
   * Below the top level, the array at a prefix of `segs` is the array at
   * the rest of that prefix inside the first level `set` would walk into.
   */
  lemma ContainerAtShift(top: Entries, segs: seq<string>, inner: Entries, j: nat)
    requires 1 <= j <= |segs|
    requires inner == match Lookup(top, NormKey(segs[0])) case Some(Arr(e)) => e case _ => []
    ensures ContainerAt(top, segs[..j]) == ContainerAt(inner, segs[1..][..j - 1])
  {
    var rest := segs[1..][..j - 1];
    match Lookup(top, NormKey(segs[0]))
    case None =>
      ContainerAtEmpty(rest);
    case Some(child) =>
      ValueAtPrefix(Arr(top), child, segs, j);
      if !child.Arr? {
        ContainerAtEmpty(rest);
      }
  }

  /**
   * The loop of `set`: at each level but the last, a missing or non-array
   * entry is replaced by [] and `items` is rebound to that entry; the last
   * segment is then assigned in the innermost array, which is all that
   * remains of `items`.
   */
  function SetPath(top: Entries, segs: seq<string>, v: Value): (r: Entries)
    requires |segs| >= 1
    ensures r == Put(ContainerAt(top, segs[..|segs| - 1]), NormKey(segs[|segs| - 1]), v)
    decreases |segs|
  {
    var k := NormKey(segs[0]);
    if |segs| == 1 then
      assert segs[..0] == [];
      Put(top, k, v)
    else
      var inner := match Lookup(top, k) case Some(Arr(e)) => e case _ => [];
      ContainerAtStep(top, segs, inner);
      SetPath(inner, segs[1..], v)
  }

  /**
   * `set($key, $value)`. An empty key replaces `items` by the value.
   * Otherwise `items` ends as the innermost array of the path (the array
   * at the path's prefix, or a fresh empty one when the prefix does not
   * lead to an array) with the last segment assigned: that key maps to
   * the value, every other key of that array is unchanged, an existing
   * key keeps its position and a new one is appended. The old top level
   * is not kept. The result is a new instance over the new `items`.
   */
  function Set(items: Value, key: Option<string>, v: Value): (r: Access)
    ensures EmptyKey(key) ==> r == Access(v, Coll(Coerce(v)))
    ensures !EmptyKey(key) ==> SetAlong(r, items, Split(key.value), v)
  {
    if EmptyKey(key) then Access(v, Coll(Coerce(v)))
    else
      var segs := Split(key.value);
      var e := SetPath(Container(items), segs, v);
      SetPathAssigns(items, segs, v);
      Access(Arr(e), Coll(e))
  }

  /**
   * `r` is the outcome of `set` along `segs`: a new instance over an array
   * that is the container the walk ends at, after the last segment (as a
   * PHP key) is assigned `v`.
   */
  ghost predicate SetAlong(r: Access, items: Value, segs: seq<string>, v: Value) {
    && |segs| >= 1
    && r.items.Arr?
    && r.result == Coll(r.items.entries)
    && AssignedInto(r.items.entries, ContainerAt(Container(items), segs[..|segs| - 1]), NormKey(segs[|segs| - 1]), v)
  }

  /**
   * `r` is the array `inner` after `$inner[$k] = $v`: `k` maps to `v`,
   * every other key keeps its value, and the key order is that of `inner`
   * with `k` appended if it was new.
   */
  ghost predicate AssignedInto(r: Entries, inner: Entries, k: Key, v: Value) {
    && Lookup(r, k) == Some(v)
    && (forall k' :: k' != k ==> Lookup(r, k') == Lookup(inner, k'))
    && KeysOf(r) == (if k in KeysOf(inner) then KeysOf(inner) else KeysOf(inner) + [k])
  }

  lemma SetPathAssigns(items: Value, segs: seq<string>, v: Value)
    requires |segs| >= 1
    ensures var e := SetPath(Container(items), segs, v);
      SetAlong(Access(Arr(e), Coll(e)), items, segs, v)
  {
    var inner := ContainerAt(Container(items), segs[..|segs| - 1]);
    var k := NormKey(segs[|segs| - 1]);
    assert SetPath(Container(items), segs, v) == Put(inner, k, v);
  }

  // ----- properties --------------------------------------------------------

  /** With a key of one segment, `set` assigns into the top level and keeps everything else. */
  lemma SetSingleSegment(items: Value, k: string, v: Value)
    requires !EmptyKey(Some(k)) && NoDot(k)
    ensures Set(items, Some(k), v).items == Arr(Put(Container(items), NormKey(k), v))
  {
    SplitNoDot(k);
  }

  /** A dotted `set` whose prefix does not lead to an array leaves a one-entry array. */
  lemma SetThroughNonArray(items: Value, k: string, v: Value)
    requires !EmptyKey(Some(k))
    requires var segs := Split(k);
      (!ValueAt(Arr(Container(items)), segs[..|segs| - 1]).Some?
       || !ValueAt(Arr(Container(items)), segs[..|segs| - 1]).value.Arr?)
    ensures Set(items, Some(k), v).items == Arr([(NormKey(Split(k)[|Split(k)| - 1]), v)])
  {
  }

  /**
   * Reading back a one-segment key just written: the value comes back
   * through the `isset` shortcut, except that a null value fails `isset`,
   * so the walk runs, leaves null in `items` and returns an empty instance.
   */
  lemma SetThenGetSameKey(items: Value, k: string, v: Value, d: Value)
    requires !EmptyKey(Some(k)) && NoDot(k)
    ensures var s := Set(items, Some(k), v).items;
      Get(s, Some(k), d) == (if v == Null then Access(Null, Coll([])) else Access(s, v))
  {
    SplitNoDot(k);
  }

  /** After writing a one-segment key, `has` reports it, even when the value is null. */
  lemma SetThenHas(items: Value, k: string, v: Value)
    requires !EmptyKey(Some(k)) && NoDot(k)
    ensures Has(Set(items, Some(k), v).items, Some(k))
  {
    SplitNoDot(k);
  }

  /**
   * On plain arrays, `has` and `dataGet` agree: when the whole key is not a
   * top-level key, `has` holds exactly when `dataGet` does not fall back to
   * the default, and then `dataGet` returns the value at the path.
   */
  lemma HasAgreesWithDataGet(items: Value, k: string, d: Value)
    requires Plain(items) && Truthy(items) && !TopLevel(items, k)
    ensures Has(items, Some(k)) ==> DataGet(items, Some(k), d) == ValueAt(items, Split(k)).value
    ensures !Has(items, Some(k)) ==> DataGet(items, Some(k), d) == d
  {
  }
}
