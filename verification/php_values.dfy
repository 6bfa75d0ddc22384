/**
 * The PHP values a collection holds: scalars, ordered arrays and
 * instances of the collection class itself.
 */
module PhpValues {

  /** A PHP array key. Numeric strings never appear as `S`: PHP stores them as `I`. */
  datatype Key = I(n: int) | S(s: string)

  /**
   * A PHP value. `Arr` is a PHP array, an ordered sequence of key/value
   * entries with distinct keys. `Coll` is an instance of the collection
   * class; its field is the instance's `items` array.
   */
  datatype Value =
    | Null
    | Bool(b: bool)
    | Int(i: int)
    | Str(s: string)
    | Arr(entries: seq<(Key, Value)>)
    | Coll(items: seq<(Key, Value)>)

  /** The entries of a PHP array, in order. */
  type Entries = seq<(Key, Value)>

  /** How PHP hands an array key to code that reads it as a value. */
  function KeyValue(k: Key): Value {
    match k
    case I(n) => Int(n)
    case S(s) => Str(s)
  }

  /** PHP's conversion to boolean; `empty($x)` is its negation. */
  predicate Truthy(v: Value) {
    match v
    case Null => false
    case Bool(b) => b
    case Int(i) => i != 0
    case Str(s) => s != "" && s != "0"
    case Arr(e) => |e| > 0
    case Coll(_) => true
  }

  /** The name PHP gives the protected `items` property when an instance is cast to an array. */
  const MangledItems: string := "\0*\0items"

  /**
   * PHP's `(array)` cast: null becomes the empty array, an array stays as
   * it is, a scalar becomes a one-entry list, and an object becomes the
   * array of its properties.
   */
  function CastArray(v: Value): (r: Entries)
    ensures |r| == 0 <==> v == Null || v == Arr([])
    ensures v.Bool? || v.Int? || v.Str? ==> r == [(I(0), v)]
  {
    match v
    case Null => []
    case Arr(e) => e
    case Coll(items) => [(S(MangledItems), Arr(items))]
    case _ => [(I(0), v)]
  }

  /**
   * The constructor's coercion of its argument into the new instance's
   * items: null gives no items, another instance gives its items, and
   * anything else goes through the `(array)` cast.
   */
  function Coerce(v: Value): (r: Entries)
    ensures v.Null? ==> r == []
    ensures v.Arr? ==> r == v.entries
    ensures v.Coll? ==> r == v.items
    ensures v.Bool? || v.Int? || v.Str? ==> r == [(I(0), v)]
  {
    match v
    case Null => []
    case Coll(items) => items
    case _ => CastArray(v)
  }

  /**
   * What the iterator's `current()` hands out for an element: a new
   * instance over the element's `(array)` cast, or null when that cast is
   * empty.
   */
  function Wrap(v: Value): (r: Value)
    ensures r == Null <==> v == Null || v == Arr([])
    ensures !v.Coll? && r != Null ==> r == Coll(Coerce(v))
    ensures v.Coll? ==> r == Coll([(S(MangledItems), Arr(v.items))])
  {
    var cast := CastArray(v);
    if |cast| == 0 then Null else Coll(cast)
  }

  /** Building an instance from an instance's items gives back the same items. */
  lemma CoerceIdempotent(v: Value)
    ensures Coerce(Coll(Coerce(v))) == Coerce(v)
    ensures Coerce(Arr(Coerce(v))) == Coerce(v)
  {
  }
}
