/**
 * Index values handed to the multi-dimensional containers, and the checks
 * that turn them into integer tuples or reject them with TypeError.
 */
module Keys {
  import opened Wrappers

  /** One component of an index tuple: an int, a bool (a subclass of int), or anything else. */
  datatype Part = IntPart(n: int) | BoolPart(b: bool) | OtherPart

  /** An index: a bare int or bool, a tuple, or any other value. */
  datatype Key = IntKey(n: int) | BoolKey(b: bool) | TupleKey(parts: seq<Part>) | OtherKey

  /** A key the containers refuse: the TypeError their index checks raise. */
  datatype BadKey = TypeError

  /** The integer a component stands for when isinstance(x, int) holds (True is 1, False is 0). */
  function PartValue(p: Part): int
    requires !p.OtherPart?
  {
    match p
    case IntPart(n) => n
    case BoolPart(b) => if b then 1 else 0
  }

  /**
   * The StretchyND check: the key must be a tuple of exactly dim components,
   * each an instance of int (bools pass); otherwise TypeError, shown as None.
   */
  function IntTuple(key: Key, dim: int): (r: Option<seq<int>>)
    ensures r.Some? <==> key.TupleKey? && |key.parts| == dim
                         && forall k :: 0 <= k < dim ==> !key.parts[k].OtherPart?
    ensures r.Some? ==> |r.value| == dim
                        && forall k :: 0 <= k < dim ==> r.value[k] == PartValue(key.parts[k])
  {
    if key.TupleKey? && |key.parts| == dim && forall k :: 0 <= k < dim ==> !key.parts[k].OtherPart? then
      Some(seq(dim, k requires 0 <= k < dim => PartValue(key.parts[k])))
    else None
  }

  /**
   * The Space2D/Space3D check: a tuple of exactly dim components whose type
   * is int itself (type(x) != int refuses bools); otherwise TypeError.
   */
  function ExactIntTuple(key: Key, dim: int): (r: Option<seq<int>>)
    ensures r.Some? <==> key.TupleKey? && |key.parts| == dim
                         && forall k :: 0 <= k < dim ==> key.parts[k].IntPart?
    ensures r.Some? ==> |r.value| == dim && forall k :: 0 <= k < dim ==> r.value[k] == key.parts[k].n
  {
    if key.TupleKey? && |key.parts| == dim && forall k :: 0 <= k < dim ==> key.parts[k].IntPart? then
      Some(seq(dim, k requires 0 <= k < dim => key.parts[k].n))
    else None
  }

  /** isinstance(key, int): a bare int, or a bool standing for 1 or 0. */
  function AsInt(key: Key): (r: Option<int>)
    ensures r.Some? <==> key.IntKey? || key.BoolKey?
    ensures key.IntKey? ==> r == Some(key.n)
    ensures key.BoolKey? ==> r == Some(if key.b then 1 else 0)
  {
    match key
    case IntKey(n) => Some(n)
    case BoolKey(b) => Some(if b then 1 else 0)
    case _ => None
  }
}
