/**
 * How the package entry points pick a container: the nesting depth of the
 * content, the explicit dim that overrides it, and the 1-D versus N-D choice.
 */
module Dimensions {
  import opened Wrappers

  /** An item of the content: a list or tuple of further items, or anything else. */
  datatype Value = Nested(items: seq<Value>) | Scalar

  /** The content argument of array(). */
  datatype Content =
    | NoContent                // None
    | Text(s: string)          // a str, which is a Sequence but never nested
    | Sequence(items: seq<Value>)  // any other Sequence: a list, a tuple, a range, ...
    | NotSequence              // an iterable or object that is not a Sequence

  /** The offset argument of array(): an int, or a tuple or list of ints. */
  datatype OffsetArg = IntOffset(k: int) | ListOffset(ks: seq<int>)

  /** The assertions array() makes, in the order it makes them. */
  datatype AssertionError = NonPositiveDim | OffsetNotInt | ContentNotSequence

  /** Which container array()/empty() constructs. */
  datatype Container = OneDim | MultiDim(dim: int)

  /** The largest element of a non-empty list, as max(). */
  function MaxOf(s: seq<int>): (m: int)
    requires |s| > 0
    ensures forall k :: 0 <= k < |s| ==> s[k] <= m
    ensures exists k :: 0 <= k < |s| && s[k] == m
  {
    if |s| == 1 then s[0]
    else
      var rest := MaxOf(s[1..]);
      assert forall k :: 1 <= k < |s| ==> s[k] == s[1..][k - 1];
      if s[0] >= rest then s[0] else rest
  }

  /** Every item is a list or tuple. */
  predicate AllNested(content: seq<Value>) {
    forall k :: 0 <= k < |content| ==> content[k].Nested?
  }

  /**
   * The depth _array_dim(content, dim) computes: dim if content is empty or
   * holds any item that is not a list or tuple, otherwise the largest depth
   * of its items one level further down.
   */
  function Depth(content: seq<Value>, dim: int): int
    decreases content, 1
  {
    if content == [] || !AllNested(content) then dim
    else MaxOf(Depths(content, dim))
  }

  /** The depths of the items of an all-nested content, one level down. */
  function Depths(content: seq<Value>, dim: int): (ds: seq<int>)
    requires AllNested(content)
    ensures |ds| == |content|
    decreases content, 0
  {
    seq(|content|, k requires 0 <= k < |content| => Depth(content[k].items, dim + 1))
  }

  /**
   * _array_dim(content, dim): the loop over the items with its early return
   * at the first item that is not a list or tuple; the depths of the items
   * before it are computed and discarded.
   */
  method ArrayDim(content: seq<Value>, dim: int) returns (r: int)
    ensures r == Depth(content, dim)
    decreases content
  {
    var dims: seq<int> := [];
    var i := 0;
    while i < |content|
      invariant 0 <= i <= |content| && |dims| == i
      invariant forall k :: 0 <= k < i ==> content[k].Nested? && dims[k] == Depth(content[k].items, dim + 1)
    {
      var item := content[i];
      if item.Nested? {
        var d := ArrayDim(item.items, dim + 1);
        dims := dims + [d];
      } else {
        return dim;
      }
      i := i + 1;
    }
    if dims != [] {
      assert dims == Depths(content, dim);
      return MaxOf(dims);
    }
    return dim;
  }

  /** The depth is never below the starting dim; empty content and any non-list item give dim itself. */
  lemma {:induction false} DepthAtLeast(content: seq<Value>, dim: int)
    ensures Depth(content, dim) >= dim
    ensures content == [] || !AllNested(content) ==> Depth(content, dim) == dim
    decreases content
  {
    if content != [] && AllNested(content) {
      var ds := Depths(content, dim);
      DepthAtLeast(content[0].items, dim + 1);
      assert ds[0] >= dim + 1;
    }
  }

  /**
   * With at least one item and every item a list or tuple, the depth is
   * the largest item depth: at least each of them and equal to one.
   */
  lemma DepthIsMaximum(content: seq<Value>, dim: int)
    requires content != [] && AllNested(content)
    ensures forall k :: 0 <= k < |content| ==> Depth(content[k].items, dim + 1) <= Depth(content, dim)
    ensures exists k :: 0 <= k < |content| && Depth(content, dim) == Depth(content[k].items, dim + 1)
  {
    var ds := Depths(content, dim);
    assert forall k :: 0 <= k < |content| ==> ds[k] == Depth(content[k].items, dim + 1);
    var k :| 0 <= k < |ds| && ds[k] == MaxOf(ds);
    assert Depth(content, dim) == Depth(content[k].items, dim + 1);
  }

  /** A list nested d levels deep, with a single scalar at the bottom. */
  function Tower(d: nat): Value {
    if d == 0 then Scalar else Nested([Tower(d - 1)])
  }

  /** The depth of a tower is its height: _array_dim([[...[x]...]]) counts the brackets. */
  lemma {:induction false} TowerDepth(d: nat, dim: int)
    ensures Depth([Tower(d)], dim) == dim + d
  {
    if d > 0 {
      TowerDepth(d - 1, dim + 1);
      assert Depths([Tower(d)], dim) == [Depth([Tower(d - 1)], dim + 1)];
    }
  }

  /**
   * array(content, offset=..., dim=...): an explicit dim wins; otherwise
   * empty or non-Sequence content or a str means 1, and anything else the
   * depth of the content. A dim below 1, a list offset for one dimension,
   * and content that is not a Sequence for more are AssertionErrors.
   */
  function Array(content: Content, offset: OffsetArg, dim: Option<int>): (r: Result<Container, AssertionError>)
    ensures r.Success? <==>
      var d := if dim.Some? then dim.value
               else if content.Sequence? && content.items != [] then Depth(content.items, 1) else 1;
      d > 0 && (d == 1 ==> offset.IntOffset?) && (d > 1 ==> !content.NotSequence?)
    ensures r.Success? ==> (r.value.OneDim? <==> (dim.None? || dim.value == 1) && (dim.None? ==>
                             !content.Sequence? || content.items == [] || Depth(content.items, 1) == 1))
    ensures dim.Some? && r.Success? && r.value.MultiDim? ==> r.value.dim == dim.value
  {
    var d := if dim.Some? then dim.value
             else if content.NoContent? || content.NotSequence? || content.Text? then 1
             else if content.items == [] then 1
             else Depth(content.items, 1);
    if d <= 0 then Failure(NonPositiveDim)
    else if d == 1 then
      if offset.IntOffset? then Success(OneDim) else Failure(OffsetNotInt)
    else if content.NotSequence? then Failure(ContentNotSequence)
    else Success(MultiDim(d))
  }

  /** Without an explicit dim, nested non-empty content always passes the dimension assertion. */
  lemma InferredDimPositive(content: Content)
    ensures content.Sequence? && content.items != [] ==> Depth(content.items, 1) >= 1
    ensures var r := Array(content, IntOffset(0), None); r.Success?
  {
    if content.Sequence? && content.items != [] {
      DepthAtLeast(content.items, 1);
    }
  }

  /** empty(dim): the 1-D container exactly when dim == 1, the N-D container for every other dim. */
  function EmptyContainer(dim: int): (c: Container)
    ensures c.OneDim? <==> dim == 1
    ensures c.MultiDim? ==> c.dim == dim
  {
    if dim == 1 then OneDim else MultiDim(dim)
  }
}
