/**
 * The planes of the multi-dimensional container as values: a grid of
 * dimension 1 is a leaf axis of items (the one-dimensional container), a
 * grid of dimension d >= 2 is an axis whose slots are planes of dimension
 * d - 1 sharing its default. Slots without a plane read as a fresh empty
 * plane.
 */
module Grids {
  import opened Wrappers
  import opened Axes

  datatype Grid<T> = Leaf(cells: Axis<T>) | Node(dim: nat, default: T, pos: seq<Grid<T>>, neg: seq<Grid<T>>)

  function Dim<T>(g: Grid<T>): nat {
    if g.Leaf? then 1 else g.dim
  }

  function Default<T>(g: Grid<T>): T {
    if g.Leaf? then g.cells.default else g.default
  }

  /** A plane that may sit in a slot of a grid of dimension dim with default d. */
  ghost predicate Fits<T>(p: Grid<T>, dim: nat, d: T) {
    Valid(p) && Dim(p) == dim - 1 && Default(p) == d
  }

  /** Every slot holds a plane of dimension dim - 1 with the same default, all the way down. */
  ghost predicate Valid<T>(g: Grid<T>)
    decreases g, 1
  {
    match g
    case Leaf(_) => true
    case Node(dim, d, pos, neg) =>
      && dim >= 2
      && (forall k :: 0 <= k < |pos| ==> Valid(pos[k]) && Dim(pos[k]) == dim - 1 && Default(pos[k]) == d)
      && (forall k :: 0 <= k < |neg| ==> Valid(neg[k]) && Dim(neg[k]) == dim - 1 && Default(neg[k]) == d)
  }

  /** A fresh container of dimension dim: a 1-D leaf for dim 1, a plane-less node above. */
  function Empty<T>(dim: nat, d: T): (g: Grid<T>)
    requires dim >= 1
    ensures Valid(g) && Dim(g) == dim && Default(g) == d
  {
    if dim == 1 then Leaf(Axes.Empty(d)) else Node(dim, d, [], [])
  }

  /** The top-level axis of planes; its default is the fresh empty plane that padding creates. */
  function Slots<T>(g: Grid<T>): (a: Axis<Grid<T>>)
    requires Valid(g) && g.Node?
    ensures Fits(a.default, g.dim, g.default)
    ensures forall k :: 0 <= k < |a.pos| ==> Fits(a.pos[k], g.dim, g.default)
    ensures forall k :: 0 <= k < |a.neg| ==> Fits(a.neg[k], g.dim, g.default)
  {
    Axis(g.pos, g.neg, Empty(g.dim - 1, g.default))
  }

  /** A node is determined by its dimension, its default and its slots. */
  lemma SlotsDetermine<T>(g: Grid<T>, h: Grid<T>)
    requires Valid(g) && Valid(h) && g.Node? && h.Node? && g.dim == h.dim && g.default == h.default
    requires Slots(g) == Slots(h)
    ensures g == h
  {
  }

  /** The plane in slot i, or a fresh empty plane where there is none. */
  function Plane<T>(g: Grid<T>, i: int): (p: Grid<T>)
    requires Valid(g) && g.Node?
    ensures Fits(p, g.dim, g.default)
    ensures !Slots(g).Within(i) ==> p == Empty(g.dim - 1, g.default)
  {
    Slots(g).Get(i)
  }

  /**
   * A tuple read: the leading index selects a plane without creating one;
   * with no plane there, the default.
   */
  function Get<T>(g: Grid<T>, ix: seq<int>): T
    requires Valid(g) && |ix| == Dim(g)
    decreases |ix|
  {
    match g
    case Leaf(a) => a.Get(ix[0])
    case Node(_, d, _, _) =>
      if !Slots(g).Within(ix[0]) then d else Get(Plane(g, ix[0]), ix[1..])
  }

  /**
   * A tuple write: pad the branch of the leading index with fresh empty
   * planes, then write the rest of the index into that plane.
   */
  function Set<T>(g: Grid<T>, ix: seq<int>, v: T): (r: Grid<T>)
    requires Valid(g) && |ix| == Dim(g)
    ensures Valid(r) && Dim(r) == Dim(g) && Default(r) == Default(g) && r.Leaf? == g.Leaf?
    ensures r.Node? ==> Slots(r) == Slots(g).Set(ix[0], Set(Plane(g, ix[0]), ix[1..], v))
    decreases |ix|
  {
    match g
    case Leaf(a) => Leaf(a.Set(ix[0], v))
    case Node(dim, d, _, _) =>
      var p := Set(Plane(g, ix[0]), ix[1..], v);
      var s := Slots(g).Set(ix[0], p);
      SetSlot(g, ix[0], p);
      Node(dim, d, s.pos, s.neg)
  }

  /** Putting a fitting plane into any slot of a node keeps it valid, and its slots are the written axis. */
  lemma SetSlot<T>(g: Grid<T>, i: int, p: Grid<T>)
    requires Valid(g) && g.Node? && Fits(p, g.dim, g.default)
    ensures var s := Slots(g).Set(i, p); var r := Node(g.dim, g.default, s.pos, s.neg);
      Valid(r) && Slots(r) == s
  {
    var dim, d, a := g.dim, g.default, Slots(g);
    var s := a.Set(i, p);
    SetKeeps(a, i, p, q => Fits(q, dim, d));
    SlotsOfNode(dim, d, s);
  }

  /** A valid node built from an axis whose default is the fresh plane has that axis as its slots. */
  lemma SlotsOfNode<T>(dim: nat, d: T, s: Axis<Grid<T>>)
    requires dim >= 2 && s.default == Empty(dim - 1, d)
    requires forall k :: 0 <= k < |s.pos| ==> Fits(s.pos[k], dim, d)
    requires forall k :: 0 <= k < |s.neg| ==> Fits(s.neg[k], dim, d)
    ensures Valid(Node(dim, d, s.pos, s.neg)) && Slots(Node(dim, d, s.pos, s.neg)) == s
  {
  }

  /** Reading a fresh container yields the default everywhere. */
  lemma GetEmpty<T>(dim: nat, d: T, ix: seq<int>)
    requires dim >= 1 && |ix| == dim
    ensures Get(Empty(dim, d), ix) == d
  {
  }

  /** After s[ix] = v, s[ix] reads v and every other index reads as before. */
  lemma {:induction false} GetSet<T>(g: Grid<T>, ix: seq<int>, v: T, jx: seq<int>)
    requires Valid(g) && |ix| == Dim(g) && |jx| == Dim(g)
    ensures Get(Set(g, ix, v), jx) == if jx == ix then v else Get(g, jx)
    decreases |ix|
  {
    if g.Node? {
      var r := Set(g, ix, v);
      var i, j := ix[0], jx[0];
      var p := Plane(g, i);
      GetSet(p, ix[1..], v, jx[1..]);
      if j == i {
        if !Slots(g).Within(i) {
          GetEmpty(g.dim - 1, g.default, jx[1..]);
        }
        assert jx == ix <==> jx[1..] == ix[1..] by {
          if jx[1..] == ix[1..] {
            assert jx == [j] + jx[1..] && ix == [i] + ix[1..];
          }
        }
      } else if Slots(r).Within(j) && !Slots(g).Within(j) {
        GetEmpty(g.dim - 1, g.default, jx[1..]);
      }
    }
  }

  /** _minmax: the smallest start and the largest end of a non-empty list of pairs. */
  function MinMax(ps: seq<(int, int)>): (r: (int, int))
    requires |ps| > 0
    ensures forall k :: 0 <= k < |ps| ==> r.0 <= ps[k].0 && ps[k].1 <= r.1
  {
    if |ps| == 1 then ps[0]
    else
      var rest := MinMax(ps[1..]);
      assert forall k :: 1 <= k < |ps| ==> ps[k] == ps[1..][k - 1];
      (Min(ps[0].0, rest.0), Max(ps[0].1, rest.1))
  }

  /** Both ends of the hull come from some pair: the start from one, the end from one. */
  lemma {:induction false} MinMaxAttained(ps: seq<(int, int)>) returns (a: nat, b: nat)
    requires |ps| > 0
    ensures a < |ps| && ps[a].0 == MinMax(ps).0
    ensures b < |ps| && ps[b].1 == MinMax(ps).1
  {
    if |ps| == 1 {
      a, b := 0, 0;
    } else {
      var a', b' := MinMaxAttained(ps[1..]);
      a := if ps[0].0 <= MinMax(ps[1..]).0 then 0 else a' + 1;
      b := if ps[0].1 >= MinMax(ps[1..]).1 then 0 else b' + 1;
    }
  }

  /** Iteration over the planes: reversed(neg), then pos, i.e. ascending slot order. */
  function Planes<T>(g: Grid<T>): (ps: seq<Grid<T>>)
    requires Valid(g) && g.Node?
    ensures |ps| == Slots(g).Length()
    ensures forall k :: 0 <= k < |ps| ==> ps[k] == Plane(g, Slots(g).Lo() + k)
  {
    Slots(g).Items()
  }

  /** The boundaries of every plane, in iteration order. */
  function PlaneBounds<T>(g: Grid<T>): (bs: seq<seq<(int, int)>>)
    requires Valid(g) && g.Node?
    ensures |bs| == |g.neg| + |g.pos|
    ensures forall k :: 0 <= k < |bs| ==> |bs[k]| == g.dim - 1
    decreases Dim(g), 0
  {
    var ps := Planes(g);
    seq(|ps|, k requires 0 <= k < |ps| => Bounds(ps[k]))
  }

  /** Column j of a list of boundary tuples. */
  function Column(bs: seq<seq<(int, int)>>, j: nat): (c: seq<(int, int)>)
    requires forall k :: 0 <= k < |bs| ==> j < |bs[k]|
    ensures |c| == |bs| && forall k :: 0 <= k < |bs| ==> c[k] == bs[k][j]
  {
    seq(|bs|, k requires 0 <= k < |bs| => bs[k][j])
  }

  /**
   * boundaries: one half-open (start, end) pair per axis. A container
   * without planes has (0, 0) on every axis; otherwise axis 0 is
   * (-len(neg), len(pos)) and every deeper axis the hull of the planes'
   * pairs on that axis.
   */
  function Bounds<T>(g: Grid<T>): (b: seq<(int, int)>)
    requires Valid(g)
    ensures |b| == Dim(g)
    decreases Dim(g), 1
  {
    match g
    case Leaf(a) => [(a.Lo(), a.Hi())]
    case Node(dim, _, pos, neg) =>
      if |pos| + |neg| == 0 then Repeat((0, 0), dim)
      else
        [(-|neg|, |pos|)] + Hulls(PlaneBounds(g), dim - 1)
  }

  /** The hull of each of the n columns of a non-empty list of boundary tuples. */
  function Hulls(bs: seq<seq<(int, int)>>, n: nat): (hs: seq<(int, int)>)
    requires |bs| > 0 && forall k :: 0 <= k < |bs| ==> |bs[k]| == n
    ensures |hs| == n && forall j :: 0 <= j < n ==> hs[j] == MinMax(Column(bs, j))
  {
    seq(n, j requires 0 <= j < n => MinMax(Column(bs, j)))
  }

  /** Axis j > 0 of a node with planes is the hull of column j - 1 of the planes' boundaries. */
  lemma BoundsDeeper<T>(g: Grid<T>, j: nat)
    requires Valid(g) && g.Node? && |g.pos| + |g.neg| > 0 && 0 < j < g.dim
    ensures Bounds(g)[j] == MinMax(Column(PlaneBounds(g), j - 1))
  {
  }

  /** The plane in materialised slot i is entry |neg| + i of the plane list. */
  lemma PlaneBoundsAt<T>(g: Grid<T>, i: int)
    requires Valid(g) && g.Node? && Slots(g).Within(i)
    ensures 0 <= |g.neg| + i < |PlaneBounds(g)| && PlaneBounds(g)[|g.neg| + i] == Bounds(Plane(g, i))
  {
    var s, k := Slots(g), |g.neg| + i;
    assert s.Lo() + k == i && 0 <= k < |Planes(g)|;
    assert Planes(g)[k] == Plane(g, i);
  }

  /** Every pair of boundaries contains 0. */
  lemma {:induction false} BoundsContainZero<T>(g: Grid<T>, j: nat)
    requires Valid(g) && j < Dim(g)
    ensures Bounds(g)[j].0 <= 0 <= Bounds(g)[j].1
    decreases Dim(g)
  {
    if g.Node? && |g.pos| + |g.neg| > 0 && j > 0 {
      var i := if |g.pos| > 0 then 0 else -1;
      HullCovers(g, i, j);
      BoundsContainZero(Plane(g, i), j - 1);
    }
  }

  /** The hull on a deeper axis covers the pair of every materialised plane on that axis. */
  lemma HullCovers<T>(g: Grid<T>, i: int, j: nat)
    requires Valid(g) && g.Node? && Slots(g).Within(i) && 0 < j < g.dim
    ensures Bounds(g)[j].0 <= Bounds(Plane(g, i))[j - 1].0
    ensures Bounds(Plane(g, i))[j - 1].1 <= Bounds(g)[j].1
  {
    PlaneBoundsAt(g, i);
    BoundsDeeper(g, j);
    var c := Column(PlaneBounds(g), j - 1);
    assert c[|g.neg| + i] == Bounds(Plane(g, i))[j - 1];
  }

  /** Each end of the hull on a deeper axis is the end of some materialised plane's pair. */
  lemma HullAttained<T>(g: Grid<T>, j: nat) returns (lo: int, hi: int)
    requires Valid(g) && g.Node? && |g.pos| + |g.neg| > 0 && 0 < j < g.dim
    ensures Slots(g).Within(lo) && Bounds(g)[j].0 == Bounds(Plane(g, lo))[j - 1].0
    ensures Slots(g).Within(hi) && Bounds(g)[j].1 == Bounds(Plane(g, hi))[j - 1].1
  {
    var c := Column(PlaneBounds(g), j - 1);
    var a, b := MinMaxAttained(c);
    lo, hi := a - |g.neg|, b - |g.neg|;
    PlaneBoundsAt(g, lo);
    PlaneBoundsAt(g, hi);
  }

  /**
   * Boundaries cover the content: an index outside the pair of any axis
   * reads the default.
   */
  lemma {:induction false} OutsideReadsDefault<T>(g: Grid<T>, ix: seq<int>, j: nat)
    requires Valid(g) && |ix| == Dim(g) && j < Dim(g)
    requires ix[j] < Bounds(g)[j].0 || Bounds(g)[j].1 <= ix[j]
    ensures Get(g, ix) == Default(g)
    decreases |ix|
  {
    if g.Node? && Slots(g).Within(ix[0]) && j > 0 {
      HullCovers(g, ix[0], j);
      OutsideReadsDefault(Plane(g, ix[0]), ix[1..], j - 1);
    }
  }

  /** After a write the written slot holds the updated plane and every other slot its old plane. */
  lemma SetPlane<T>(g: Grid<T>, ix: seq<int>, v: T, t: int)
    requires Valid(g) && g.Node? && |ix| == g.dim
    ensures Slots(Set(g, ix, v)).Within(ix[0])
    ensures Slots(g).Within(t) ==> Slots(Set(g, ix, v)).Within(t)
    ensures Plane(Set(g, ix, v), t) == if t == ix[0] then Set(Plane(g, ix[0]), ix[1..], v) else Plane(g, t)
  {
  }

  /** Axis 0 of a node grows to cover the written slot. */
  lemma SetGrowsAxisZero<T>(g: Grid<T>, ix: seq<int>, v: T)
    requires Valid(g) && |ix| == Dim(g)
    ensures var b, b' := Bounds(g)[0], Bounds(Set(g, ix, v))[0];
      b'.0 <= Min(b.0, ix[0]) && Max(b.1, ix[0] + 1) <= b'.1
  {
  }

  /** The step of the growth proof on a deeper axis, given that the written plane grew. */
  lemma SetGrowsHull<T>(g: Grid<T>, ix: seq<int>, v: T, j: nat)
    requires Valid(g) && g.Node? && |ix| == g.dim && 0 < j < g.dim
    requires var p := Plane(g, ix[0]); var b, b' := Bounds(p)[j - 1], Bounds(Set(p, ix[1..], v))[j - 1];
      b'.0 <= Min(b.0, ix[j]) && Max(b.1, ix[j] + 1) <= b'.1
    ensures var b, b' := Bounds(g)[j], Bounds(Set(g, ix, v))[j];
      b'.0 <= Min(b.0, ix[j]) && Max(b.1, ix[j] + 1) <= b'.1
  {
    var r, i := Set(g, ix, v), ix[0];
    SetPlane(g, ix, v, i);
    HullCovers(r, i, j);
    if |g.pos| + |g.neg| == 0 {
      BoundsContainZero(Plane(r, i), j - 1);
    } else {
      var lo, hi := HullAttained(g, j);
      SetPlane(g, ix, v, lo);
      SetPlane(g, ix, v, hi);
      HullCovers(r, lo, j);
      HullCovers(r, hi, j);
    }
  }

  /**
   * Writing never shrinks a pair of boundaries, and afterwards every pair
   * covers the written index.
   */
  lemma {:induction false} SetGrowsBounds<T>(g: Grid<T>, ix: seq<int>, v: T, j: nat)
    requires Valid(g) && |ix| == Dim(g) && j < Dim(g)
    ensures var b, b' := Bounds(g)[j], Bounds(Set(g, ix, v))[j];
      b'.0 <= Min(b.0, ix[j]) && Max(b.1, ix[j] + 1) <= b'.1
    decreases |ix|
  {
    if j == 0 {
      SetGrowsAxisZero(g, ix, v);
    } else {
      SetGrowsBounds(Plane(g, ix[0]), ix[1..], v, j - 1);
      SetGrowsHull(g, ix, v, j);
    }
  }

  /** Nested input: a row of items, or a list of rows one dimension down. */
  datatype Content<T> = Row(items: seq<T>) | Rows(rows: seq<Content<T>>)

  /** c is nested exactly dim deep: lists of lists down to rows of items. */
  predicate Shaped<T>(c: Content<T>, dim: nat)
    decreases c
  {
    if dim <= 1 then c.Row?
    else c.Rows? && forall k :: 0 <= k < |c.rows| ==> Shaped(c.rows[k], dim - 1)
  }

  /** The offset replace_content applies on its own axis: offset[0], or 0 when there is none. */
  function Head(offs: seq<int>): int {
    if |offs| > 0 then offs[0] else 0
  }

  /** The offsets it hands to every plane: offset[1:], or [0] when that would be empty. */
  function Tail(offs: seq<int>): (t: seq<int>)
    ensures |t| > 0
  {
    if |offs| > 1 then offs[1..] else [0]
  }

  /**
   * replace_content(c, offs) on a fresh container: row k of c becomes the
   * plane at slot Head(offs) + k, loaded with Tail(offs); a 1-D row loads as
   * the leaf does. No rows leave the container without planes.
   */
  function Load<T>(c: Content<T>, offs: seq<int>, dim: nat, d: T): (g: Grid<T>)
    requires dim >= 1 && Shaped(c, dim)
    ensures Valid(g) && Dim(g) == dim && Default(g) == d
    decreases dim
  {
    if dim == 1 then Leaf(Axes.Load(c.items, Head(offs), d))
    else if c.rows == [] then Empty(dim, d)
    else
      var planes := LoadRows(c, offs, dim, d);
      LoadKeeps(planes, Head(offs), Empty(dim - 1, d), q => Fits(q, dim, d));
      var a := Axes.Load(planes, Head(offs), Empty(dim - 1, d));
      Node(dim, d, a.pos, a.neg)
  }

  /** The planes loaded from the rows of c, in input order. */
  function LoadRows<T>(c: Content<T>, offs: seq<int>, dim: nat, d: T): (ps: seq<Grid<T>>)
    requires dim >= 2 && Shaped(c, dim)
    ensures |ps| == |c.rows| && forall k :: 0 <= k < |ps| ==> Fits(ps[k], dim, d)
    ensures forall k :: 0 <= k < |ps| ==> ps[k] == Load(c.rows[k], Tail(offs), dim - 1, d)
    decreases dim, 0
  {
    seq(|c.rows|, k requires 0 <= k < |c.rows| => Load(c.rows[k], Tail(offs), dim - 1, d))
  }

  /**
   * The item that input c puts at index ix when its rows start at offset
   * Head(offs) and its rows' own offsets are Tail(offs).
   */
  function At<T>(c: Content<T>, ix: seq<int>, offs: seq<int>): Option<T>
    requires |ix| >= 1 && Shaped(c, |ix|)
    decreases |ix|
  {
    var j := ix[0] - Head(offs);
    if c.Row? then (if 0 <= j < |c.items| then Some(c.items[j]) else None)
    else if 0 <= j < |c.rows| then At(c.rows[j], ix[1..], Tail(offs))
    else None
  }

  /** The slots of a loaded node are the bulk load of its row planes. */
  lemma LoadSlots<T>(c: Content<T>, offs: seq<int>, dim: nat, d: T)
    requires dim >= 2 && Shaped(c, dim) && c.rows != []
    ensures Load(c, offs, dim, d).Node?
    ensures Slots(Load(c, offs, dim, d)) == Axes.Load(LoadRows(c, offs, dim, d), Head(offs), Empty(dim - 1, d))
  {
  }

  /** The slots replace_content has built after its first k rows. */
  ghost function Filled<T>(c: Content<T>, offs: seq<int>, dim: nat, d: T, k: nat): Axis<Grid<T>>
    requires dim >= 2 && Shaped(c, dim) && k <= |c.rows|
  {
    if k == 0 then Axes.Empty(Empty(dim - 1, d))
    else Axes.Load(LoadRows(c, offs, dim, d)[..k], Head(offs), Empty(dim - 1, d))
  }

  /** Row k goes into slot Head(offs) + k as the plane loaded with Tail(offs). */
  lemma FilledStep<T>(c: Content<T>, offs: seq<int>, dim: nat, d: T, k: nat)
    requires dim >= 2 && Shaped(c, dim) && k < |c.rows|
    ensures Filled(c, offs, dim, d, k + 1)
         == Filled(c, offs, dim, d, k).Set(Head(offs) + k, Load(c.rows[k], Tail(offs), dim - 1, d))
  {
    var planes := LoadRows(c, offs, dim, d);
    LoadSnoc(planes[..k], planes[k], Head(offs), Empty(dim - 1, d));
    PrefixSnoc(planes, k);
  }

  /** A node holding the slots built from all rows is the bulk load. */
  lemma FilledAll<T>(c: Content<T>, offs: seq<int>, dim: nat, d: T, g: Grid<T>)
    requires dim >= 2 && Shaped(c, dim) && Valid(g) && g.Node? && g.dim == dim && g.default == d
    requires Slots(g) == Filled(c, offs, dim, d, |c.rows|)
    ensures g == Load(c, offs, dim, d)
  {
    if c.rows != [] {
      var planes := LoadRows(c, offs, dim, d);
      assert planes[..|c.rows|] == planes;
      LoadSlots(c, offs, dim, d);
      SlotsDetermine(g, Load(c, offs, dim, d));
    }
  }

  /** Inside the rows' range a loaded node's plane is the loaded row; elsewhere reads see the default. */
  lemma LoadPlane<T>(c: Content<T>, offs: seq<int>, dim: nat, d: T, ix: seq<int>)
    requires dim >= 2 && Shaped(c, dim) && c.rows != [] && |ix| == dim
    ensures var g, j := Load(c, offs, dim, d), ix[0] - Head(offs);
      if 0 <= j < |c.rows| then Slots(g).Within(ix[0]) && Plane(g, ix[0]) == Load(c.rows[j], Tail(offs), dim - 1, d)
      else Get(g, ix) == d
  {
    var g, j := Load(c, offs, dim, d), ix[0] - Head(offs);
    LoadSlots(c, offs, dim, d);
    if !(0 <= j < |c.rows|) && Slots(g).Within(ix[0]) {
      GetEmpty(dim - 1, d, ix[1..]);
    }
  }

  /** A read inside the slots of a node is the read of the rest of the index in that plane. */
  lemma GetInPlane<T>(g: Grid<T>, ix: seq<int>)
    requires Valid(g) && g.Node? && |ix| == g.dim && Slots(g).Within(ix[0])
    ensures Get(g, ix) == Get(Plane(g, ix[0]), ix[1..])
  {
  }

  /**
   * Inside the range of the rows, a read of the loaded node is the read of
   * the row at ix[0] - offset[0], loaded with the tail of the offsets.
   */
  lemma GetInRow<T>(c: Content<T>, offs: seq<int>, dim: nat, d: T, ix: seq<int>)
    requires dim >= 2 && Shaped(c, dim) && |ix| == dim && 0 <= ix[0] - Head(offs) < |c.rows|
    ensures Shaped(c.rows[ix[0] - Head(offs)], dim - 1)
    ensures Get(Load(c, offs, dim, d), ix) == Get(Load(c.rows[ix[0] - Head(offs)], Tail(offs), dim - 1, d), ix[1..])
  {
    LoadPlane(c, offs, dim, d, ix);
    GetInPlane(Load(c, offs, dim, d), ix);
  }

  /**
   * Bulk-load round trip: after replace_content(c, offs) every index reads
   * the item c puts there under the effective offsets, and the default
   * everywhere else.
   */
  lemma {:induction false} LoadGet<T>(c: Content<T>, offs: seq<int>, dim: nat, d: T, ix: seq<int>)
    requires dim >= 1 && Shaped(c, dim) && |ix| == dim
    ensures Get(Load(c, offs, dim, d), ix) == At(c, ix, offs).GetOr(d)
    decreases dim, 1
  {
    if dim >= 2 && 0 <= ix[0] - Head(offs) < |c.rows| {
      LoadGetInside(c, offs, dim, d, ix);
    } else {
      LoadGetOutside(c, offs, dim, d, ix);
    }
  }

  /** The base cases of LoadGet: a row, no rows, or an index outside the rows. */
  lemma LoadGetOutside<T>(c: Content<T>, offs: seq<int>, dim: nat, d: T, ix: seq<int>)
    requires dim >= 1 && Shaped(c, dim) && |ix| == dim
    requires dim >= 2 ==> !(0 <= ix[0] - Head(offs) < |c.rows|)
    ensures Get(Load(c, offs, dim, d), ix) == At(c, ix, offs).GetOr(d)
  {
    if dim == 1 {
      assert c.Row?;
    } else if c.rows == [] {
      GetEmpty(dim, d, ix);
    } else {
      LoadPlane(c, offs, dim, d, ix);
    }
  }

  /** The step of LoadGet: inside the rows, the read of the row carries over. */
  lemma {:induction false} LoadGetInside<T>(c: Content<T>, offs: seq<int>, dim: nat, d: T, ix: seq<int>)
    requires dim >= 2 && Shaped(c, dim) && |ix| == dim && 0 <= ix[0] - Head(offs) < |c.rows|
    ensures Get(Load(c, offs, dim, d), ix) == At(c, ix, offs).GetOr(d)
    decreases dim, 0
  {
    assert c.Rows? && c.rows != [];
    var row, rest, tail := c.rows[ix[0] - Head(offs)], ix[1..], Tail(offs);
    assert |rest| == dim - 1 && Shaped(row, |rest|);
    LoadGet(row, tail, |rest|, d, rest);
    GetInRow(c, offs, dim, d, ix);
    AtInRow(c, ix, offs);
  }

  /** Inside the range of its rows, input c puts at ix what the row at ix[0] - offset[0] puts at the rest. */
  lemma AtInRow<T>(c: Content<T>, ix: seq<int>, offs: seq<int>)
    requires |ix| >= 2 && Shaped(c, |ix|) && 0 <= ix[0] - Head(offs) < |c.rows|
    ensures Shaped(c.rows[ix[0] - Head(offs)], |ix| - 1)
    ensures At(c, ix, offs) == At(c.rows[ix[0] - Head(offs)], ix[1..], Tail(offs))
  {
  }

  /** Every pair of boundaries contains 0. */
  lemma AllBoundsContainZero<T>(g: Grid<T>)
    requires Valid(g)
    ensures forall j :: 0 <= j < Dim(g) ==> Bounds(g)[j].0 <= 0 <= Bounds(g)[j].1
  {
    forall j | 0 <= j < Dim(g) ensures Bounds(g)[j].0 <= 0 <= Bounds(g)[j].1 {
      BoundsContainZero(g, j);
    }
  }

  /** The error a plane without a boundaries or replace_content attribute raises. */
  datatype AttributeError = NoBoundaries | NoReplaceContent

  /**
   * boundaries as the code stands, where the planes of a 2-D container are
   * Stretchy1D objects: those have no boundaries attribute, so any container
   * with a 2-D level holding a plane fails.
   */
  function BoundsAsWritten<T>(g: Grid<T>): (r: Result<seq<(int, int)>, AttributeError>)
    requires Valid(g)
    ensures r.Success? ==> r.value == Bounds(g)
    decreases Dim(g)
  {
    match g
    case Leaf(_) => Failure(NoBoundaries)
    case Node(dim, _, pos, neg) =>
      if |pos| + |neg| == 0 then Success(Repeat((0, 0), dim))
      else
        var ps := Planes(g);
        if exists k :: 0 <= k < |ps| && BoundsAsWritten(ps[k]).Failure? then Failure(NoBoundaries)
        else Success(Bounds(g))
  }

  /** Any 2-D container with a plane fails as written, while its boundaries are well defined. */
  lemma BoundsAsWrittenFails<T>(g: Grid<T>)
    requires Valid(g) && g.Node? && g.dim == 2 && |g.pos| + |g.neg| > 0
    ensures BoundsAsWritten(g).Failure?
    ensures |Bounds(g)| == 2 && Bounds(g)[0] == (-|g.neg|, |g.pos|)
  {
    assert BoundsAsWritten(Planes(g)[0]).Failure?;
  }

  /** The smallest case: s = StretchyND(2, 0); s[0, 0] = 1 has boundaries ((0, 1), (0, 1)), yet as written s.boundaries fails. */
  lemma BoundsAsWrittenExample()
    ensures var g := Set(Empty(2, 0), [0, 0], 1);
      BoundsAsWritten(g).Failure? && Bounds(g) == [(0, 1), (0, 1)]
  {
    var e: Grid<int> := Empty(2, 0);
    var leaf := Leaf(Axis([1], [], 0));
    assert Plane(e, 0) == Leaf(Axes.Empty(0));
    assert Set(Plane(e, 0), [0], 1) == leaf by {
      assert Axes.Empty(0).Set(0, 1).pos == [1];
    }
    assert Slots(e).Set(0, leaf).pos == [leaf];
    var g := Set(e, [0, 0], 1);
    assert g == Node(2, 0, [leaf], []);
    BoundsAsWrittenFails(g);
    assert Planes(g) == [leaf];
    assert PlaneBounds(g) == [[(0, 1)]];
  }

  /**
   * replace_content as the code stands: the planes of a 2-D level are
   * Stretchy1D objects without replace_content, so loading any row, even an
   * empty one, into a 2-D level fails. Only the outcome is modelled: the
   * container a failed call leaves behind is not. In the code, that
   * container has lost its old planes (cleared before the row loop) and
   * keeps the planes created up to the failing row.
   */
  function LoadAsWritten<T>(c: Content<T>, offs: seq<int>, dim: nat, d: T): (r: Result<Grid<T>, AttributeError>)
    requires dim >= 2 && Shaped(c, dim)
    ensures r.Success? ==> r.value == Load(c, offs, dim, d)
    ensures dim == 2 ==> (r.Failure? <==> c.rows != [])
    decreases dim
  {
    if c.rows == [] then Success(Load(c, offs, dim, d))
    else if dim == 2 then Failure(NoReplaceContent)
    else if exists k :: 0 <= k < |c.rows| && LoadAsWritten(c.rows[k], Tail(offs), dim - 1, d).Failure? then
      Failure(NoReplaceContent)
    else Success(Load(c, offs, dim, d))
  }

  /** The smallest case: StretchyND(2, 0, content=[[1]]) should read 1 at (0, 0), yet as written it fails. */
  lemma LoadAsWrittenExample()
    ensures var c := Rows([Row([1])]);
      LoadAsWritten(c, [0], 2, 0).Failure? && Get(Load(c, [0], 2, 0), [0, 0]) == 1
  {
    var c := Rows([Row([1])]);
    LoadGet(c, [0], 2, 0, [0, 0]);
  }
}
