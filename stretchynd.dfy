/**
 * StretchyND: the D-dimensional container (D >= 2). Its own top-level axis
 * of planes lives in two lists that its methods update in place; the planes
 * themselves are values (see Grids).
 */
module StretchyND {
  import opened Wrappers
  import opened Axes
  import opened Keys
  import Grids

  /** The offset argument: one int for every axis, or a list with one per axis. */
  datatype Offset = Uniform(k: int) | PerAxis(ks: seq<int>)

  /** What s[key] returns: the plane for an int key, an item for a tuple. */
  datatype Item<T> = PlaneItem(plane: Grids.Grid<T>) | ValueItem(value: T)

  /** An int offset is broadcast to every axis; a list is taken as it is. */
  function OffsetList(o: Offset, dim: nat): (offs: seq<int>)
    ensures o.Uniform? ==> |offs| == dim && forall j :: 0 <= j < dim ==> offs[j] == o.k
    ensures o.PerAxis? ==> offs == o.ks
  {
    if o.Uniform? then Repeat(o.k, dim) else o.ks
  }

  class StretchyND<T> {
    const dim: nat
    const default: T
    var pos: seq<Grids.Grid<T>>
    var neg: seq<Grids.Grid<T>>

    /** The container as a grid value. */
    function View(): Grids.Grid<T>
      reads this
    {
      Grids.Node(dim, default, pos, neg)
    }

    /** Every slot holds a plane of dimension dim - 1 with the same default. */
    ghost predicate Valid()
      reads this
    {
      Grids.Valid(View())
    }

    /** StretchyND(dim, default, content=..., offset=...). */
    constructor (dim: nat, default: T, content: Option<Grids.Content<T>>, offset: Offset)
      requires dim >= 2
      requires content.Some? ==> Grids.Shaped(content.value, dim)
      ensures Valid() && this.dim == dim && this.default == default
      ensures View() == if content.Some? then Grids.Load(content.value, OffsetList(offset, dim), dim, default)
                        else Grids.Empty(dim, default)
    {
      this.dim, this.default := dim, default;
      pos, neg := [], [];
      new;
      if content.Some? {
        ReplaceContent(content.value, offset);
      }
    }

    /**
     * _getplane(i): pad the branch of i with fresh empty planes until slot i
     * exists, then return its plane.
     */
    method GetPlane(i: int) returns (p: Grids.Grid<T>)
      requires Valid()
      modifies this
      ensures Valid()
      ensures p == Grids.Plane(old(View()), i)
      ensures Grids.Slots(View()) == Grids.Slots(old(View())).Grow(i)
    {
      var empty := Grids.Empty(dim - 1, default);
      if i >= 0 {
        if |pos| <= i {
          pos := pos + Repeat(empty, i - |pos| + 1);
        }
        p := pos[i];
      } else {
        var j := -i - 1;
        if |neg| <= j {
          neg := neg + Repeat(empty, j - |neg| + 1);
        }
        p := neg[j];
      }
    }

    /** Put plane p into the existing slot i: the write-back of a plane changed in place. */
    method StorePlane(i: int, p: Grids.Grid<T>)
      requires Valid() && Grids.Slots(View()).Within(i) && Grids.Fits(p, dim, default)
      modifies this
      ensures Valid()
      ensures Grids.Slots(View()) == Grids.Slots(old(View())).Set(i, p)
    {
      ghost var before := Grids.Slots(View());
      SetKeeps(before, i, p, q => Grids.Fits(q, dim, default));
      if i >= 0 {
        pos := pos[i := p];
      } else {
        neg := neg[-i - 1 := p];
      }
    }

    /**
     * s[key] = v: the key must be a dim-tuple of ints, else TypeError and
     * nothing changes; the plane of the leading index is created if needed
     * and the rest of the index is written into it.
     */
    method SetItem(key: Key, v: T) returns (r: Outcome<BadKey>)
      requires Valid()
      modifies this
      ensures Valid()
      ensures var ix := IntTuple(key, dim);
        if ix.None? then r == Fail(TypeError) && View() == old(View())
        else r == Pass && View() == Grids.Set(old(View()), ix.value, v)
    {
      var ix := IntTuple(key, dim);
      if ix.None? {
        return Fail(TypeError);
      }
      var i := ix.value[0];
      ghost var before := Grids.Slots(View());
      var plane := GetPlane(i);
      StorePlane(i, Grids.Set(plane, ix.value[1..], v));
      GrowThenSet(before, i, Grids.Set(plane, ix.value[1..], v));
      return Pass;
    }

    /**
     * s[key]: an int key returns its plane, creating it (and the padding
     * before it); a dim-tuple of ints reads an item without creating any
     * plane; any other key is a TypeError.
     */
    method GetItem(key: Key) returns (r: Result<Item<T>, BadKey>)
      requires Valid()
      modifies this
      ensures Valid()
      ensures AsInt(key).Some? ==>
        && r == Success(PlaneItem(Grids.Plane(old(View()), AsInt(key).value)))
        && Grids.Slots(View()) == Grids.Slots(old(View())).Grow(AsInt(key).value)
      ensures AsInt(key).None? ==> View() == old(View())
      ensures AsInt(key).None? ==> var ix := IntTuple(key, dim);
        r == if ix.None? then Failure(TypeError) else Success(ValueItem(Grids.Get(View(), ix.value)))
    {
      var n := AsInt(key);
      if n.Some? {
        var p := GetPlane(n.value);
        return Success(PlaneItem(p));
      }
      var ix := IntTuple(key, dim);
      if ix.None? {
        return Failure(TypeError);
      }
      var i := ix.value[0];
      if 0 <= i < |pos| {
        return Success(ValueItem(Grids.Get(pos[i], ix.value[1..])));
      } else if i < 0 && -i - 1 < |neg| {
        return Success(ValueItem(Grids.Get(neg[-i - 1], ix.value[1..])));
      }
      return Success(ValueItem(default));
    }

    /**
     * One row of replace_content: create slot i with _getplane, then give the
     * plane there the loaded content.
     */
    method LoadPlane(i: int, loaded: Grids.Grid<T>)
      requires Valid() && Grids.Fits(loaded, dim, default)
      modifies this
      ensures Valid()
      ensures Grids.Slots(View()) == Grids.Slots(old(View())).Set(i, loaded)
    {
      ghost var before := Grids.Slots(View());
      var plane := GetPlane(i);
      StorePlane(i, loaded);
      GrowThenSet(before, i, loaded);
    }

    /** Row k of c, loaded with Tail(offs), goes into slot Head(offs) + k. */
    method LoadRow(c: Grids.Content<T>, offs: seq<int>, k: nat)
      requires Valid() && Grids.Shaped(c, dim) && k < |c.rows|
      requires Grids.Slots(View()) == Grids.Filled(c, offs, dim, default, k)
      modifies this
      ensures Valid()
      ensures Grids.Slots(View()) == Grids.Filled(c, offs, dim, default, k + 1)
    {
      var loaded := Grids.LoadRows(c, offs, dim, default)[k];
      LoadPlane(Grids.Head(offs) + k, loaded);
      Grids.FilledStep(c, offs, dim, default, k);
    }

    /**
     * Discard the content and load the rows of c: row k becomes the plane at
     * slot offset[0] + k, loaded with offset[1:] (or [0]).
     */
    method ReplaceContent(c: Grids.Content<T>, offset: Offset)
      requires Valid() && Grids.Shaped(c, dim)
      modifies this
      ensures Valid()
      ensures View() == Grids.Load(c, OffsetList(offset, dim), dim, default)
    {
      neg, pos := [], [];
      var offs := OffsetList(offset, dim);
      var k := 0;
      while k < |c.rows|
        invariant 0 <= k <= |c.rows| && Valid()
        invariant Grids.Slots(View()) == Grids.Filled(c, offs, dim, default, k)
      {
        LoadRow(c, offs, k);
        k := k + 1;
      }
      Grids.FilledAll(c, offs, dim, default, View());
    }

    /**
     * boundaries: one (start, end) pair per axis, each containing 0; axis 0
     * is (-len(neg), len(pos)) once there is a plane, (0, 0) before.
     */
    function Boundaries(): (b: seq<(int, int)>)
      requires Valid()
      reads this
      ensures |b| == dim
      ensures forall j :: 0 <= j < dim ==> b[j].0 <= 0 <= b[j].1
      ensures b[0] == if |pos| + |neg| == 0 then (0, 0) else (-|neg|, |pos|)
    {
      Grids.AllBoundsContainZero(View());
      Grids.Bounds(View())
    }

    /** offset: the start of every pair of boundaries. */
    function Offset(): (o: seq<int>)
      requires Valid()
      reads this
      ensures |o| == dim && forall j :: 0 <= j < dim ==> o[j] == Boundaries()[j].0 && o[j] <= 0
    {
      var b := Boundaries();
      seq(dim, j requires 0 <= j < dim => b[j].0)
    }

    /** shape: the extent end - start of every pair of boundaries. */
    function Shape(): (s: seq<nat>)
      requires Valid()
      reads this
      ensures |s| == dim && forall j :: 0 <= j < dim ==> s[j] == Boundaries()[j].1 - Boundaries()[j].0
    {
      var b := Boundaries();
      seq(dim, j requires 0 <= j < dim => b[j].1 - b[j].0)
    }

    /** len: the number of top-level slots. */
    function Length(): (n: nat)
      requires Valid()
      reads this
      ensures n == |Planes()|
    {
      |pos| + |neg|
    }

    /** Iteration: the planes in ascending slot order. */
    function Planes(): (ps: seq<Grids.Grid<T>>)
      requires Valid()
      reads this
      ensures forall k :: 0 <= k < |ps| ==> ps[k] == Grids.Plane(View(), k - |neg|)
    {
      Grids.Planes(View())
    }
  }
}
