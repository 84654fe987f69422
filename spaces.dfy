/**
 * The legacy containers Space1D, Space2D and Space3D as classes whose
 * fields their methods update in place. Rows of a Space2D and planes of a
 * Space3D are held as values (see Legacy).
 */
module Spaces {
  import opened Wrappers
  import opened Axes
  import opened Keys
  import Legacy

  /** Space1D: one row of two growable lists. */
  class Space1D<T> {
    var pos: seq<T>
    var neg: seq<T>
    const default: T

    function View(): Axis<T>
      reads this
    {
      Axis(pos, neg, default)
    }

    constructor (default: T)
      ensures View() == Axes.Empty(default)
    {
      this.default := default;
      pos, neg := [], [];
    }

    /**
     * _setitem(i, v): pad the branch of i with the default, assign, and
     * report the new end of whichever list grew.
     */
    method SetItem(i: int, v: T) returns (chg: (Option<int>, Option<int>))
      modifies this
      ensures View() == old(View()).Set(i, v)
      ensures chg == Legacy.Change(old(View()), i)
    {
      chg := (None, None);
      if i >= 0 {
        if |pos| <= i {
          pos := pos + Repeat(default, i - |pos| + 1);
          chg := (None, Some(|pos|));
        }
        pos := pos[i := v];
      } else {
        var j := -i - 1;
        if |neg| <= j {
          neg := neg + Repeat(default, j - |neg| + 1);
          chg := (Some(-|neg|), None);
        }
        neg := neg[j := v];
      }
    }

    /** s[i]: the default outside the lists. */
    function Get(i: int): (r: T)
      reads this
      ensures !View().Within(i) ==> r == default
      ensures 0 <= i < |pos| ==> r == pos[i]
      ensures i < 0 && -i - 1 < |neg| ==> r == neg[-i - 1]
    {
      View().Get(i)
    }

    function Offset(): (r: int)
      reads this
      ensures r <= 0 && r == View().Lo()
    {
      -|neg|
    }

    /** list(): reversed(neg) followed by pos, i.e. the values from Offset() upwards. */
    function List(): (r: seq<T>)
      reads this
      ensures |r| == Length()
      ensures forall k :: 0 <= k < |r| ==> r[k] == Get(Offset() + k)
    {
      Reverse(neg) + pos
    }

    function Length(): (n: nat)
      reads this
      ensures n == View().Length()
    {
      |pos| + |neg|
    }
  }

  /** What s[key] returns on a Space2D: a row for an int key, an item for a pair. */
  datatype RowOrItem<T> = RowItem(row: Axis<T>) | ValueItem(value: T)

  /** for row in rows: del row[n:]. */
  method TruncateRows<T>(rows: seq<seq<T>>, n: nat) returns (r: seq<seq<T>>)
    ensures r == Legacy.TakeEach(rows, n)
  {
    r := rows;
    var k := 0;
    while k < |r|
      invariant 0 <= k <= |r| == |rows|
      invariant forall m :: 0 <= m < k ==> r[m] == Legacy.Take(rows[m], n)
      invariant forall m :: k <= m < |r| ==> r[m] == rows[m]
    {
      if n < |r[k]| {
        r := r[k := r[k][..n]];
      }
      k := k + 1;
    }
  }

  /** Space2D: four quadrant lists of rows and the column bounds left/right. */
  class Space2D<T> {
    var br: seq<seq<T>>
    var bl: seq<seq<T>>
    var tr: seq<seq<T>>
    var tl: seq<seq<T>>
    var left: int
    var right: int
    const default: T

    function View(): Legacy.Quadrants<T>
      reads this
    {
      Legacy.Quadrants(br, bl, tr, tl, left, right, default)
    }

    predicate Valid()
      reads this
    {
      Legacy.Valid(View())
    }

    constructor (default: T)
      ensures Valid() && View() == Legacy.EmptySheet(default)
    {
      this.default := default;
      br, bl, tr, tl := [], [], [], [];
      left, right := 0, 0;
    }

    /** _getrow(i) with create: pad the half of row i with empty rows and return the row. */
    method GetRow(i: int) returns (row: Axis<T>)
      requires Valid()
      modifies this
      ensures Valid()
      ensures View() == Legacy.GrowRows(old(View()), i)
      ensures row == Legacy.RowAt(View(), i)
    {
      if i >= 0 {
        if |br| <= i {
          br := br + Repeat([], i - |br| + 1);
          bl := bl + Repeat([], i - |bl| + 1);
        }
        row := Axis(br[i], bl[i], default);
      } else {
        var j := -i - 1;
        if |tr| <= j {
          tr := tr + Repeat([], j - |tr| + 1);
          tl := tl + Repeat([], j - |tl| + 1);
        }
        row := Axis(tr[j], tl[j], default);
      }
    }

    /** Write the lists of axis a back as row i: the row object's lists are the quadrants' own. */
    method StoreRow(i: int, a: Axis<T>)
      requires Valid() && Legacy.HasRow(View(), i)
      modifies this
      ensures View() == Legacy.StoreRow(old(View()), i, a)
    {
      if i >= 0 {
        br, bl := br[i := a.pos], bl[i := a.neg];
      } else {
        tr, tl := tr[-i - 1 := a.pos], tl[-i - 1 := a.neg];
      }
    }

    /**
     * s[i, j] = v: the key must be a pair of ints (bools refused), else
     * TypeError and nothing changes; otherwise the row is created, written,
     * and left/right widened by the change it reports.
     */
    method SetItem(key: Key, v: T) returns (r: Outcome<BadKey>)
      requires Valid()
      modifies this
      ensures Valid()
      ensures var ix := ExactIntTuple(key, 2);
        if ix.None? then r == Fail(TypeError) && View() == old(View())
        else r == Pass && View() == Legacy.Set(old(View()), ix.value[0], ix.value[1], v)
    {
      var ix := ExactIntTuple(key, 2);
      if ix.None? {
        return Fail(TypeError);
      }
      var i, j := ix.value[0], ix.value[1];
      ghost var before := View();
      var row := GetRow(i);
      var chg := Legacy.Change(row, j);
      StoreRow(i, row.Set(j, v));
      if chg.0.Some? && chg.0.value < left {
        left := chg.0.value;
      }
      if chg.1.Some? && chg.1.value > right {
        right := chg.1.value;
      }
      Legacy.SetIsWidened(before, i, j, v);
      return Pass;
    }

    /**
     * s[key]: an int key (not a bool) returns its row, creating it and the
     * rows before it; a pair of ints reads an item without creating rows;
     * any other key is a TypeError.
     */
    method GetItem(key: Key) returns (r: Result<RowOrItem<T>, BadKey>)
      requires Valid()
      modifies this
      ensures Valid()
      ensures key.IntKey? ==> View() == Legacy.GrowRows(old(View()), key.n)
                              && r == Success(RowItem(Legacy.RowAt(View(), key.n)))
      ensures !key.IntKey? ==> View() == old(View())
      ensures !key.IntKey? ==> var ix := ExactIntTuple(key, 2);
        r == if ix.None? then Failure(TypeError) else Success(ValueItem(Legacy.Get(View(), ix.value[0], ix.value[1])))
    {
      if key.IntKey? {
        var row := GetRow(key.n);
        return Success(RowItem(row));
      }
      var ix := ExactIntTuple(key, 2);
      if ix.None? {
        return Failure(TypeError);
      }
      var i, j := ix.value[0], ix.value[1];
      if 0 <= i < |br| {
        return Success(ValueItem(Axis(br[i], bl[i], default).Get(j)));
      } else if i < 0 && -i - 1 < |tr| {
        return Success(ValueItem(Axis(tr[-i - 1], tl[-i - 1], default).Get(j)));
      }
      return Success(ValueItem(default));
    }

    /**
     * crop(top, left, bottom, right): ValueError unless the box contains
     * (0, 0); then truncate the row lists and every row to the box and
     * narrow left/right to it.
     */
    method Crop(top: int, left: int, bottom: int, right: int) returns (r: Outcome<Legacy.CropError>)
      requires Valid()
      modifies this
      ensures Valid()
      ensures var c := Legacy.Crop(old(View()), top, left, bottom, right);
        if c.Failure? then r == Fail(c.error) && View() == old(View())
        else r == Pass && View() == c.value
    {
      if top > 0 {
        return Fail(Legacy.TopAboveZero);
      }
      if left > 0 {
        return Fail(Legacy.LeftAboveZero);
      }
      if bottom < 0 {
        return Fail(Legacy.BottomBelowZero);
      }
      if right < 0 {
        return Fail(Legacy.RightBelowZero);
      }
      CropInside(top, left, bottom, right);
      return Pass;
    }

    /** The truncation half of crop, once the box is known to contain (0, 0). */
    method CropInside(top: int, left: int, bottom: int, right: int)
      requires Valid() && top <= 0 && left <= 0 && 0 <= bottom && 0 <= right
      modifies this
      ensures View() == Legacy.Crop(old(View()), top, left, bottom, right).value
    {
      ghost var q := View();
      var newTl := TruncateRows(Legacy.Take(tl, -top), -left);
      var newBl := TruncateRows(Legacy.Take(bl, bottom), -left);
      var newTr := TruncateRows(Legacy.Take(tr, -top), right);
      var newBr := TruncateRows(Legacy.Take(br, bottom), right);
      var newLeft := if left > this.left then left else this.left;
      var newRight := if right < this.right then right else this.right;
      Legacy.CropIsTruncation(q, top, left, bottom, right);
      assert Legacy.Crop(q, top, left, bottom, right).value
          == Legacy.Quadrants(newBr, newBl, newTr, newTl, newLeft, newRight, default);
      tr, tl, br, bl, this.left, this.right := newTr, newTl, newBr, newBl, newLeft, newRight;
    }

    /** shrink(by): move every side inwards by `by`, clamped at 0, and crop; it never fails. */
    method Shrink(amount: int)
      requires Valid()
      modifies this
      ensures Valid()
      ensures View() == Legacy.Shrink(old(View()), amount)
    {
      var top := -|tr| + amount;
      if top > 0 {
        top := 0;
      }
      var left := this.left + amount;
      if left > 0 {
        left := 0;
      }
      var bottom := |br| - amount;
      if bottom < 0 {
        bottom := 0;
      }
      var right := this.right - amount;
      if right < 0 {
        right := 0;
      }
      var r := Crop(top, left, bottom, right);
    }

    /** offset: (-len(tr), left). */
    function Offset(): (o: (int, int))
      requires Valid()
      reads this
      ensures o.0 <= 0 && o.1 <= 0
      ensures o == (Legacy.Bounds(View()).0, Legacy.Bounds(View()).1)
    {
      (-|tr|, left)
    }

    /** shape: (len(br) + len(tr), right - left). */
    function Shape(): (s: (nat, nat))
      requires Valid()
      reads this
      ensures var b := Legacy.Bounds(View()); s == (b.2 - b.0, b.3 - b.1)
    {
      (|br| + |tr|, right - left)
    }

    /** boundaries: (top, left, bottom, right); every index outside reads the default. */
    function Boundaries(): (b: (int, int, int, int))
      requires Valid()
      reads this
      ensures b.0 <= 0 <= b.2 && b.1 <= 0 <= b.3
      ensures forall i, j :: !(b.0 <= i < b.2 && b.1 <= j < b.3) ==> Legacy.Get(View(), i, j) == default
    {
      var b := Legacy.Bounds(View());
      forall i, j | !(b.0 <= i < b.2 && b.1 <= j < b.3) ensures Legacy.Get(View(), i, j) == default {
        Legacy.OutsideReadsDefault(View(), i, j);
      }
      b
    }

    /** len: the number of rows. */
    function Length(): (n: nat)
      reads this
      ensures n == Legacy.Bounds(View()).2 - Legacy.Bounds(View()).0
    {
      |tr| + |br|
    }
  }

  /** What s[key] returns on a Space3D: a plane for an int key, an item for a triple. */
  datatype PlaneOrItem<T> = PlaneItem(plane: Legacy.Quadrants<T>) | ValueItem3(value: T)

  /** Space3D: two lists of Space2D planes. */
  class Space3D<T> {
    var partPos: seq<Legacy.Quadrants<T>>
    var partNeg: seq<Legacy.Quadrants<T>>
    const default: T

    /** The planes as an axis whose missing slots read as an empty plane. */
    function View(): Axis<Legacy.Quadrants<T>>
      reads this
    {
      Axis(partPos, partNeg, Legacy.EmptySheet(default))
    }

    ghost predicate Valid()
      reads this
    {
      Legacy.Stack(View())
    }

    constructor (default: T)
      ensures Valid() && View() == Axes.Empty(Legacy.EmptySheet(default))
    {
      this.default := default;
      partPos, partNeg := [], [];
    }

    /** _getplane(i) with create: pad the branch of i with empty planes and return plane i. */
    method GetPlane(i: int) returns (p: Legacy.Quadrants<T>)
      requires Valid()
      modifies this
      ensures Valid()
      ensures View() == old(View()).Grow(i)
      ensures p == old(View()).Get(i) && Legacy.Fits(p, default)
    {
      var empty := Legacy.EmptySheet(default);
      if i >= 0 {
        if |partPos| <= i {
          partPos := partPos + Repeat(empty, i - |partPos| + 1);
        }
        p := partPos[i];
      } else {
        var j := -i - 1;
        if |partNeg| <= j {
          partNeg := partNeg + Repeat(empty, j - |partNeg| + 1);
        }
        p := partNeg[j];
      }
    }

    /**
     * s[i, j, k] = v: the key must be a triple of ints (bools refused), else
     * TypeError and nothing changes; otherwise plane i is created and
     * written at (j, k) as a Space2D.
     */
    method SetItem(key: Key, v: T) returns (r: Outcome<BadKey>)
      requires Valid()
      modifies this
      ensures Valid()
      ensures var ix := ExactIntTuple(key, 3);
        if ix.None? then r == Fail(TypeError) && View() == old(View())
        else r == Pass && View() == old(View()).Set(ix.value[0],
                                      Legacy.Set(old(View()).Get(ix.value[0]), ix.value[1], ix.value[2], v))
    {
      var ix := ExactIntTuple(key, 3);
      if ix.None? {
        return Fail(TypeError);
      }
      var i := ix.value[0];
      ghost var before := View();
      var plane := GetPlane(i);
      var written := Legacy.Set(plane, ix.value[1], ix.value[2], v);
      SetKeeps(View(), i, written, q => Legacy.Fits(q, default));
      if i >= 0 {
        partPos := partPos[i := written];
      } else {
        partNeg := partNeg[-i - 1 := written];
      }
      GrowThenSet(before, i, written);
      return Pass;
    }

    /**
     * s[key]: an int key (not a bool) returns its plane, creating it and the
     * planes before it; a triple of ints reads an item without creating
     * planes; any other key is a TypeError.
     */
    method GetItem(key: Key) returns (r: Result<PlaneOrItem<T>, BadKey>)
      requires Valid()
      modifies this
      ensures Valid()
      ensures key.IntKey? ==> View() == old(View()).Grow(key.n)
                              && r == Success(PlaneItem(old(View()).Get(key.n)))
      ensures !key.IntKey? ==> View() == old(View())
      ensures !key.IntKey? ==> var ix := ExactIntTuple(key, 3);
        r == if ix.None? then Failure(TypeError)
             else Success(ValueItem3(Legacy.Get3(View(), ix.value[0], ix.value[1], ix.value[2])))
    {
      if key.IntKey? {
        var p := GetPlane(key.n);
        return Success(PlaneItem(p));
      }
      var ix := ExactIntTuple(key, 3);
      if ix.None? {
        return Failure(TypeError);
      }
      var i := ix.value[0];
      if 0 <= i < |partPos| {
        return Success(ValueItem3(Legacy.Get(partPos[i], ix.value[1], ix.value[2])));
      } else if i < 0 && -i - 1 < |partNeg| {
        return Success(ValueItem3(Legacy.Get(partNeg[-i - 1], ix.value[1], ix.value[2])));
      }
      return Success(ValueItem3(default));
    }

    /**
     * boundaries: axis 0 from the plane lists; the other axes widen a hull
     * seeded with 0 by every plane's boundaries, in iteration order.
     */
    method Boundaries() returns (b: (int, int, int, int, int, int))
      requires Valid()
      ensures b == Legacy.Bounds3(View())
    {
      var hull := (0, 0, 0, 0);
      ghost var view := View();
      ghost var items := view.Items();
      var p := -|partNeg|;
      while p < |partPos|
        invariant -|partNeg| <= p <= |partPos|
        invariant hull == Legacy.Hull(items[..p + |partNeg|])
      {
        var plane := if p >= 0 then partPos[p] else partNeg[-p - 1];
        var k := p + |partNeg|;
        assert view.Lo() + k == p && items[k] == view.Get(p);
        Legacy.HullSnoc(items, k);
        hull := Legacy.Widen(hull, Legacy.Bounds(plane));
        p := p + 1;
      }
      assert items[..|items|] == items;
      b := (-|partNeg|, hull.0, hull.1, |partPos|, hull.2, hull.3);
    }

    /** offset: the first three boundaries, each at most 0. */
    method Offset() returns (o: (int, int, int))
      requires Valid()
      ensures var b := Legacy.Bounds3(View()); o == (b.0, b.1, b.2)
      ensures o.0 <= 0 && o.1 <= 0 && o.2 <= 0
    {
      var b := Boundaries();
      Legacy.HullCovers(View().Items());
      o := (b.0, b.1, b.2);
    }

    /** shape: end minus start on every axis. */
    method Shape() returns (s: (nat, nat, nat))
      requires Valid()
      ensures var b := Legacy.Bounds3(View()); s == (b.3 - b.0, b.4 - b.1, b.5 - b.2)
    {
      var b := Boundaries();
      Legacy.HullCovers(View().Items());
      s := (b.3 - b.0, b.4 - b.1, b.5 - b.2);
    }

    /** len: the number of planes. */
    function Length(): (n: nat)
      reads this
      ensures n == |View().Items()|
    {
      |partNeg| + |partPos|
    }
  }
}
