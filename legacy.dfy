/**
 * The value layer of the legacy Space1D/Space2D/Space3D containers. A row of
 * a Space2D is a Space1D, i.e. an Axis; a Space2D keeps its rows in four
 * quadrant lists (bottom-right, bottom-left, top-right, top-left) together
 * with column bounds left <= 0 <= right that its writes widen.
 */
module Legacy {
  import opened Wrappers
  import opened Axes

  /**
   * The pair Space1D._setitem returns after writing index i: the new
   * -len(neg) when neg had to grow, the new len(pos) when pos had to grow,
   * None otherwise.
   */
  function Change<T>(a: Axis<T>, i: int): (r: (Option<int>, Option<int>))
    ensures r.0.Some? <==> i < 0 && !a.Within(i)
    ensures r.1.Some? <==> i >= 0 && !a.Within(i)
  {
    if i >= 0 then (None, if |a.pos| <= i then Some(i + 1) else None)
    else (if |a.neg| <= -i - 1 then Some(i) else None, None)
  }

  /** What the pair reports is exactly how the written axis grew: its new ends. */
  lemma ChangeIsGrowth<T>(a: Axis<T>, i: int, v: T)
    ensures var r := a.Set(i, v);
      && Change(a, i).0 == (if |r.neg| > |a.neg| then Some(r.Lo()) else None)
      && Change(a, i).1 == (if |r.pos| > |a.pos| then Some(r.Hi()) else None)
  {
  }

  /** The four quadrants of a Space2D: row i >= 0 is (br[i], bl[i]), row i < 0 is (tr[-i-1], tl[-i-1]). */
  datatype Quadrants<T> = Quadrants(
    br: seq<seq<T>>, bl: seq<seq<T>>, tr: seq<seq<T>>, tl: seq<seq<T>>,
    left: int, right: int, default: T)

  /** Space2D(default): no rows and the column bounds (0, 0). */
  function EmptySheet<T>(d: T): Quadrants<T> {
    Quadrants([], [], [], [], 0, 0, d)
  }

  /**
   * The invariant every Space2D method keeps: rows come in pairs, the
   * column bounds straddle 0, and no row reaches past them.
   */
  predicate Valid<T>(q: Quadrants<T>) {
    && |q.br| == |q.bl| && |q.tr| == |q.tl|
    && q.left <= 0 <= q.right
    && (forall k :: 0 <= k < |q.br| ==> |q.br[k]| <= q.right)
    && (forall k :: 0 <= k < |q.tr| ==> |q.tr[k]| <= q.right)
    && (forall k :: 0 <= k < |q.bl| ==> |q.bl[k]| <= -q.left)
    && (forall k :: 0 <= k < |q.tl| ==> |q.tl[k]| <= -q.left)
  }

  /** Row i exists: it lies in [-len(tr), len(br)). */
  predicate HasRow<T>(q: Quadrants<T>, i: int) {
    -|q.tr| <= i < |q.br|
  }

  /** The Space1D that _getrow(i) wraps around the two lists of an existing row. */
  function RowAt<T>(q: Quadrants<T>, i: int): (a: Axis<T>)
    requires Valid(q) && HasRow(q, i)
    ensures a.default == q.default && q.left <= a.Lo() && a.Hi() <= q.right
  {
    if i >= 0 then Axis(q.br[i], q.bl[i], q.default)
    else Axis(q.tr[-i - 1], q.tl[-i - 1], q.default)
  }

  /** s[i, j]: a missing row is not created and reads as the default. */
  function Get<T>(q: Quadrants<T>, i: int, j: int): (r: T)
    requires Valid(q)
    ensures !HasRow(q, i) ==> r == q.default
  {
    if HasRow(q, i) then RowAt(q, i).Get(j) else q.default
  }

  /** _getrow(i) with create: pad the row lists of i's half with empty rows until row i exists. */
  function GrowRows<T>(q: Quadrants<T>, i: int): (r: Quadrants<T>)
    requires Valid(q)
    ensures Valid(r) && HasRow(r, i)
    ensures r.left == q.left && r.right == q.right && r.default == q.default
    ensures i >= 0 ==> r.tr == q.tr && r.tl == q.tl && |r.br| == Max(|q.br|, i + 1)
    ensures i < 0 ==> r.br == q.br && r.bl == q.bl && |r.tr| == Max(|q.tr|, -i)
    ensures forall k, j :: Get(r, k, j) == Get(q, k, j)
  {
    var r := if i >= 0 then q.(br := Pad(q.br, i + 1, []), bl := Pad(q.bl, i + 1, []))
             else q.(tr := Pad(q.tr, -i, []), tl := Pad(q.tl, -i, []));
    assert forall k, j :: Get(r, k, j) == Get(q, k, j) by {
      forall k, j ensures Get(r, k, j) == Get(q, k, j) {
        if HasRow(r, k) && !HasRow(q, k) {
          assert RowAt(r, k) == Axes.Empty(q.default);
        }
      }
    }
    r
  }

  /** Put the lists of axis a back as row i. */
  function StoreRow<T>(q: Quadrants<T>, i: int, a: Axis<T>): (r: Quadrants<T>)
    requires Valid(q) && HasRow(q, i)
  {
    if i >= 0 then q.(br := q.br[i := a.pos], bl := q.bl[i := a.neg])
    else q.(tr := q.tr[-i - 1 := a.pos], tl := q.tl[-i - 1 := a.neg])
  }

  /** Widen left/right by a bounds-change pair, as Space2D.__setitem__ does. */
  function Widened<T>(q: Quadrants<T>, chg: (Option<int>, Option<int>)): Quadrants<T> {
    q.(left := if chg.0.Some? && chg.0.value < q.left then chg.0.value else q.left,
       right := if chg.1.Some? && chg.1.value > q.right then chg.1.value else q.right)
  }

  /**
   * s[i, j] = v: create row i, write column j of it as Space1D does, and
   * widen left/right by the bounds-change pair that write reports.
   */
  function Set<T>(q: Quadrants<T>, i: int, j: int, v: T): (r: Quadrants<T>)
    requires Valid(q)
    ensures Valid(r) && r.default == q.default
  {
    var g := GrowRows(q, i);
    var a := RowAt(g, i);
    var r := Widened(StoreRow(g, i, a.Set(j, v)), Change(a, j));
    assert Valid(r) by {
      assert forall k :: 0 <= k < |r.br| ==> |r.br[k]| <= r.right by {
        forall k | 0 <= k < |r.br| ensures |r.br[k]| <= r.right {
          if i >= 0 && k == i { assert |r.br[k]| == Max(|a.pos|, j + 1); }
          else { assert r.br[k] == g.br[k]; }
        }
      }
      assert forall k :: 0 <= k < |r.tr| ==> |r.tr[k]| <= r.right by {
        forall k | 0 <= k < |r.tr| ensures |r.tr[k]| <= r.right {
          if i < 0 && k == -i - 1 { assert |r.tr[k]| == Max(|a.pos|, j + 1); }
          else { assert r.tr[k] == g.tr[k]; }
        }
      }
      assert forall k :: 0 <= k < |r.bl| ==> |r.bl[k]| <= -r.left by {
        forall k | 0 <= k < |r.bl| ensures |r.bl[k]| <= -r.left {
          if i >= 0 && k == i { assert |r.bl[k]| == Max(|a.neg|, -j); }
          else { assert r.bl[k] == g.bl[k]; }
        }
      }
      assert forall k :: 0 <= k < |r.tl| ==> |r.tl[k]| <= -r.left by {
        forall k | 0 <= k < |r.tl| ensures |r.tl[k]| <= -r.left {
          if i < 0 && k == -i - 1 { assert |r.tl[k]| == Max(|a.neg|, -j); }
          else { assert r.tl[k] == g.tl[k]; }
        }
      }
    }
    r
  }

  /** A write is the row write stored back, widened by the change it reports. */
  lemma SetIsWidened<T>(q: Quadrants<T>, i: int, j: int, v: T)
    requires Valid(q)
    ensures var g := GrowRows(q, i); var a := RowAt(g, i);
      Set(q, i, j, v) == Widened(StoreRow(g, i, a.Set(j, v)), Change(a, j))
  {
  }

  /** The rows of a written sheet: row i is the written row, every other row is as before. */
  lemma SetRows<T>(q: Quadrants<T>, i: int, j: int, v: T, k: int)
    requires Valid(q)
    ensures var r, g := Set(q, i, j, v), GrowRows(q, i);
      HasRow(r, k) == HasRow(g, k)
      && (HasRow(r, k) ==> RowAt(r, k) == if k == i then RowAt(g, i).Set(j, v) else RowAt(g, k))
  {
  }

  /** A write is read back, and nothing else reads differently. */
  lemma GetSet<T>(q: Quadrants<T>, i: int, j: int, v: T, k: int, m: int)
    requires Valid(q)
    ensures Get(Set(q, i, j, v), k, m) == if k == i && m == j then v else Get(q, k, m)
  {
    var g := GrowRows(q, i);
    SetRows(q, i, j, v, k);
    if HasRow(g, k) && k != i {
      assert Get(g, k, m) == RowAt(g, k).Get(m);
    }
  }

  /**
   * A write only widens: left never grows, right never shrinks, and the
   * written row and column fall inside the new bounds.
   */
  lemma SetWidens<T>(q: Quadrants<T>, i: int, j: int, v: T)
    requires Valid(q)
    ensures var r := Set(q, i, j, v);
      && r.left <= q.left && q.right <= r.right
      && r.left <= j < r.right
      && -|r.tr| <= i < |r.br|
      && |q.tr| <= |r.tr| && |q.br| <= |r.br|
  {
    var g := GrowRows(q, i);
    var a := RowAt(g, i);
    assert g.left <= a.Lo() && a.Hi() <= g.right;
  }

  /** Bounds as Space2D.boundaries gives them: (top, left, bottom, right). */
  function Bounds<T>(q: Quadrants<T>): (int, int, int, int) {
    (-|q.tr|, q.left, |q.br|, q.right)
  }

  /** Every index outside the bounds reads the default. */
  lemma OutsideReadsDefault<T>(q: Quadrants<T>, i: int, j: int)
    requires Valid(q)
    requires var b := Bounds(q); !(b.0 <= i < b.2 && b.1 <= j < b.3)
    ensures Get(q, i, j) == q.default
  {
    if HasRow(q, i) {
      var a := RowAt(q, i);
      assert !a.Within(j);
    }
  }

  /** Why crop refuses its arguments, checked in this order. */
  datatype CropError = TopAboveZero | LeftAboveZero | BottomBelowZero | RightBelowZero

  /** del s[n:] for n >= 0: keep at most the first n elements. */
  function Take<T>(s: seq<T>, n: nat): (r: seq<T>)
    ensures |r| == Min(|s|, n) && r == s[..|r|]
  {
    if n < |s| then s[..n] else s
  }

  /** for row in rows: del row[n:]. */
  function TakeEach<T>(rows: seq<seq<T>>, n: nat): (r: seq<seq<T>>)
    ensures |r| == |rows| && forall k :: 0 <= k < |r| ==> r[k] == Take(rows[k], n)
  {
    seq(|rows|, k requires 0 <= k < |rows| => Take(rows[k], n))
  }

  /**
   * crop(top, left, bottom, right): refuse a box that does not contain
   * (0, 0); otherwise drop the rows and columns outside it and narrow
   * left/right to it.
   */
  function Crop<T>(q: Quadrants<T>, top: int, left: int, bottom: int, right: int): (r: Result<Quadrants<T>, CropError>)
    requires Valid(q)
    ensures r.Failure? <==> top > 0 || left > 0 || bottom < 0 || right < 0
    ensures r.Failure? ==> r.error == if top > 0 then TopAboveZero else if left > 0 then LeftAboveZero
                                      else if bottom < 0 then BottomBelowZero else RightBelowZero
    ensures r.Success? ==> var c := r.value;
      && Valid(c) && c.default == q.default
      && |c.tr| <= -top && |c.br| <= bottom
      && (forall k :: 0 <= k < |c.tl| ==> |c.tl[k]| <= -left)
      && (forall k :: 0 <= k < |c.bl| ==> |c.bl[k]| <= -left)
      && (forall k :: 0 <= k < |c.tr| ==> |c.tr[k]| <= right)
      && (forall k :: 0 <= k < |c.br| ==> |c.br[k]| <= right)
      && c.left == Max(q.left, left) && c.right == Min(q.right, right)
  {
    if top > 0 then Failure(TopAboveZero)
    else if left > 0 then Failure(LeftAboveZero)
    else if bottom < 0 then Failure(BottomBelowZero)
    else if right < 0 then Failure(RightBelowZero)
    else
      Success(Quadrants(
        TakeEach(Take(q.br, bottom), right), TakeEach(Take(q.bl, bottom), -left),
        TakeEach(Take(q.tr, -top), right), TakeEach(Take(q.tl, -top), -left),
        Max(q.left, left), Min(q.right, right), q.default))
  }

  /** Inside the allowed range crop is the truncation of every list. */
  lemma CropIsTruncation<T>(q: Quadrants<T>, top: int, left: int, bottom: int, right: int)
    requires Valid(q) && top <= 0 && left <= 0 && 0 <= bottom && 0 <= right
    ensures Crop(q, top, left, bottom, right) == Success(Quadrants(
        TakeEach(Take(q.br, bottom), right), TakeEach(Take(q.bl, bottom), -left),
        TakeEach(Take(q.tr, -top), right), TakeEach(Take(q.tl, -top), -left),
        Max(q.left, left), Min(q.right, right), q.default))
  {
  }

  /** A successful crop keeps exactly the values inside the box; everything else reads the default. */
  lemma CropKeepsInside<T>(q: Quadrants<T>, top: int, left: int, bottom: int, right: int, i: int, j: int)
    requires Valid(q) && Crop(q, top, left, bottom, right).Success?
    ensures Get(Crop(q, top, left, bottom, right).value, i, j)
         == if top <= i < bottom && left <= j < right then Get(q, i, j) else q.default
  {
    var c := Crop(q, top, left, bottom, right).value;
    if HasRow(c, i) {
      var a, b := RowAt(c, i), RowAt(q, i);
      assert a.Get(j) == if left <= j < right then b.Get(j) else q.default;
    } else if top <= i < bottom && left <= j < right {
      assert !HasRow(q, i);
    }
  }

  /** The box shrink(by) hands to crop: every side moved inwards by `by`, clamped at 0. */
  function ShrinkBox<T>(q: Quadrants<T>, amount: int): (b: (int, int, int, int))
    ensures b.0 <= 0 && b.1 <= 0 && 0 <= b.2 && 0 <= b.3
  {
    (Min(-|q.tr| + amount, 0), Min(q.left + amount, 0), Max(|q.br| - amount, 0), Max(q.right - amount, 0))
  }

  /** shrink never raises: the clamped box always satisfies crop. */
  lemma ShrinkNeverFails<T>(q: Quadrants<T>, amount: int)
    requires Valid(q)
    ensures var b := ShrinkBox(q, amount); Crop(q, b.0, b.1, b.2, b.3).Success?
  {
  }

  /** shrink(by): crop to the box ShrinkBox gives. */
  function Shrink<T>(q: Quadrants<T>, amount: int): (r: Quadrants<T>)
    requires Valid(q)
    ensures Valid(r) && r.default == q.default
  {
    var b := ShrinkBox(q, amount);
    ShrinkNeverFails(q, amount);
    Crop(q, b.0, b.1, b.2, b.3).value
  }

  /** Shrinking keeps exactly the values inside the clamped box and reads the default elsewhere. */
  lemma ShrinkKeepsInside<T>(q: Quadrants<T>, amount: int, i: int, j: int)
    requires Valid(q)
    ensures var b := ShrinkBox(q, amount);
      Get(Shrink(q, amount), i, j)
        == if b.0 <= i < b.2 && b.1 <= j < b.3 then Get(q, i, j) else q.default
  {
    var b := ShrinkBox(q, amount);
    ShrinkNeverFails(q, amount);
    CropKeepsInside(q, b.0, b.1, b.2, b.3, i, j);
  }

  /** One step of Space3D.boundaries: widen the running (top, left, bottom, right) hull by a plane's boundaries. */
  function Widen(h: (int, int, int, int), p: (int, int, int, int)): (int, int, int, int) {
    (Min(h.0, p.0), Min(h.1, p.1), Max(h.2, p.2), Max(h.3, p.3))
  }

  /** The hull of the planes' boundaries, seeded with (0, 0, 0, 0), folded in iteration order. */
  function Hull<T>(ps: seq<Quadrants<T>>): (int, int, int, int) {
    if ps == [] then (0, 0, 0, 0) else Widen(Hull(ps[..|ps| - 1]), Bounds(ps[|ps| - 1]))
  }

  /** Folding one more plane widens the hull of the prefix by that plane. */
  lemma HullSnoc<T>(ps: seq<Quadrants<T>>, k: nat)
    requires k < |ps|
    ensures Hull(ps[..k + 1]) == Widen(Hull(ps[..k]), Bounds(ps[k]))
  {
    assert ps[..k + 1][..k] == ps[..k];
  }

  /** The hull contains 0 and the boundaries of every plane. */
  lemma {:induction false} HullCovers<T>(ps: seq<Quadrants<T>>)
    ensures var h := Hull(ps); h.0 <= 0 && h.1 <= 0 && 0 <= h.2 && 0 <= h.3
    ensures var h := Hull(ps); forall k :: 0 <= k < |ps| ==>
      h.0 <= Bounds(ps[k]).0 && h.1 <= Bounds(ps[k]).1 && Bounds(ps[k]).2 <= h.2 && Bounds(ps[k]).3 <= h.3
  {
    if ps != [] {
      var init := ps[..|ps| - 1];
      HullCovers(init);
      assert forall k :: 0 <= k < |init| ==> ps[k] == init[k];
    }
  }

  /** Each side of the hull is 0 or the same side of some plane. */
  lemma {:induction false} HullAttained<T>(ps: seq<Quadrants<T>>)
    ensures var h := Hull(ps);
      && (h.0 == 0 || exists k :: 0 <= k < |ps| && h.0 == Bounds(ps[k]).0)
      && (h.1 == 0 || exists k :: 0 <= k < |ps| && h.1 == Bounds(ps[k]).1)
      && (h.2 == 0 || exists k :: 0 <= k < |ps| && h.2 == Bounds(ps[k]).2)
      && (h.3 == 0 || exists k :: 0 <= k < |ps| && h.3 == Bounds(ps[k]).3)
  {
    if ps != [] {
      var init := ps[..|ps| - 1];
      HullAttained(init);
      assert forall k :: 0 <= k < |init| ==> ps[k] == init[k];
    }
  }

  /** Every plane of a Space3D is a valid sheet with the container's default. */
  ghost predicate Fits<T>(q: Quadrants<T>, d: T) {
    Valid(q) && q.default == d
  }

  /** The stored planes of a Space3D, all fitting. */
  ghost predicate Stack<T>(a: Axis<Quadrants<T>>) {
    && a.default == EmptySheet(a.default.default)
    && (forall k :: 0 <= k < |a.pos| ==> Fits(a.pos[k], a.default.default))
    && (forall k :: 0 <= k < |a.neg| ==> Fits(a.neg[k], a.default.default))
  }

  /** s[i, j, k] of a Space3D: a missing plane reads as the default. */
  function Get3<T>(a: Axis<Quadrants<T>>, i: int, j: int, k: int): T
    requires Stack(a)
  {
    var p := a.Get(i);
    assert Fits(p, a.default.default);
    Get(p, j, k)
  }

  /** Boundaries of a Space3D: axis 0 from the plane lists, the others the hull over the planes. */
  function Bounds3<T>(a: Axis<Quadrants<T>>): (b: (int, int, int, int, int, int)) {
    var h := Hull(a.Items());
    (a.Lo(), h.0, h.1, a.Hi(), h.2, h.3)
  }

  /** Every index of a Space3D outside its boundaries reads the default. */
  lemma OutsideReadsDefault3<T>(a: Axis<Quadrants<T>>, i: int, j: int, k: int)
    requires Stack(a)
    requires var b := Bounds3(a); !(b.0 <= i < b.3 && b.1 <= j < b.4 && b.2 <= k < b.5)
    ensures Get3(a, i, j, k) == a.default.default
  {
    var p := a.Get(i);
    if a.Within(i) {
      var items := a.Items();
      var n := i - a.Lo();
      assert items[n] == p;
      HullCovers(items);
      var h := Hull(items);
      assert h.0 <= Bounds(items[n]).0 && h.1 <= Bounds(items[n]).1 && Bounds(items[n]).2 <= h.2 && Bounds(items[n]).3 <= h.3;
      OutsideReadsDefault(p, j, k);
    }
  }
}
