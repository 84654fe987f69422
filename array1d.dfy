/**
 * Array1D: the one-dimensional container over one axis, with slice
 * assignment and a pull-based bulk load.
 */
module Array1D {
  import opened Wrappers
  import opened Axes

  /** A slice a[start:stop:step]; each part may be left out. */
  datatype Slice = Slice(start: Option<int>, stop: Option<int>, step: Option<int>)

  /** range() refuses a zero step with ValueError. */
  datatype SliceError = ZeroStep

  /** The indices of Python's range(start, stop, step), in iteration order. */
  function Range(start: int, stop: int, step: int): (r: seq<int>)
    requires step != 0
    ensures |r| == 0 <==> (if step > 0 then stop <= start else start <= stop)
    ensures forall k :: 0 <= k < |r| ==> if step > 0 then start <= r[k] < stop else stop < r[k] <= start
    ensures |r| > 0 ==> if step > 0 then stop <= r[|r| - 1] + step else r[|r| - 1] + step <= stop
    decreases if step > 0 then stop - start else start - stop
  {
    if (step > 0 && start < stop) || (step < 0 && stop < start) then
      [start] + Range(start + step, stop, step)
    else []
  }

  /** The k-th index of a range is start + k * step. */
  lemma {:induction false} RangeAt(start: int, stop: int, step: int, k: nat)
    requires step != 0 && k < |Range(start, stop, step)|
    ensures Range(start, stop, step)[k] == start + k * step
    decreases k
  {
    if k > 0 {
      RangeAt(start + step, stop, step, k - 1);
      assert (k - 1) * step == k * step - step;
    }
  }

  /** The axis after writing v at every index of idxs, in order. */
  function SetAll<T>(a: Axis<T>, idxs: seq<int>, v: T): Axis<T>
    decreases |idxs|
  {
    if idxs == [] then a else SetAll(a.Set(idxs[0], v), idxs[1..], v)
  }

  /**
   * After writing v at every index of idxs, those indices read v and hold a
   * slot, every other index reads as before, and the axis only grew.
   */
  lemma {:induction false} SetAllGet<T>(a: Axis<T>, idxs: seq<int>, v: T)
    ensures var r := SetAll(a, idxs, v);
      && r.default == a.default
      && (forall i :: r.Get(i) == if i in idxs then v else a.Get(i))
      && r.Lo() <= a.Lo() && a.Hi() <= r.Hi()
      && (forall i :: i in idxs ==> r.Within(i))
    decreases |idxs|
  {
    if idxs != [] {
      SetAllGet(a.Set(idxs[0], v), idxs[1..], v);
      assert forall i :: i in idxs <==> i == idxs[0] || i in idxs[1..];
    }
  }

  /** What is left to do when the slice fill has reached index i (keeps the loop proof small). */
  ghost function Remaining<T>(a: Axis<T>, i: int, stop: int, step: int, v: T): Axis<T>
    requires step != 0
  { SetAll(a, Range(i, stop, step), v) }

  /** One step of the slice fill: write index i, then the rest of the range. */
  lemma SetAllCons<T>(a: Axis<T>, i: int, stop: int, step: int, v: T)
    requires step != 0 && (if step > 0 then i < stop else stop < i)
    ensures Remaining(a, i, stop, step, v) == Remaining(a.Set(i, v), i + step, stop, step, v)
  {
    assert Range(i, stop, step)[1..] == Range(i + step, stop, step);
  }

  /** The loop step of the slice fill: after writing index i, what remains from i + step still reaches the target. */
  lemma FillStep<T>(before: Axis<T>, after: Axis<T>, i: int, stop: int, step: int, v: T, target: Axis<T>)
    requires step != 0 && (if step > 0 then i < stop else stop < i)
    requires Remaining(before, i, stop, step, v) == target && after == before.Set(i, v)
    ensures Remaining(after, i + step, stop, step, v) == target
  {
    SetAllCons(before, i, stop, step, v);
  }

  /** Filling a slice with a step of 1 or -1 and no bounds writes exactly the materialised indices. */
  lemma {:induction false} FullRangeCoversAxis(lo: int, hi: int, step: int, i: int)
    requires lo <= hi && (step == 1 || step == -1)
    ensures var r := if step > 0 then Range(lo, hi, step) else Range(hi - 1, lo - 1, step);
            i in r <==> lo <= i < hi
  {
    var r := if step > 0 then Range(lo, hi, step) else Range(hi - 1, lo - 1, step);
    if lo <= i < hi {
      var k := if step > 0 then i - lo else hi - 1 - i;
      RangeLength(lo, hi, step);
      if step > 0 {
        RangeAt(lo, hi, step, k);
      } else {
        RangeAt(hi - 1, lo - 1, step, k);
      }
      assert r[k] == i;
    }
  }

  lemma {:induction false} RangeLength(lo: int, hi: int, step: int)
    requires lo <= hi && (step == 1 || step == -1)
    ensures var r := if step > 0 then Range(lo, hi, step) else Range(hi - 1, lo - 1, step);
            |r| == hi - lo
    decreases hi - lo
  {
    if lo < hi {
      if step > 0 {
        RangeLength(lo + 1, hi, step);
      } else {
        RangeLength(lo, hi - 1, step);
      }
    }
  }

  class Array1D<T> {
    var pos: seq<T>
    var neg: seq<T>
    const default: T

    /** The axis this container stores. */
    function View(): Axis<T>
      reads this
    {
      Axis(pos, neg, default)
    }

    /** An empty container, bulk-loaded from content at offset when content is given. */
    constructor (default: T, content: Option<seq<T>>, offset: int)
      ensures this.default == default
      ensures View() == if content.Some? then Load(content.value, offset, default) else Empty(default)
    {
      this.default := default;
      pos, neg := [], [];
      new;
      if content.Some? {
        ReplaceContent(content.value, offset);
      }
    }

    /** Half-open (start, end) of the materialised indices; it always contains 0. */
    function Boundaries(): (r: (int, int))
      reads this
      ensures r.0 <= 0 <= r.1 && r.1 - r.0 == View().Length()
      ensures forall i :: View().Within(i) <==> r.0 <= i < r.1
    {
      (-|neg|, |pos|)
    }

    /** The first materialised index. */
    function Offset(): (r: int)
      reads this
      ensures r <= 0 && r == Boundaries().0
    {
      -|neg|
    }

    /** Nothing is materialised; then every index reads the default. */
    predicate IsEmpty()
      reads this
      ensures IsEmpty() <==> Length() == 0
      ensures IsEmpty() ==> forall i :: Get(i) == default
    {
      !(|neg| > 0 || |pos| > 0)
    }

    function Length(): (r: nat)
      reads this
      ensures r == |Items()|
    {
      |pos| + |neg|
    }

    /** Iteration: the values at indices Offset() .. Boundaries().1 - 1 in ascending order. */
    function Items(): (r: seq<T>)
      reads this
      ensures forall k :: 0 <= k < |r| ==> r[k] == Get(Offset() + k)
    {
      View().Items()
    }

    /** a[i]: never fails. */
    function Get(i: int): (r: T)
      reads this
      ensures !View().Within(i) ==> r == default
    {
      View().Get(i)
    }

    /** a[i] = v: pad the branch of i with the default, then assign. */
    method SetItem(i: int, v: T)
      modifies this
      ensures View() == old(View()).Set(i, v)
    {
      if i >= 0 {
        if |pos| <= i {
          pos := pos + Repeat(default, i - |pos| + 1);
        }
        pos := pos[i := v];
      } else {
        var j := -i - 1;
        if |neg| <= j {
          neg := neg + Repeat(default, j - |neg| + 1);
        }
        neg := neg[j := v];
      }
    }

    /**
     * The (start, stop, step) a slice stands for: step 1 when missing; a
     * missing start or stop extends to the boundaries in the direction of
     * the step.
     */
    function RangeIndices(s: Slice): (r: (int, int, int))
      reads this
      ensures r.2 == s.step.GetOr(1)
      ensures s.start.Some? ==> r.0 == s.start.value
      ensures s.stop.Some? ==> r.1 == s.stop.value
      ensures s.start.None? && r.2 > 0 ==> r.0 == Boundaries().0
      ensures s.start.None? && r.2 <= 0 ==> r.0 == Boundaries().1 - 1
      ensures s.stop.None? && r.2 > 0 ==> r.1 == Boundaries().1
      ensures s.stop.None? && r.2 <= 0 ==> r.1 == Boundaries().0 - 1
    {
      var step := if s.step.Some? then s.step.value else 1;
      var start := if s.start.Some? then s.start.value
                   else if step > 0 then -|neg| else |pos| - 1;
      var stop := if s.stop.Some? then s.stop.value
                  else if step > 0 then |pos| else -|neg| - 1;
      (start, stop, step)
    }

    /** a[s]: the values at the slice's indices, in range order. */
    function GetSlice(s: Slice): (r: Result<seq<T>, SliceError>)
      reads this
      ensures r.Failure? <==> RangeIndices(s).2 == 0
      ensures r.Success? ==> var idx := RangeIndices(s);
        var range := Range(idx.0, idx.1, idx.2);
        |r.value| == |range| && forall k :: 0 <= k < |range| ==> r.value[k] == Get(range[k])
    {
      var (start, stop, step) := RangeIndices(s);
      if step == 0 then Failure(ZeroStep)
      else
        var range, a := Range(start, stop, step), View();
        Success(seq(|range|, k requires 0 <= k < |range| => a.Get(range[k])))
    }

    /** a[s] = v: write v at every index of the slice's range, one index at a time. */
    method SetSlice(s: Slice, v: T) returns (r: Outcome<SliceError>)
      modifies this
      ensures var idx := old(RangeIndices(s));
        if idx.2 == 0 then r == Fail(ZeroStep) && View() == old(View())
        else r == Pass && View() == SetAll(old(View()), Range(idx.0, idx.1, idx.2), v)
    {
      var (start, stop, step) := RangeIndices(s);
      if step == 0 {
        return Fail(ZeroStep);
      }
      ghost var target := SetAll(View(), Range(start, stop, step), v);
      var i := start;
      while if step > 0 then i < stop else stop < i
        invariant Remaining(View(), i, stop, step, v) == target
        decreases if step > 0 then stop - i else i - stop
      {
        ghost var before := View();
        SetItem(i, v);
        FillStep(before, View(), i, stop, step, v, target);
        i := i + step;
      }
      return Pass;
    }

    /**
     * Discard the content and load c so that c[j] lands at index offset + j.
     * A negative offset fills neg backwards from the front of c, stopping
     * when c runs out; what remains of c is appended to pos.
     */
    method ReplaceContent(c: seq<T>, offset: int)
      modifies this
      ensures View() == Load(c, offset, default)
    {
      if offset >= 0 {
        neg := [];
        pos := Repeat(default, offset) + c;
        return;
      }
      neg := Repeat(default, -offset);
      pos := [];
      var next := 0;
      var index := -offset - 1;
      while index > -1
        invariant -1 <= index <= -offset - 1 && next == -offset - 1 - index && next <= |c|
        invariant |neg| == -offset && pos == []
        invariant forall j :: index < j < -offset ==> neg[j] == c[-offset - 1 - j]
        invariant forall j :: 0 <= j <= index ==> neg[j] == default
      {
        if next == |c| {
          return;
        }
        neg := neg[index := c[next]];
        next, index := next + 1, index - 1;
      }
      while true
        invariant -offset <= next <= |c| && pos == c[-offset..next]
        invariant |neg| == -offset && forall j :: 0 <= j < -offset ==> neg[j] == c[-offset - 1 - j]
        decreases |c| - next
      {
        if next == |c| {
          return;
        }
        assert c[-offset..next + 1] == c[-offset..next] + [c[next]];
        pos := pos + [c[next]];
        next := next + 1;
      }
    }
  }
}
