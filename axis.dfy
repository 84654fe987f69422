/**
 * The bidirectional, never-failing integer-indexed axis that every container
 * of the library is built on: two growable lists and a default value.
 * An index i >= 0 lives in pos[i], an index i < 0 in neg[-i-1]; reading
 * outside both lists yields the default, writing pads with the default.
 */
module Axes {
  import opened Wrappers

  /** n copies of d, as Python's [d] * n. */
  function Repeat<T>(d: T, n: nat): (r: seq<T>)
    ensures |r| == n
    ensures forall k :: 0 <= k < n ==> r[k] == d
  {
    seq(n, _ => d)
  }

  /** A prefix one longer is the prefix and the next element. */
  lemma PrefixSnoc<T>(s: seq<T>, k: nat)
    requires k < |s|
    ensures s[..k + 1] == s[..k] + [s[k]]
  {
  }

  /** Python's reversed(s) materialised as a list. */
  function Reverse<T>(s: seq<T>): (r: seq<T>)
    ensures |r| == |s|
    ensures forall k :: 0 <= k < |s| ==> r[k] == s[|s| - 1 - k]
  {
    if s == [] then [] else Reverse(s[1..]) + [s[0]]
  }

  /** s extended with copies of d until it has at least n elements. */
  function Pad<T>(s: seq<T>, n: int, d: T): (r: seq<T>)
    ensures |r| == Max(|s|, n)
    ensures forall k :: 0 <= k < |s| ==> r[k] == s[k]
    ensures forall k :: |s| <= k < |r| ==> r[k] == d
  {
    if |s| >= n then s else s + Repeat(d, n - |s|)
  }

  datatype Axis<T> = Axis(pos: seq<T>, neg: seq<T>, default: T) {

    /** First materialised index: the start of the half-open boundaries. */
    function Lo(): int { -|neg| }

    /** One past the last materialised index. */
    function Hi(): int { |pos| }

    function Length(): nat { |pos| + |neg| }

    /** Index i has a slot in one of the two lists. */
    predicate Within(i: int) { Lo() <= i < Hi() }

    predicate IsEmpty() { pos == [] && neg == [] }

    /** Reading never fails: an index without a slot reads as the default. */
    function Get(i: int): (r: T)
      ensures !Within(i) ==> r == default
    {
      if i >= 0 then
        if i < |pos| then pos[i] else default
      else
        if -i - 1 < |neg| then neg[-i - 1] else default
    }

    /**
     * Pad the branch of index i with defaults until i has a slot. Only that
     * branch grows, and no index reads differently afterwards.
     */
    function Grow(i: int): (r: Axis<T>)
      ensures r.default == default && r.Within(i)
      ensures i >= 0 ==> r.neg == neg && |r.pos| == Max(|pos|, i + 1)
      ensures i < 0 ==> r.pos == pos && |r.neg| == Max(|neg|, -i)
      ensures forall j :: r.Get(j) == Get(j)
    {
      if i >= 0 then Axis(Pad(pos, i + 1, default), neg, default)
      else Axis(pos, Pad(neg, -i, default), default)
    }

    /**
     * Write v at index i: pad the branch of i with defaults, then assign.
     * Afterwards i reads v and every other index reads what it read before.
     */
    function Set(i: int, v: T): (r: Axis<T>)
      ensures r.default == default && r.Within(i)
      ensures i >= 0 ==> r.neg == neg && |r.pos| == Max(|pos|, i + 1)
      ensures i < 0 ==> r.pos == pos && |r.neg| == Max(|neg|, -i)
      ensures r.Get(i) == v
      ensures forall j :: j != i ==> r.Get(j) == Get(j)
    {
      var g := Grow(i);
      if i >= 0 then g.(pos := g.pos[i := v]) else g.(neg := g.neg[-i - 1 := v])
    }

    /** Iteration order: reversed(neg) then pos, i.e. ascending index order. */
    function Items(): (r: seq<T>)
      ensures |r| == Length()
      ensures forall k :: 0 <= k < |r| ==> r[k] == Get(Lo() + k)
    {
      Reverse(neg) + pos
    }
  }

  /**
   * Writing keeps any property that the default, the written value and
   * every slot already have: padding only adds copies of the default.
   */
  lemma SetKeeps<T>(a: Axis<T>, i: int, v: T, P: T -> bool)
    requires P(a.default) && P(v)
    requires forall k :: 0 <= k < |a.pos| ==> P(a.pos[k])
    requires forall k :: 0 <= k < |a.neg| ==> P(a.neg[k])
    ensures var r := a.Set(i, v);
      (forall k :: 0 <= k < |r.pos| ==> P(r.pos[k])) && (forall k :: 0 <= k < |r.neg| ==> P(r.neg[k]))
  {
    var r := a.Set(i, v);
    forall k | 0 <= k < |r.pos| ensures P(r.pos[k]) {
      assert r.pos[k] == r.Get(k);
    }
    forall k | 0 <= k < |r.neg| ensures P(r.neg[k]) {
      assert r.neg[k] == r.Get(-k - 1);
    }
  }

  /** Growing first changes nothing a write would not do anyway. */
  lemma GrowThenSet<T>(a: Axis<T>, i: int, v: T)
    ensures a.Grow(i).Set(i, v) == a.Set(i, v)
  {
  }

  function Empty<T>(d: T): Axis<T> { Axis([], [], d) }

  /**
   * The layout left by a bulk load of content c starting at index k: with
   * k >= 0, k defaults then c in pos; with k < 0, neg holds -k slots filled
   * backwards from c (defaults where c runs out) and the rest of c goes to pos.
   * c[j] lands at index k + j and every other index reads the default.
   */
  function Load<T>(c: seq<T>, k: int, d: T): (r: Axis<T>)
    ensures r.default == d
    ensures r.Lo() == Min(k, 0) && r.Hi() == Max(0, k + |c|)
    ensures forall i :: r.Get(i) == if k <= i < k + |c| then c[i - k] else d
  {
    if k >= 0 then Axis(Repeat(d, k) + c, [], d)
    else
      var neg := seq(-k, j requires 0 <= j < -k => if -k - 1 - j < |c| then c[-k - 1 - j] else d);
      Axis(if |c| > -k then c[-k..] else [], neg, d)
  }

  /** Loading keeps any property that the default and every loaded element have. */
  lemma LoadKeeps<T>(c: seq<T>, k: int, d: T, P: T -> bool)
    requires P(d) && forall j :: 0 <= j < |c| ==> P(c[j])
    ensures var r := Load(c, k, d);
      (forall j :: 0 <= j < |r.pos| ==> P(r.pos[j])) && (forall j :: 0 <= j < |r.neg| ==> P(r.neg[j]))
  {
    var r := Load(c, k, d);
    forall j | 0 <= j < |r.pos| ensures P(r.pos[j]) {
      assert r.pos[j] == r.Get(j);
    }
    forall j | 0 <= j < |r.neg| ensures P(r.neg[j]) {
      assert r.neg[j] == r.Get(-j - 1);
    }
  }

  /** Two axes with the same default and branch lengths that read alike everywhere are equal. */
  lemma Ext<T>(a: Axis<T>, b: Axis<T>)
    requires a.default == b.default && |a.pos| == |b.pos| && |a.neg| == |b.neg|
    requires forall i :: a.Get(i) == b.Get(i)
    ensures a == b
  {
    forall j | 0 <= j < |a.pos| ensures a.pos[j] == b.pos[j] {
      assert a.Get(j) == b.Get(j);
    }
    forall j | 0 <= j < |a.neg| ensures a.neg[j] == b.neg[j] {
      assert a.Get(-j - 1) == b.Get(-j - 1);
    }
  }

  /**
   * Loading one more element is the same as writing it after the others:
   * the bulk load equals the element-by-element writes c[j] at k + j
   * starting from an empty axis.
   */
  lemma LoadSnoc<T>(c: seq<T>, x: T, k: int, d: T)
    ensures Load(c + [x], k, d) == (if c == [] then Empty(d) else Load(c, k, d)).Set(k + |c|, x)
  {
    var before := if c == [] then Empty(d) else Load(c, k, d);
    var l, s := Load(c + [x], k, d), before.Set(k + |c|, x);
    forall i ensures l.Get(i) == s.Get(i) {
      if i != k + |c| {
        assert before.Get(i) == if k <= i < k + |c| then c[i - k] else d;
      }
    }
    Ext(l, s);
  }
}
