/**
 * Stretchy1D: the one-dimensional container with a slicing bulk load and
 * the text forms of the format mini-language.
 */
module Stretchy1D {
  import opened Wrappers
  import opened Axes
  import opened Stretchy1DFormat

  /**
   * The layout set(a, k) builds with slices: k >= 0 puts k defaults before a;
   * a negative k reaching below the whole of a makes neg the defaults for
   * the indices -1 down to k + |a| followed by a reversed, with pos empty;
   * otherwise neg is a[-k-1::-1] and pos is a[-k:].
   */
  function SliceLayout<T>(a: seq<T>, k: int, d: T): Axis<T> {
    if k >= 0 then Axis(Repeat(d, k) + a, [], d)
    else if -k > |a| then Axis([], Repeat(d, -k - |a|) + Reverse(a), d)
    else Axis(a[-k..], Reverse(a[..-k]), d)
  }

  /** The slicing load and Array1D's element-by-element load leave the same layout. */
  lemma {:induction false} SliceLayoutIsLoad<T>(a: seq<T>, k: int, d: T)
    ensures SliceLayout(a, k, d) == Load(a, k, d)
  {
    var s, l := SliceLayout(a, k, d), Load(a, k, d);
    if k < 0 {
      forall i ensures s.Get(i) == l.Get(i) {
        if i < 0 && i >= k {
          var j := -i - 1;
          if -k > |a| {
            var p := -k - |a|;
            if j >= p {
              assert s.neg[j] == Reverse(a)[j - p];
            } else {
              assert s.neg[j] == d;
            }
          } else {
            assert s.neg[j] == a[..-k][-k - 1 - j];
          }
        }
      }
      Ext(s, l);
    }
  }

  /** Joining one more element of xs extends the joined prefix. */
  lemma JoinPrefix(sep: string, xs: seq<string>, i: nat)
    requires i < |xs|
    ensures Join(sep, xs[..i + 1]) == if i == 0 then xs[0] else Join(sep, xs[..i]) + sep + xs[i]
  {
    if i > 0 {
      JoinSnoc(sep, xs[..i], xs[i]);
      assert xs[..i + 1] == xs[..i] + [xs[i]];
    }
  }

  /** The text joined so far, then the separator unless it is the first item, then the next item. */
  lemma JoinStep(sep: string, xs: seq<string>, i: nat, out: string)
    requires i < |xs| && (i == 0 ==> out == "") && (i > 0 ==> out == Join(sep, xs[..i]))
    ensures out + (if i > 0 then sep else "") + xs[i] == Join(sep, xs[..i + 1])
  {
    JoinPrefix(sep, xs, i);
  }

  /** Item text for one-character strings: str shows the character, repr quotes it. */
  function Chars(): Render<char> {
    Render(c => [c], c => ['\'', c, '\''], c => false, c => false)
  }

  /** Under the 's' code, a container of characters prints as its items run together. */
  lemma {:induction false} CharsRunTogether(items: seq<char>)
    ensures Format(items, "s", Chars()) == Success(items)
    decreases |items|
  {
    var vs := Values(items, Chars(), StrMode);
    assert Code("s") == "s";
    assert Format(items, "s", Chars()) == Success(Join("", vs));
    if |items| == 1 {
      assert vs == [[items[0]]] && items == [items[0]];
    } else if |items| > 1 {
      CharsRunTogether(items[1..]);
      assert Values(items[1..], Chars(), StrMode) == vs[1..];
      assert vs[0] == [items[0]];
      assert Join("", vs) == vs[0] + Join("", vs[1..]);
      assert items == [items[0]] + items[1..];
    }
  }

  /**
   * A container of '.' written '#' at -6 and then at -2 prints '#...#.'
   * under the 's' code, and its first index is -6.
   */
  lemma WritesExample()
    ensures var a := Empty('.').Set(-6, '#').Set(-2, '#');
      a.Lo() == -6 && Format(a.Items(), "s", Chars()) == Success("#...#.")
  {
    var a := Empty('.').Set(-6, '#').Set(-2, '#');
    assert a.neg == ".#...#";
    assert a.Items() == "#...#.";
    CharsRunTogether(a.Items());
  }

  /**
   * set('12345', -7) on a container of '.' starts at -7 and prints
   * '12345..': the defaults fill the gap between the content and index 0.
   */
  lemma SetExample()
    ensures var a := SliceLayout("12345", -7, '.');
      a.Lo() == -7 && Format(a.Items(), "s", Chars()) == Success("12345..")
  {
    var a := SliceLayout("12345", -7, '.');
    assert a.neg == ".." + "54321";
    assert a.Items() == "12345..";
    CharsRunTogether(a.Items());
  }

  class Stretchy1D<T> {
    var pos: seq<T>
    var neg: seq<T>
    const default: T

    /** The axis this container stores. */
    function View(): Axis<T>
      reads this
    {
      Axis(pos, neg, default)
    }

    /** An empty container: every index reads default. */
    constructor (default: T)
      ensures View() == Empty(default)
    {
      this.default := default;
      pos, neg := [], [];
    }

    /** set(array, offset): replace the content so that a[j] lands at index offset + j. */
    method Set(a: seq<T>, offset: int)
      modifies this
      ensures View() == Load(a, offset, default)
    {
      if offset >= 0 {
        neg := [];
        pos := Repeat(default, offset) + a;
      } else if -offset > |a| {
        neg := Repeat(default, -offset - |a|) + Reverse(a);
        pos := [];
      } else {
        neg := Reverse(a[..-offset]);
        pos := a[-offset..];
      }
      SliceLayoutIsLoad(a, offset, default);
    }

    /** s[i] = v: pad the branch of i with the default, then assign. */
    method SetItem(i: int, v: T)
      modifies this
      ensures View() == old(View()).Set(i, v)
    {
      if i >= 0 {
        if |pos| <= i {
          pos := pos + Repeat(default, i - |pos| + 1);
        }
        pos := pos[i := v];
      } else {
        var j := -i - 1;
        if |neg| <= j {
          neg := neg + Repeat(default, j - |neg| + 1);
        }
        neg := neg[j := v];
      }
    }

    /** s[i]: never fails; an index without a slot reads the default. */
    function Get(i: int): (r: T)
      reads this
      ensures !View().Within(i) ==> r == default
      ensures i >= 0 && i < |pos| ==> r == pos[i]
      ensures i < 0 && -i - 1 < |neg| ==> r == neg[-i - 1]
    {
      View().Get(i)
    }

    /** The first materialised index. */
    function Offset(): (r: int)
      reads this
      ensures r <= 0 && r == View().Lo()
    {
      -|neg|
    }

    function Length(): (r: nat)
      reads this
      ensures r == |Items()|
    {
      |pos| + |neg|
    }

    /** Iteration: reversed(neg) then pos, i.e. the values from Offset() upwards. */
    function Items(): (r: seq<T>)
      reads this
      ensures forall k :: 0 <= k < |r| ==> r[k] == Get(Offset() + k)
    {
      View().Items()
    }

    /**
     * str(s): the str texts between bars, comma-separated; without commas in
     * the texts it splits back into them.
     */
    function Str(r: Render<T>): (s: string)
      reads this
      ensures |s| >= 2 && s[0] == '|' && s[|s| - 1] == '|'
      ensures Items() != [] && (forall k :: 0 <= k < |Items()| ==> ',' !in r.str(Items()[k])) ==>
                Split(s[1..|s| - 1], ',') == Texts(Items(), r.str)
    {
      if Items() != [] && forall k :: 0 <= k < |Items()| ==> ',' !in r.str(Items()[k]) then
        BracketedSplits(Items(), r.str);
        Bracketed(Items(), r.str)
      else Bracketed(Items(), r.str)
    }

    /** repr(s): as str(s) with the repr texts. */
    function Repr(r: Render<T>): (s: string)
      reads this
      ensures |s| >= 2 && s[0] == '|' && s[|s| - 1] == '|'
      ensures Items() != [] && (forall k :: 0 <= k < |Items()| ==> ',' !in r.repr(Items()[k])) ==>
                Split(s[1..|s| - 1], ',') == Texts(Items(), r.repr)
    {
      if Items() != [] && forall k :: 0 <= k < |Items()| ==> ',' !in r.repr(Items()[k]) then
        BracketedSplits(Items(), r.repr);
        Bracketed(Items(), r.repr)
      else Bracketed(Items(), r.repr)
    }

    /**
     * The 'a' layout, built one cell at a time: the widest text sets the
     * width; None shows as the empty text, numbers align right, the rest
     * left; max() over no items raises ValueError.
     */
    method Columns(r: Render<T>, m: Mode) returns (res: Result<string, FormatError>)
      ensures res == ColumnsText(Items(), r, m)
    {
      var items := Items();
      if items == [] {
        return Failure(EmptyMax);
      }
      var w := Width(items, r, m);
      ghost var cells := Cells(items, w, r, m);
      var out := "";
      var i := 0;
      while i < |items|
        invariant 0 <= i <= |items|
        invariant i == 0 ==> out == ""
        invariant i > 0 ==> out == Join(" ", cells[..i])
      {
        JoinStep(" ", cells, i, out);
        out := out + (if i > 0 then " " else "");
        var cell;
        if r.isNone(items[i]) {
          cell := AlignLeft(BlankText(m), w);
        } else if r.isNumeric(items[i]) {
          cell := AlignRight(Text(r, m, items[i]), w);
        } else {
          cell := AlignLeft(Text(r, m, items[i]), w);
        }
        assert cell == cells[i];
        out := out + cell;
        i := i + 1;
      }
      assert cells[..|items|] == cells;
      return Success(out);
    }

    /** format(s, fmt): the 'a' code through the Columns loop, every other code as Stretchy1DFormat.Format. */
    method Format(fmt: string, r: Render<T>) returns (res: Result<string, FormatError>)
      ensures res == Stretchy1DFormat.Format(Items(), fmt, r)
    {
      if fmt != "" && Code(fmt) == "a" {
        res := Columns(r, if fmt[0] == 'r' then ReprMode else StrMode);
      } else {
        res := Stretchy1DFormat.Format(Items(), fmt, r);
      }
    }
  }
}
