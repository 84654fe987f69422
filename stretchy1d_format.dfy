/**
 * The text forms of a one-dimensional container: str/repr between bars and
 * the format mini-language ('r' prefix for repr text, 's' to concatenate,
 * 'Xs' to join with X, 'a' for aligned columns). Item text is abstract:
 * the caller supplies str, repr and the two type tests.
 */
module Stretchy1DFormat {
  import opened Wrappers

  /** What the container needs to know about its items' text. */
  datatype Render<-T> = Render(str: T -> string, repr: T -> string, isNone: T -> bool, isNumeric: T -> bool)

  /** Python shows None as None under both str and repr. */
  predicate ShowsNone<T>(r: Render<T>, items: seq<T>) {
    forall k :: 0 <= k < |items| && r.isNone(items[k]) ==> r.str(items[k]) == "None" && r.repr(items[k]) == "None"
  }

  /** Plain text (str) or literal text (repr). */
  datatype Mode = StrMode | ReprMode

  /** Both are ValueError: an unknown code, or max() over no items in column mode. */
  datatype FormatError = UnknownCode(code: string) | EmptyMax

  function Text<T>(r: Render<T>, m: Mode, x: T): string {
    if m == StrMode then r.str(x) else r.repr(x)
  }

  /** The text of the empty string that replaces None: str('') or repr(''). */
  function BlankText(m: Mode): string {
    if m == StrMode then "" else "''"
  }

  /** Python's sep.join(xs). */
  function Join(sep: string, xs: seq<string>): string
    decreases |xs|
  {
    if |xs| == 0 then ""
    else if |xs| == 1 then xs[0]
    else xs[0] + sep + Join(sep, xs[1..])
  }

  /** Appending one more item appends the separator and the item. */
  lemma {:induction false} JoinSnoc(sep: string, xs: seq<string>, x: string)
    requires |xs| > 0
    ensures Join(sep, xs + [x]) == Join(sep, xs) + sep + x
    decreases |xs|
  {
    if |xs| > 1 {
      assert (xs + [x])[1..] == xs[1..] + [x];
      JoinSnoc(sep, xs[1..], x);
    }
  }

  /** Python's s.split(c) for a one-character separator. */
  function Split(s: string, c: char): (r: seq<string>)
    ensures |r| > 0
  {
    if s == [] then [""]
    else
      var rest := Split(s[1..], c);
      if s[0] == c then [""] + rest else [[s[0]] + rest[0]] + rest[1..]
  }

  lemma {:induction false} SplitWithoutSeparator(s: string, c: char)
    requires c !in s
    ensures Split(s, c) == [s]
  {
    if s != [] {
      SplitWithoutSeparator(s[1..], c);
      assert [s[0]] + s[1..] == s;
    }
  }

  lemma {:induction false} SplitAfterFirst(a: string, b: string, c: char)
    requires c !in a
    ensures Split(a + [c] + b, c) == [a] + Split(b, c)
  {
    if a == [] {
      assert a + [c] + b == [c] + b;
      assert ([c] + b)[1..] == b;
    } else {
      assert (a + [c] + b)[1..] == a[1..] + [c] + b;
      SplitAfterFirst(a[1..], b, c);
      assert [a[0]] + a[1..] == a;
    }
  }

  /** Joining with a character no item contains splits back into the items. */
  lemma {:induction false} JoinThenSplit(xs: seq<string>, c: char)
    requires |xs| > 0
    requires forall k :: 0 <= k < |xs| ==> c !in xs[k]
    ensures Split(Join([c], xs), c) == xs
    decreases |xs|
  {
    if |xs| == 1 {
      SplitWithoutSeparator(xs[0], c);
    } else {
      var rest := xs[1..];
      assert forall k :: 0 <= k < |rest| ==> rest[k] == xs[k + 1];
      JoinThenSplit(rest, c);
      assert Join([c], xs) == xs[0] + [c] + Join([c], rest);
      SplitAfterFirst(xs[0], Join([c], rest), c);
      assert xs == [xs[0]] + rest;
    }
  }

  function Spaces(n: nat): (r: string)
    ensures |r| == n && forall k :: 0 <= k < n ==> r[k] == ' '
  {
    seq(n, _ => ' ')
  }

  /** f'{s: <{w}}': s padded on the right to width w; s starts the cell. */
  function AlignLeft(s: string, w: nat): (r: string)
    ensures |r| == Max(|s|, w) && r[..|s|] == s
    ensures forall k :: |s| <= k < |r| ==> r[k] == ' '
  {
    if |s| >= w then s else s + Spaces(w - |s|)
  }

  /** f'{s: >{w}}': s padded on the left to width w; s ends the cell. */
  function AlignRight(s: string, w: nat): (r: string)
    ensures |r| == Max(|s|, w) && r[|r| - |s|..] == s
    ensures forall k :: 0 <= k < |r| - |s| ==> r[k] == ' '
  {
    if |s| >= w then s else Spaces(w - |s|) + s
  }

  /** The widest item text: max(len(mod(item)) for item in items). */
  function Width<T>(items: seq<T>, r: Render<T>, m: Mode): (w: nat)
    requires |items| > 0
    ensures forall k :: 0 <= k < |items| ==> |Text(r, m, items[k])| <= w
  {
    if |items| == 1 then |Text(r, m, items[0])|
    else
      var rest := Width(items[1..], r, m);
      assert forall k :: 1 <= k < |items| ==> items[k] == items[1..][k - 1];
      Max(|Text(r, m, items[0])|, rest)
  }

  /** The width is the width of some item's text, so no cell is wider than needed. */
  lemma {:induction false} WidthAttained<T>(items: seq<T>, r: Render<T>, m: Mode) returns (k: nat)
    requires |items| > 0
    ensures k < |items| && |Text(r, m, items[k])| == Width(items, r, m)
  {
    if |items| == 1 {
      k := 0;
    } else if |Text(r, m, items[0])| >= Width(items[1..], r, m) {
      k := 0;
    } else {
      var j := WidthAttained(items[1..], r, m);
      k := j + 1;
    }
  }

  /** One column cell: None prints as the empty string, numbers right-aligned, the rest left-aligned. */
  function Cell<T>(x: T, w: nat, r: Render<T>, m: Mode): string {
    if r.isNone(x) then AlignLeft(BlankText(m), w)
    else if r.isNumeric(x) then AlignRight(Text(r, m, x), w)
    else AlignLeft(Text(r, m, x), w)
  }

  function Cells<T>(items: seq<T>, w: nat, r: Render<T>, m: Mode): (cs: seq<string>)
    ensures |cs| == |items|
  {
    seq(|items|, k requires 0 <= k < |items| => Cell(items[k], w, r, m))
  }

  /** The 'a' code: every cell padded to the widest text, one space between cells. */
  function ColumnsText<T>(items: seq<T>, r: Render<T>, m: Mode): Result<string, FormatError> {
    if items == [] then Failure(EmptyMax)
    else Success(Join(" ", Cells(items, Width(items, r, m), r, m)))
  }

  /** Where cell k starts when cells of width w are separated by one space. */
  function CellStart(k: nat, w: nat): nat {
    if k == 0 then 0 else CellStart(k - 1, w) + w + 1
  }

  /** Cell k starts at k * (w + 1). */
  lemma {:induction false} CellStartIsProduct(k: nat, w: nat)
    ensures CellStart(k, w) == k * (w + 1)
  {
    if k > 0 {
      CellStartIsProduct(k - 1, w);
      assert (k - 1) * (w + 1) + w + 1 == k * (w + 1);
    }
  }

  /** Equal-width items joined by one space sit at CellStart(k, w), with a space after each but the last. */
  lemma {:induction false} JoinUniform(cs: seq<string>, w: nat, k: nat)
    requires 0 <= k < |cs|
    requires forall j :: 0 <= j < |cs| ==> |cs[j]| == w
    ensures |Join(" ", cs)| == CellStart(|cs|, w) - 1
    ensures CellStart(k, w) + w + 1 <= CellStart(|cs|, w)
    ensures Join(" ", cs)[CellStart(k, w)..CellStart(k, w) + w] == cs[k]
    ensures k + 1 < |cs| ==> CellStart(k, w) + w < |Join(" ", cs)| && Join(" ", cs)[CellStart(k, w) + w] == ' '
    decreases |cs|
  {
    if |cs| > 1 {
      var rest := Join(" ", cs[1..]);
      JoinUniform(cs[1..], w, if k == 0 then 0 else k - 1);
      assert Join(" ", cs) == cs[0] + " " + rest;
    }
  }

  /**
   * A cell is exactly w characters wide when w bounds the text (and the
   * blank text of None); it holds the text right-aligned when numeric and
   * left-aligned otherwise.
   */
  lemma CellAlignment<T>(x: T, w: nat, r: Render<T>, m: Mode)
    requires |Text(r, m, x)| <= w && (r.isNone(x) ==> |BlankText(m)| <= w)
    ensures var cell, t := Cell(x, w, r, m), Text(r, m, x);
      && |cell| == w
      && (r.isNone(x) ==> cell[..|BlankText(m)|] == BlankText(m))
      && (!r.isNone(x) && r.isNumeric(x) ==> cell[w - |t|..] == t)
      && (!r.isNone(x) && !r.isNumeric(x) ==> cell[..|t|] == t)
  {
  }

  /**
   * out is n cells of width w joined by single spaces, and cell k, which
   * starts at CellStart(k, w), is the given cell and is followed by a space
   * unless it is the last.
   */
  predicate CellsJoined(out: string, n: nat, w: nat, k: nat, cell: string) {
    && |out| == CellStart(n, w) - 1
    && CellStart(k, w) + w <= |out|
    && out[CellStart(k, w)..CellStart(k, w) + w] == cell
    && (k + 1 < n ==> CellStart(k, w) + w < |out| && out[CellStart(k, w) + w] == ' ')
  }

  /**
   * Column layout: n items of widest text w give n cells of exactly w
   * characters separated by single spaces; cell k starts at CellStart(k, w)
   * (which is k * (w + 1)) and is item k's cell.
   */
  lemma ColumnsLayout<T>(items: seq<T>, r: Render<T>, m: Mode, k: nat)
    requires 0 <= k < |items|
    requires ShowsNone(r, items)
    ensures ColumnsText(items, r, m) == Success(Join(" ", Cells(items, Width(items, r, m), r, m)))
    ensures CellsJoined(Join(" ", Cells(items, Width(items, r, m), r, m)), |items|, Width(items, r, m), k,
                        Cell(items[k], Width(items, r, m), r, m))
  {
    CellsLayout(items, Width(items, r, m), r, m, k);
  }

  /** The cells of width w joined by spaces: cell k sits at CellStart(k, w). */
  lemma CellsLayout<T>(items: seq<T>, w: nat, r: Render<T>, m: Mode, k: nat)
    requires 0 <= k < |items|
    requires ShowsNone(r, items)
    requires forall j :: 0 <= j < |items| ==> |Text(r, m, items[j])| <= w
    ensures CellsJoined(Join(" ", Cells(items, w, r, m)), |items|, w, k, Cell(items[k], w, r, m))
  {
    CellsUniform(items, w, r, m);
    JoinUniform(Cells(items, w, r, m), w, k);
  }

  /** Every cell has width w when w bounds every item text. */
  lemma CellsUniform<T>(items: seq<T>, w: nat, r: Render<T>, m: Mode)
    requires ShowsNone(r, items)
    requires forall j :: 0 <= j < |items| ==> |Text(r, m, items[j])| <= w
    ensures forall j :: 0 <= j < |items| ==> |Cells(items, w, r, m)[j]| == w
  {
    forall j | 0 <= j < |items| ensures |Cells(items, w, r, m)[j]| == w {
      if r.isNone(items[j]) {
        assert Text(r, m, items[j]) == "None";
      }
      CellAlignment(items[j], w, r, m);
    }
  }

  /** Python's str(x) for x in items, with None shown as the empty string in str mode. */
  function Values<T>(items: seq<T>, r: Render<T>, m: Mode): (vs: seq<string>)
    ensures |vs| == |items|
  {
    seq(|items|, k requires 0 <= k < |items| =>
      if m == StrMode && r.isNone(items[k]) then "" else Text(r, m, items[k]))
  }

  /** str() and repr() of the container: item texts joined by commas between bars. */
  function Bracketed<T>(items: seq<T>, text: T -> string): string {
    "|" + Join(",", Texts(items, text)) + "|"
  }

  /** The item texts under one text function. */
  function Texts<T>(items: seq<T>, text: T -> string): (ts: seq<string>)
    ensures |ts| == |items| && forall k :: 0 <= k < |items| ==> ts[k] == text(items[k])
  {
    seq(|items|, k requires 0 <= k < |items| => text(items[k]))
  }

  /**
   * str() and repr() round-trip: between the two bars, the text splits at
   * commas back into the item texts whenever no item text holds a comma.
   */
  lemma {:induction false} BracketedSplits<T>(items: seq<T>, text: T -> string)
    requires |items| > 0 && forall k :: 0 <= k < |items| ==> ',' !in text(items[k])
    ensures var s := Bracketed(items, text);
      |s| >= 2 && s[0] == '|' && s[|s| - 1] == '|' && Split(s[1..|s| - 1], ',') == Texts(items, text)
  {
    var s := Bracketed(items, text);
    assert s[1..|s| - 1] == Join(",", Texts(items, text));
    JoinThenSplit(Texts(items, text), ',');
  }

  /** The part of a format code that selects the layout, after an optional 'r'. */
  function Code(fmt: string): string
    requires fmt != ""
  {
    var rest := if fmt[0] == 'r' then fmt[1..] else fmt;
    if rest == "" then ",s" else rest
  }

  /** The codes the mini-language knows. */
  predicate KnownCode(fmt: string) {
    fmt == "" || var code := Code(fmt); code == "a" || code == "s" || (|code| == 2 && code[1] == 's')
  }

  /** format(container, fmt). */
  function Format<T>(items: seq<T>, fmt: string, r: Render<T>): (res: Result<string, FormatError>)
    ensures res.Failure? <==> !KnownCode(fmt) || (fmt != "" && Code(fmt) == "a" && items == [])
    ensures fmt != "" && !KnownCode(fmt) ==> res == Failure(UnknownCode(Code(fmt)))
  {
    if fmt == "" then Success(Bracketed(items, r.str))
    else
      var m := if fmt[0] == 'r' then ReprMode else StrMode;
      var code := Code(fmt);
      if code == "a" then ColumnsText(items, r, m)
      else if code == "s" then Success(Join("", Values(items, r, m)))
      else if |code| == 2 && code[1] == 's' then Success(Join([code[0]], Values(items, r, m)))
      else Failure(UnknownCode(code))
  }

  /**
   * The 'Xs' codes: the output splits at X back into the item texts
   * whenever X occurs in none of them; a lone 'r' means 'r,s'.
   */
  lemma FormatJoinSplits<T>(items: seq<T>, fmt: string, r: Render<T>)
    requires |items| > 0 && fmt != "" && |Code(fmt)| == 2 && Code(fmt)[1] == 's'
    requires var m := if fmt[0] == 'r' then ReprMode else StrMode;
      forall k :: 0 <= k < |items| ==> Code(fmt)[0] !in Values(items, r, m)[k]
    ensures var m := if fmt[0] == 'r' then ReprMode else StrMode;
      Format(items, fmt, r).Success? && Split(Format(items, fmt, r).value, Code(fmt)[0]) == Values(items, r, m)
    ensures fmt == "r" ==> Format(items, fmt, r) == Format(items, "r,s", r)
  {
    var m := if fmt[0] == 'r' then ReprMode else StrMode;
    JoinThenSplit(Values(items, r, m), Code(fmt)[0]);
  }
}
