/** The interval expressions the compressor emits, `add_range` that renders a
    pending pair of bounds, and a parser that reads an expression back. */
module Intervals {
  import opened Wrappers

  /** A pending bound of `_parse_requires`: the tuple `(version, inclusive)`. */
  datatype Bound = Bound(version: string, inclusive: bool)

  /** What an interval expression denotes: a single version `[v]`, or a range
      with an optional lower and an optional upper bound. */
  datatype Interval = Point(version: string) | Range(lower: Option<Bound>, upper: Option<Bound>)

  /** The text appended for a `==` specifier. */
  function PointText(v: string): string
  {
    "[" + v + "]"
  }

  /** `add_range(begin, end)`: the expressions it appends to the constraint
      list, following its branches one by one. */
  function Render(begin: Option<Bound>, end: Option<Bound>): (r: seq<string>)
    ensures |r| <= 1
    ensures r == [] <==> begin.None? && end.None?
  {
    if begin.Some? && end.Some? then
      var a, b := begin.value.version, end.value.version;
      if begin.value.inclusive && end.value.inclusive then ["[" + a + ".." + b + "]"]
      else if begin.value.inclusive then ["[" + a + ".." + b + ")"]
      else if end.value.inclusive then ["(" + a + ".." + b + "]"]
      else ["(" + a + ".." + b + ")"]
    else if begin.Some? then
      if begin.value.inclusive then ["[" + begin.value.version + "..]"]
      else ["(" + begin.value.version + "..]"]
    else if end.Some? then
      if end.value.inclusive then ["[.." + end.value.version + "]"]
      else ["[.." + end.value.version + ")"]
    else []
  }

  /** Opening and closing characters of a range: the bound's inclusive flag,
      and `[` / `]` on an unbounded side. */
  function Open(b: Option<Bound>): char
  {
    if b.Some? && !b.value.inclusive then '(' else '['
  }

  function Close(b: Option<Bound>): char
  {
    if b.Some? && !b.value.inclusive then ')' else ']'
  }

  function Text(b: Option<Bound>): string
  {
    if b.Some? then b.value.version else ""
  }

  /** All eight range forms of `add_range` share one shape: the opening
      character, the lower version, `..`, the upper version, the closing
      character. An upper-unbounded range always closes with `]` and a
      lower-unbounded one always opens with `[`. */
  lemma RenderShape(begin: Option<Bound>, end: Option<Bound>)
    requires begin.Some? || end.Some?
    ensures Render(begin, end) == [[Open(begin)] + Text(begin) + ".." + Text(end) + [Close(end)]]
    ensures end.None? ==> Render(begin, end)[0][|Render(begin, end)[0]| - 1] == ']'
    ensures begin.None? ==> Render(begin, end)[0][0] == '['
  {
    var a, b := Text(begin), Text(end);
    assert "[" == [Open(begin)] || "(" == [Open(begin)];
    if begin.Some? && end.Some? {
      assert Render(begin, end)[0] == [Open(begin)] + a + ".." + b + [Close(end)];
    } else if begin.Some? {
      assert Render(begin, end)[0] == [Open(begin)] + a + ".." + "]";
      assert b == "" && [Close(end)] == "]";
      assert [Open(begin)] + a + ".." + "]" == [Open(begin)] + a + ".." + b + [Close(end)];
    } else {
      assert Render(begin, end)[0] == "[" + ".." + b + [Close(end)];
      assert a == "" && [Open(begin)] == "[";
      assert "[" + ".." + b + [Close(end)] == [Open(begin)] + a + ".." + b + [Close(end)];
    }
  }

  /** True iff `s[i]` and `s[i + 1]` are both dots. */
  predicate DotsAt(s: string, i: int)
  {
    0 <= i && i + 1 < |s| && s[i] == '.' && s[i + 1] == '.'
  }

  /** The first position at or after `from` where `..` starts. */
  function FindDots(s: string, from: nat): (r: Option<nat>)
    decreases |s| - from
    ensures r.Some? ==> from <= r.value && DotsAt(s, r.value)
    ensures r.Some? ==> forall j :: from <= j < r.value ==> !DotsAt(s, j)
    ensures r.None? ==> forall j :: from <= j ==> !DotsAt(s, j)
  {
    if from + 1 >= |s| then None
    else if s[from] == '.' && s[from + 1] == '.' then Some(from)
    else FindDots(s, from + 1)
  }

  /** Reads an interval expression back. Returns `None` for any text that is
      not one of the forms the compressor writes. */
  function Parse(s: string): Option<Interval>
  {
    if |s| < 2 then None else ParseParts(s[0], s[1..|s| - 1], s[|s| - 1])
  }

  /** Reads the opening character, the text between and the closing
      character. */
  function ParseParts(open: char, inner: string, close: char): Option<Interval>
  {
    if (open != '[' && open != '(') || (close != ']' && close != ')') then None
    else match FindDots(inner, 0)
      case None =>
        if open == '[' && close == ']' && inner != [] then Some(Point(inner)) else None
      case Some(i) =>
        var lo, hi := inner[..i], inner[i + 2..];
        if lo == [] && hi == [] then None
        else if (lo == [] && open != '[') || (hi == [] && close != ']') then None
        else Some(Range(if lo == [] then None else Some(Bound(lo, open == '[')),
                        if hi == [] then None else Some(Bound(hi, close == ']'))))
  }

  /** A version string that cannot be confused with the `..` separator:
      non-empty, no `..` inside, no trailing dot. Every PEP 440 version is
      one. */
  predicate Unambiguous(v: string)
  {
    && |v| > 0 && v[|v| - 1] != '.'
    && forall j :: 0 <= j < |v| ==> !DotsAt(v, j)
  }

  predicate BoundOk(b: Option<Bound>)
  {
    b.Some? ==> Unambiguous(b.value.version)
  }

  /** A point expression reads back as the version it was written for,
      for any non-empty version without `..` (a trailing dot does no harm
      here, since nothing follows the version inside `[v]`). */
  lemma PointRoundTrip(v: string)
    requires v != [] && forall j :: 0 <= j < |v| ==> !DotsAt(v, j)
    ensures Parse(PointText(v)) == Some(Point(v))
  {
    var s := PointText(v);
    assert s[1..|s| - 1] == v;
  }

  /** Whatever `add_range` appends reads back as the pair of bounds it was
      given. */
  lemma RenderRoundTrip(begin: Option<Bound>, end: Option<Bound>)
    requires begin.Some? || end.Some?
    requires BoundOk(begin) && BoundOk(end)
    ensures Parse(Render(begin, end)[0]) == Some(Range(begin, end))
  {
    RenderShape(begin, end);
    var a, b := Text(begin), Text(end);
    var s := Render(begin, end)[0];
    var inner := a + ".." + b;
    assert s == [Open(begin)] + inner + [Close(end)];
    assert s[1..|s| - 1] == inner;
    assert Parse(s) == ParseParts(Open(begin), inner, Close(end));
    SeparatorFound(a, b);
    RangePartsRoundTrip(begin, end);
  }

  lemma RangePartsRoundTrip(begin: Option<Bound>, end: Option<Bound>)
    requires begin.Some? || end.Some?
    requires BoundOk(begin) && BoundOk(end)
    requires FindDots(Text(begin) + ".." + Text(end), 0) == Some(|Text(begin)|)
    ensures ParseParts(Open(begin), Text(begin) + ".." + Text(end), Close(end)) == Some(Range(begin, end))
  {
    var a, b := Text(begin), Text(end);
    var inner := a + ".." + b;
    assert inner[..|a|] == a && inner[|a| + 2..] == b;
    if begin.Some? && end.Some? {
      assert a != [] && b != [];
    } else if begin.Some? {
      assert a != [] && b == [];
    } else {
      assert a == [] && b != [];
    }
  }

  /** In `a + ".." + b` the first `..` is the one after `a`, when `a` has no
      `..` and no trailing dot. */
  lemma SeparatorFound(a: string, b: string)
    requires forall j :: 0 <= j < |a| ==> !DotsAt(a, j)
    requires a != [] ==> a[|a| - 1] != '.'
    ensures FindDots(a + ".." + b, 0) == Some(|a|)
  {
    var s := a + ".." + b;
    assert DotsAt(s, |a|);
    forall j | 0 <= j < |a| ensures !DotsAt(s, j) {
      if j + 1 < |a| { assert !DotsAt(a, j); }
    }
  }
}
