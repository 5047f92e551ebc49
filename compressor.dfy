/** The constraint compressor of `_parse_requires`: one pass over the sorted
    specifiers of a requirement that keeps a pending lower bound `begin` and
    a pending upper bound `end` and flushes them into interval expressions. */
module Compressor {
  import opened Wrappers
  import opened LexOrder
  import opened Specifiers
  import opened Intervals

  /** The loop's variables: the two pending slots and the expressions
      appended so far. */
  datatype State = State(begin: Option<Bound>, end: Option<Bound>, constraints: seq<string>)

  const Init := State(None, None, [])

  /** `add_range(begin, end)` followed by clearing both slots. */
  function Flush(st: State): State
  {
    State(None, None, st.constraints + Render(st.begin, st.end))
  }

  /** One iteration of the loop over the sorted specifiers. */
  function Step(st: State, sp: Spec): State
  {
    match sp.op
    case Eq =>
      var st1 := if st.begin.Some? && st.end.Some? then Flush(st) else st;
      if st1.begin.None? then st1.(constraints := st1.constraints + [PointText(sp.version)]) else st1
    case Gt =>
      var st1 := if st.end.Some? then Flush(st) else st;
      if st1.begin.None? then st1.(begin := Some(Bound(sp.version, false))) else st1
    case Ge =>
      var st1 := if st.end.Some? then Flush(st) else st;
      if st1.begin.None? then st1.(begin := Some(Bound(sp.version, true))) else st1
    case Lt => st.(end := Some(Bound(sp.version, false)))
    case Le => st.(end := Some(Bound(sp.version, true)))
    case Other => st
  }

  /** The state after the loop has run over `s`. */
  function Run(s: seq<Spec>): State
  {
    if s == [] then Init else Step(Run(s[..|s| - 1]), s[|s| - 1])
  }

  /** The loop followed by the final `add_range(begin, end)`. */
  function Finish(st: State): seq<string>
  {
    Flush(st).constraints
  }

  /** The constraint list `_parse_requires` builds for one requirement. */
  function Compress(specs: seq<Spec>): seq<string>
  {
    Finish(Run(SortByVersion(specs)))
  }

  /** The compressor as the source writes it: sort, then a loop that
      reassigns `begin` and `end` and appends to `constraints`. */
  method CompressSpecs(specs: seq<Spec>) returns (constraints: seq<string>)
    ensures constraints == Compress(specs)
  {
    var sorted := SortByVersion(specs);
    var begin: Option<Bound> := None;
    var end: Option<Bound> := None;
    constraints := [];
    var i := 0;
    while i < |sorted|
      invariant 0 <= i <= |sorted|
      invariant State(begin, end, constraints) == Run(sorted[..i])
    {
      var key, val := sorted[i].op, sorted[i].version;
      if key == Eq {
        if begin.Some? && end.Some? {
          constraints := constraints + Render(begin, end);
          begin, end := None, None;
        }
        if begin.None? {
          constraints := constraints + [PointText(val)];
        }
      }
      if key == Gt {
        if end.Some? {
          constraints := constraints + Render(begin, end);
          end, begin := None, None;
        }
        if begin.None? {
          begin := Some(Bound(val, false));
        }
      }
      if key == Ge {
        if end.Some? {
          constraints := constraints + Render(begin, end);
          begin, end := None, None;
        }
        if begin.None? {
          begin := Some(Bound(val, true));
        }
      }
      if key == Lt {
        end := Some(Bound(val, false));
      }
      if key == Le {
        end := Some(Bound(val, true));
      }
      assert sorted[..i + 1][..i] == sorted[..i];
      i := i + 1;
    }
    assert sorted[..i] == sorted;
    constraints := constraints + Render(begin, end);
  }

  lemma RunAppend(t: seq<Spec>, sp: Spec)
    ensures Run(t + [sp]) == Step(Run(t), sp)
  {
    assert (t + [sp])[..|t|] == t;
  }

  // ---------------------------------------------------------------------
  // Per-operator behaviour of one step

  /** `==` with both bounds pending flushes the range, clears both slots and
      then appends the point. */
  lemma EqFlushesThenAppendsPoint(st: State, v: string)
    requires st.begin.Some? && st.end.Some?
    ensures Step(st, Spec(Eq, v)) ==
      State(None, None, st.constraints + Render(st.begin, st.end) + [PointText(v)])
  {
  }

  /** `==` with no pending lower bound appends the point and leaves the
      pending upper bound alone; with only a lower bound pending it does
      nothing at all. */
  lemma EqWithoutRange(st: State, v: string)
    requires !(st.begin.Some? && st.end.Some?)
    ensures st.begin.None? ==> Step(st, Spec(Eq, v)) == st.(constraints := st.constraints + [PointText(v)])
    ensures st.begin.Some? ==> Step(st, Spec(Eq, v)) == st
  {
  }

  /** `>` and `>=` flush a pending upper bound first (with or without a
      lower bound) and then open a new lower bound. */
  lemma LowerFlushesPendingUpper(st: State, op: Op, v: string)
    requires op == Gt || op == Ge
    requires st.end.Some?
    ensures Step(st, Spec(op, v)) ==
      State(Some(Bound(v, op == Ge)), None, st.constraints + Render(st.begin, st.end))
  {
  }

  /** Every specifier the compressor has no branch for leaves the state as
      it was. */
  lemma OtherIsNoOp(st: State, v: string)
    ensures Step(st, Spec(Other, v)) == st
  {
  }

  predicate IsLower(sp: Spec) { sp.op == Gt || sp.op == Ge }
  predicate IsUpper(sp: Spec) { sp.op == Lt || sp.op == Le }

  function LowerOf(sp: Spec): Bound { Bound(sp.version, sp.op == Ge) }
  function UpperOf(sp: Spec): Bound { Bound(sp.version, sp.op == Le) }

  /** A run of lower bounds with no upper bound pending: the first one wins,
      or the one already pending does. */
  lemma {:induction false} FirstLowerBoundWins(t: seq<Spec>, u: seq<Spec>)
    requires Run(t).end.None?
    requires u != [] && forall k :: 0 <= k < |u| ==> IsLower(u[k])
    ensures Run(t + u) ==
      if Run(t).begin.Some? then Run(t) else Run(t).(begin := Some(LowerOf(u[0])))
  {
    var p := u[..|u| - 1];
    assert t + u == (t + p) + [u[|u| - 1]];
    RunAppend(t + p, u[|u| - 1]);
    if p == [] {
      assert t + p == t;
    } else {
      FirstLowerBoundWins(t, p);
    }
  }

  /** A run of upper bounds overwrites the pending upper bound each time:
      the last one wins, and nothing else changes. */
  lemma {:induction false} LastUpperBoundWins(t: seq<Spec>, u: seq<Spec>)
    requires u != [] && forall k :: 0 <= k < |u| ==> IsUpper(u[k])
    ensures Run(t + u) == Run(t).(end := Some(UpperOf(u[|u| - 1])))
  {
    var p := u[..|u| - 1];
    assert t + u == (t + p) + [u[|u| - 1]];
    RunAppend(t + p, u[|u| - 1]);
    if p == [] {
      assert t + p == t;
    } else {
      LastUpperBoundWins(t, p);
    }
  }

  function Points(u: seq<Spec>): seq<string>
  {
    if u == [] then [] else Points(u[..|u| - 1]) + [PointText(u[|u| - 1].version)]
  }

  /** While no lower bound is pending, every `==` appends its own point, in
      order, whatever upper bound is pending. */
  lemma {:induction false} PointsAppendedInOrder(t: seq<Spec>, u: seq<Spec>)
    requires Run(t).begin.None?
    requires forall k :: 0 <= k < |u| ==> u[k].op == Eq
    ensures Run(t + u) == Run(t).(constraints := Run(t).constraints + Points(u))
  {
    if u == [] {
      assert t + u == t;
    } else {
      var p := u[..|u| - 1];
      assert t + u == (t + p) + [u[|u| - 1]];
      RunAppend(t + p, u[|u| - 1]);
      PointsAppendedInOrder(t, p);
    }
  }

  // ---------------------------------------------------------------------
  // Properties of the whole compressor

  lemma {:induction false} RunKnownOnly(t: seq<Spec>)
    ensures Run(KnownOnly(t)) == Run(t)
  {
    if t != [] {
      var p, x := t[..|t| - 1], t[|t| - 1];
      assert t == p + [x];
      KnownOnlyAppend(p, [x]);
      assert KnownOnly([x]) == if x.op == Other then [] else [x];
      RunKnownOnly(p);
      if x.op != Other {
        RunAppend(KnownOnly(p), x);
      } else {
        assert KnownOnly(t) == KnownOnly(p);
      }
    }
  }

  /** Operators other than `==`, `>`, `>=`, `<`, `<=` are ignored: removing
      them does not change the result, and a requirement with none of the
      five (in particular one with no specifiers) gives no constraints. */
  lemma CompressIgnoresOther(specs: seq<Spec>)
    ensures Compress(specs) == Compress(KnownOnly(specs))
    ensures KnownOnly(specs) == [] ==> Compress(specs) == []
  {
    SortKnownOnly(specs);
    RunKnownOnly(SortByVersion(specs));
  }

  function Pending(st: State): nat
  {
    if st.begin.Some? || st.end.Some? then 1 else 0
  }

  lemma {:induction false} RunSize(t: seq<Spec>)
    ensures |Run(t).constraints| + Pending(Run(t)) <= |KnownOnly(t)|
  {
    if t != [] {
      var p, x := t[..|t| - 1], t[|t| - 1];
      assert t == p + [x];
      KnownOnlyAppend(p, [x]);
      assert KnownOnly([x]) == if x.op == Other then [] else [x];
      RunSize(p);
    }
  }

  /** Each constraint is paid for by a distinct specifier: there are never
      more constraints than specifiers with one of the five operators. */
  lemma CompressSize(specs: seq<Spec>)
    ensures |Compress(specs)| <= |KnownOnly(specs)|
  {
    var sorted := SortByVersion(specs);
    RunSize(sorted);
    SortKnownOnly(specs);
    SortByVersionPermutes(KnownOnly(specs));
    assert |multiset(KnownOnly(sorted))| == |multiset(KnownOnly(specs))|;
  }

  /** The specifier a lower or upper bound came from. */
  predicate LowerFrom(b: Option<Bound>, pool: set<Spec>)
  {
    b.Some? ==> Spec(if b.value.inclusive then Ge else Gt, b.value.version) in pool
  }

  predicate UpperFrom(b: Option<Bound>, pool: set<Spec>)
  {
    b.Some? ==> Spec(if b.value.inclusive then Le else Lt, b.value.version) in pool
  }

  /** An interval whose every version and bracket was taken from one of the
      specifiers in `pool`. */
  predicate Justified(iv: Interval, pool: set<Spec>)
  {
    match iv
    case Point(v) => Spec(Eq, v) in pool
    case Range(lo, hi) => LowerFrom(lo, pool) && UpperFrom(hi, pool)
  }

  predicate ReadsBack(c: string, pool: set<Spec>)
  {
    Parse(c).Some? && Justified(Parse(c).value, pool)
  }

  predicate StateJustified(st: State, pool: set<Spec>)
  {
    && LowerFrom(st.begin, pool) && UpperFrom(st.end, pool)
    && forall k :: 0 <= k < |st.constraints| ==> ReadsBack(st.constraints[k], pool)
  }

  predicate AllUnambiguous(pool: set<Spec>)
  {
    forall sp :: sp in pool ==> Unambiguous(sp.version)
  }

  lemma FlushJustified(st: State, pool: set<Spec>)
    requires AllUnambiguous(pool) && StateJustified(st, pool)
    ensures StateJustified(Flush(st), pool)
  {
    if st.begin.Some? || st.end.Some? {
      RenderRoundTrip(st.begin, st.end);
    }
  }

  lemma StepJustified(st: State, sp: Spec, pool: set<Spec>)
    requires AllUnambiguous(pool) && StateJustified(st, pool) && sp in pool
    ensures StateJustified(Step(st, sp), pool)
  {
    FlushJustified(st, pool);
    if sp.op == Eq { PointRoundTrip(sp.version); }
  }

  lemma {:induction false} RunJustified(t: seq<Spec>, pool: set<Spec>)
    requires AllUnambiguous(pool)
    requires forall k :: 0 <= k < |t| ==> t[k] in pool
    ensures StateJustified(Run(t), pool)
  {
    if t != [] {
      RunJustified(t[..|t| - 1], pool);
      StepJustified(Run(t[..|t| - 1]), t[|t| - 1], pool);
    }
  }

  /** Nothing is invented: when no version string contains `..`, every
      constraint reads back as a point or a range whose versions and
      brackets come from the requirement's own specifiers: a point from a
      `==`, a `[a` from a `>=`, a `(a` from a `>`, a `b]` from a `<=`, a
      `b)` from a `<`. */
  lemma CompressSound(specs: seq<Spec>)
    requires forall k :: 0 <= k < |specs| ==> Unambiguous(specs[k].version)
    ensures forall c :: c in Compress(specs) ==> ReadsBack(c, set sp | sp in specs)
  {
    var pool := set sp | sp in specs;
    var sorted := SortByVersion(specs);
    SortByVersionPermutes(specs);
    forall k | 0 <= k < |sorted| ensures sorted[k] in pool {
      assert sorted[k] in multiset(sorted);
    }
    RunJustified(sorted, pool);
    FlushJustified(Run(sorted), pool);
  }

  lemma OnlyBoundsSorted(specs: seq<Spec>, lower: bool)
    requires forall k :: 0 <= k < |specs| ==> (if lower then IsLower(specs[k]) else IsUpper(specs[k]))
    ensures forall k :: 0 <= k < |SortByVersion(specs)| ==>
      (if lower then IsLower(SortByVersion(specs)[k]) else IsUpper(SortByVersion(specs)[k]))
  {
    var sorted := SortByVersion(specs);
    SortByVersionPermutes(specs);
    forall k | 0 <= k < |sorted|
      ensures if lower then IsLower(sorted[k]) else IsUpper(sorted[k])
    {
      assert sorted[k] in multiset(specs);
    }
  }

  lemma RunOnlyLower(t: seq<Spec>)
    requires t != [] && forall k :: 0 <= k < |t| ==> IsLower(t[k])
    ensures Run(t) == State(Some(LowerOf(t[0])), None, [])
  {
    assert [] + t == t;
    FirstLowerBoundWins([], t);
  }

  lemma RunOnlyUpper(t: seq<Spec>)
    requires t != [] && forall k :: 0 <= k < |t| ==> IsUpper(t[k])
    ensures Run(t) == State(None, Some(UpperOf(t[|t| - 1])), [])
  {
    assert [] + t == t;
    LastUpperBoundWins([], t);
  }

  lemma CompressOnlyLower(specs: seq<Spec>)
    requires specs != [] && forall k :: 0 <= k < |specs| ==> IsLower(specs[k])
    ensures SortByVersion(specs) != []
    ensures Compress(specs) == Render(Some(LowerOf(SortByVersion(specs)[0])), None)
  {
    var sorted := SortByVersion(specs);
    SortByVersionPermutes(specs);
    assert |multiset(sorted)| == |multiset(specs)|;
    OnlyBoundsSorted(specs, true);
    RunOnlyLower(sorted);
  }

  lemma CompressOnlyUpper(specs: seq<Spec>)
    requires specs != [] && forall k :: 0 <= k < |specs| ==> IsUpper(specs[k])
    ensures |SortByVersion(specs)| == |specs|
    ensures Compress(specs) == Render(None, Some(UpperOf(SortByVersion(specs)[|specs| - 1])))
  {
    var sorted := SortByVersion(specs);
    SortByVersionPermutes(specs);
    assert |multiset(sorted)| == |multiset(specs)|;
    OnlyBoundsSorted(specs, false);
    RunOnlyUpper(sorted);
  }

  /** Lower bounds alone compress to one upper-unbounded range that starts
      at the smallest version string; of several specifiers with that
      version, the first one listed decides the bracket. */
  lemma OnlyLowerBounds(specs: seq<Spec>)
    requires specs != [] && forall k :: 0 <= k < |specs| ==> IsLower(specs[k])
    ensures exists k :: (0 <= k < |specs|
      && Compress(specs) == Render(Some(LowerOf(specs[k])), None)
      && (forall j :: 0 <= j < |specs| ==> LexLe(specs[k].version, specs[j].version))
      && (forall j :: 0 <= j < k ==> specs[j].version != specs[k].version))
  {
    CompressOnlyLower(specs);
    SortedHead(specs);
  }

  /** Upper bounds alone compress to one lower-unbounded range that ends at
      the largest version string; of several specifiers with that version,
      the last one listed decides the bracket. */
  lemma OnlyUpperBounds(specs: seq<Spec>)
    requires specs != [] && forall k :: 0 <= k < |specs| ==> IsUpper(specs[k])
    ensures exists k :: (0 <= k < |specs|
      && Compress(specs) == Render(None, Some(UpperOf(specs[k])))
      && (forall j :: 0 <= j < |specs| ==> LexLe(specs[j].version, specs[k].version))
      && (forall j :: k < j < |specs| ==> specs[j].version != specs[k].version))
  {
    CompressOnlyUpper(specs);
    SortedLast(specs);
  }

  // ---------------------------------------------------------------------
  // Order of the output

  /** The version an expression starts from: a point's own version or a
      range's lower bound; `None` for a lower-unbounded range. */
  function LowerVersion(c: string): Option<string>
  {
    match Parse(c)
    case Some(Point(v)) => Some(v)
    case Some(Range(Some(b), _)) => Some(b.version)
    case _ => None
  }

  predicate LowersAscend(cs: seq<string>)
  {
    forall i, j :: 0 <= i < j < |cs| && LowerVersion(cs[i]).Some? && LowerVersion(cs[j]).Some? ==>
      LexLe(LowerVersion(cs[i]).value, LowerVersion(cs[j]).value)
  }

  predicate LowersAtMost(cs: seq<string>, v: string)
  {
    forall i :: 0 <= i < |cs| && LowerVersion(cs[i]).Some? ==> LexLe(LowerVersion(cs[i]).value, v)
  }

  /** What the loop keeps on sorted input once it has reached version `v`:
      the constraints ascend, none of them and no pending lower bound starts
      above `v`, none starts above the pending lower bound, and the pending
      bounds are unambiguous. */
  predicate Ordered(st: State, v: string)
  {
    && LowersAscend(st.constraints)
    && LowersAtMost(st.constraints, v)
    && (st.begin.Some? ==>
          LexLe(st.begin.value.version, v) && LowersAtMost(st.constraints, st.begin.value.version))
    && BoundOk(st.begin) && BoundOk(st.end)
  }

  lemma AtMostRaise(cs: seq<string>, v: string, w: string)
    requires LowersAtMost(cs, v) && LexLe(v, w)
    ensures LowersAtMost(cs, w)
  {
    forall i | 0 <= i < |cs| && LowerVersion(cs[i]).Some?
      ensures LexLe(LowerVersion(cs[i]).value, w)
    {
      LexLeTransitive(LowerVersion(cs[i]).value, v, w);
    }
  }

  lemma OrderedRaise(st: State, v: string, w: string)
    requires Ordered(st, v) && LexLe(v, w)
    ensures Ordered(st, w)
  {
    AtMostRaise(st.constraints, v, w);
    if st.begin.Some? {
      LexLeTransitive(st.begin.value.version, v, w);
    }
  }

  lemma AppendLower(cs: seq<string>, c: string, m: string)
    requires LowersAscend(cs) && LowersAtMost(cs, m)
    requires LowerVersion(c).Some? ==>
      LowersAtMost(cs, LowerVersion(c).value) && LexLe(LowerVersion(c).value, m)
    ensures LowersAscend(cs + [c]) && LowersAtMost(cs + [c], m)
  {
    var r := cs + [c];
    assert forall i :: 0 <= i < |cs| ==> r[i] == cs[i];
    assert r[|cs|] == c;
  }

  lemma FlushOrdered(st: State, m: string)
    requires Ordered(st, m)
    ensures Ordered(Flush(st), m)
  {
    if st.begin.Some? || st.end.Some? {
      RenderRoundTrip(st.begin, st.end);
      var c := Render(st.begin, st.end)[0];
      assert Render(st.begin, st.end) == [c];
      assert LowerVersion(c) == if st.begin.Some? then Some(st.begin.value.version) else None;
      AppendLower(st.constraints, c, m);
    } else {
      assert Flush(st).constraints == st.constraints;
    }
  }

  lemma StepOrdered(st: State, sp: Spec, m: string)
    requires Ordered(st, m) && LexLe(m, sp.version) && Unambiguous(sp.version)
    ensures Ordered(Step(st, sp), sp.version)
  {
    var v := sp.version;
    OrderedRaise(st, m, v);
    FlushOrdered(st, v);
    LexLeReflexive(v);
    match sp.op
    case Eq =>
      var st1 := if st.begin.Some? && st.end.Some? then Flush(st) else st;
      if st1.begin.None? {
        PointRoundTrip(v);
        assert LowerVersion(PointText(v)) == Some(v);
        AppendLower(st1.constraints, PointText(v), v);
      }
    case Gt =>
    case Ge =>
    case Lt =>
    case Le =>
    case Other =>
  }

  lemma {:induction false} RunOrdered(t: seq<Spec>)
    requires t != [] && SortedByVersion(t)
    requires forall k :: 0 <= k < |t| ==> Unambiguous(t[k].version)
    ensures Ordered(Run(t), t[|t| - 1].version)
  {
    var p, x := t[..|t| - 1], t[|t| - 1];
    if p == [] {
      LexLeReflexive(x.version);
      StepOrdered(Init, x, x.version);
    } else {
      assert forall k :: 0 <= k < |p| ==> p[k] == t[k];
      RunOrdered(p);
      StepOrdered(Run(p), x, p[|p| - 1].version);
    }
  }

  /** The constraints come out ascending by the version they start from
      wherever they have one: several `==` points in ascending version
      order, and a range never ahead of a point or range that starts below
      its lower bound. As for `CompressSound`, the version strings must not
      be confusable with the `..` separator. */
  lemma CompressOrdered(specs: seq<Spec>)
    requires forall k :: 0 <= k < |specs| ==> Unambiguous(specs[k].version)
    ensures forall i, j ::
      (0 <= i < j < |Compress(specs)| &&
       LowerVersion(Compress(specs)[i]).Some? && LowerVersion(Compress(specs)[j]).Some?) ==>
      LexLe(LowerVersion(Compress(specs)[i]).value, LowerVersion(Compress(specs)[j]).value)
  {
    var sorted := SortByVersion(specs);
    if sorted == [] {
      assert Compress(specs) == [];
    } else {
      SortByVersionSorted(specs);
      SortByVersionPermutes(specs);
      forall k | 0 <= k < |sorted| ensures Unambiguous(sorted[k].version) {
        assert sorted[k] in multiset(specs);
      }
      RunOrdered(sorted);
      FlushOrdered(Run(sorted), sorted[|sorted| - 1].version);
    }
  }

  // ---------------------------------------------------------------------
  // Worked examples

  lemma RunShort(x: Spec, y: Spec)
    ensures Run([x]) == Step(Init, x)
    ensures Run([x, y]) == Step(Step(Init, x), y)
  {
    assert [x, y][..1] == [x];
    assert [x][..0] == [];
  }

  lemma ExamplePoint()
    ensures Compress([Spec(Eq, "1.0.0")]) == ["[1.0.0]"]
  {
    var x := Spec(Eq, "1.0.0");
    assert SortByVersion([x]) == [x];
    RunShort(x, x);
    assert Run([x]) == State(None, None, [PointText("1.0.0")]);
    assert PointText("1.0.0") == "[1.0.0]";
  }

  lemma SortPair(x: Spec, y: Spec)
    ensures LexLe(x.version, y.version) ==> SortByVersion([x, y]) == [x, y]
    ensures !LexLe(x.version, y.version) ==> SortByVersion([x, y]) == [y, x]
  {
    assert SortByVersion([y]) == [y];
    assert [x, y][1..] == [y];
    assert [y][1..] == [];
    assert Insert(x, []) == [x];
  }

  lemma ExampleClosedRange()
    ensures Compress([Spec(Ge, "1.0.0"), Spec(Le, "2.0.0")]) == ["[1.0.0..2.0.0]"]
  {
    var x, y := Spec(Ge, "1.0.0"), Spec(Le, "2.0.0");
    assert LexLe(x.version, y.version);
    SortPair(x, y);
    RunShort(x, y);
    var b, e := Bound("1.0.0", true), Bound("2.0.0", true);
    assert Run([x, y]) == State(Some(b), Some(e), []);
    assert Render(Some(b), Some(e)) == ["[" + "1.0.0" + ".." + "2.0.0" + "]"];
    assert "[" + "1.0.0" + ".." + "2.0.0" + "]" == "[1.0.0..2.0.0]";
  }

  lemma ExampleHalfOpenRange()
    ensures Compress([Spec(Gt, "1.0.0"), Spec(Le, "2.0.0")]) == ["(1.0.0..2.0.0]"]
  {
    var x, y := Spec(Gt, "1.0.0"), Spec(Le, "2.0.0");
    assert LexLe(x.version, y.version);
    SortPair(x, y);
    RunShort(x, y);
    var b, e := Bound("1.0.0", false), Bound("2.0.0", true);
    assert Run([x, y]) == State(Some(b), Some(e), []);
    assert Render(Some(b), Some(e)) == ["(" + "1.0.0" + ".." + "2.0.0" + "]"];
    assert "(" + "1.0.0" + ".." + "2.0.0" + "]" == "(1.0.0..2.0.0]";
  }

  lemma ExampleUnbounded()
    ensures Compress([Spec(Lt, "3.0.0")]) == ["[..3.0.0)"]
    ensures Compress([Spec(Ge, "1.0.0")]) == ["[1.0.0..]"]
  {
    var x, y := Spec(Lt, "3.0.0"), Spec(Ge, "1.0.0");
    assert SortByVersion([x]) == [x];
    assert SortByVersion([y]) == [y];
    RunShort(x, x);
    RunShort(y, y);
    assert Run([x]) == State(None, Some(Bound("3.0.0", false)), []);
    assert Run([y]) == State(Some(Bound("1.0.0", true)), None, []);
    assert Render(None, Some(Bound("3.0.0", false))) == ["[.." + "3.0.0" + ")"];
    assert Render(Some(Bound("1.0.0", true)), None) == ["[" + "1.0.0" + "..]"];
    assert "[.." + "3.0.0" + ")" == "[..3.0.0)";
    assert "[" + "1.0.0" + "..]" == "[1.0.0..]";
  }

  lemma ExampleTwoPoints()
    ensures Compress([Spec(Eq, "2.0.0"), Spec(Eq, "1.0.0")]) == ["[1.0.0]", "[2.0.0]"]
  {
    var x, y := Spec(Eq, "2.0.0"), Spec(Eq, "1.0.0");
    assert !LexLe(x.version, y.version);
    SortPair(x, y);
    RunShort(y, x);
    assert Run([y]) == State(None, None, [PointText("1.0.0")]);
    assert Run([y, x]) == State(None, None, [PointText("1.0.0"), PointText("2.0.0")]);
    assert PointText("1.0.0") == "[1.0.0]" && PointText("2.0.0") == "[2.0.0]";
  }

  /** The sort compares strings, so `10.0` comes before `2.0` and
      `>=2.0, <10.0` does not become `[2.0..10.0)`. */
  lemma ExampleStringOrder()
    ensures Compress([Spec(Ge, "2.0"), Spec(Lt, "10.0")]) == ["[..10.0)", "[2.0..]"]
  {
    var x, y := Spec(Ge, "2.0"), Spec(Lt, "10.0");
    assert !LexLe(x.version, y.version);
    SortPair(x, y);
    RunShort(y, x);
    var b, e := Bound("2.0", true), Bound("10.0", false);
    assert Run([y]) == State(None, Some(e), []);
    assert Run([y, x]) == State(Some(b), None, Render(None, Some(e)));
    assert Render(None, Some(e)) == ["[.." + "10.0" + ")"];
    assert Render(Some(b), None) == ["[" + "2.0" + "..]"];
    assert "[.." + "10.0" + ")" == "[..10.0)";
    assert "[" + "2.0" + "..]" == "[2.0..]";
  }

  /** The sort is stable, so specifiers that share a version keep the order
      they are listed in, and that order decides the output: `>=1.0, <=1.0`
      closes one range, `<=1.0, >=1.0` gives two half-open ones. */
  lemma ExampleSameVersionOrder()
    ensures Compress([Spec(Ge, "1.0"), Spec(Le, "1.0")]) == ["[1.0..1.0]"]
    ensures Compress([Spec(Le, "1.0"), Spec(Ge, "1.0")]) == ["[..1.0]", "[1.0..]"]
  {
    var x, y := Spec(Ge, "1.0"), Spec(Le, "1.0");
    LexLeReflexive("1.0");
    SortPair(x, y);
    SortPair(y, x);
    RunShort(x, y);
    RunShort(y, x);
    var b, e := Bound("1.0", true), Bound("1.0", true);
    assert Run([x, y]) == State(Some(b), Some(e), []);
    assert Render(Some(b), Some(e)) == ["[" + "1.0" + ".." + "1.0" + "]"];
    assert "[" + "1.0" + ".." + "1.0" + "]" == "[1.0..1.0]";
    assert Render(None, Some(e)) == ["[.." + "1.0" + "]"];
    assert "[.." + "1.0" + "]" == "[..1.0]";
    assert Run([y, x]) == State(Some(b), None, ["[..1.0]"]);
    assert Render(Some(b), None) == ["[" + "1.0" + "..]"];
    assert "[" + "1.0" + "..]" == "[1.0..]";
  }
}
