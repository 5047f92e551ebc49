/** Version specifiers as the requirement parser hands them over, and the
    ordering `_parse_requires` puts them in before compressing them:
    `sorted(specs, key=lambda x: x[1])`, a stable sort on the raw version
    string. */
module Specifiers {
  import opened LexOrder

  /** The comparison operator of one specifier. `Other` stands for every
      operator the compressor has no branch for (`!=`, `~=`, `===`). */
  datatype Op = Eq | Gt | Ge | Lt | Le | Other

  /** One `(operator, version)` pair of a requirement. */
  datatype Spec = Spec(op: Op, version: string)

  /** Ascending by version string. */
  ghost predicate SortedByVersion(s: seq<Spec>)
  {
    forall i, j :: 0 <= i < j < |s| ==> LexLe(s[i].version, s[j].version)
  }

  /** The specifiers whose version string is exactly `v`, in order. */
  function WithVersion(s: seq<Spec>, v: string): seq<Spec>
  {
    if s == [] then []
    else (if s[0].version == v then [s[0]] else []) + WithVersion(s[1..], v)
  }

  /** The specifiers whose operator the compressor acts on, in order. */
  function KnownOnly(s: seq<Spec>): seq<Spec>
  {
    if s == [] then []
    else (if s[0].op == Other then [] else [s[0]]) + KnownOnly(s[1..])
  }

  /** Puts `x` in front of the first element whose version is not smaller,
      so that `x` stays ahead of the equal versions that followed it. */
  function Insert(x: Spec, s: seq<Spec>): seq<Spec>
  {
    if s == [] then [x]
    else if LexLe(x.version, s[0].version) then [x] + s
    else [s[0]] + Insert(x, s[1..])
  }

  /** Python's `sorted` with the version string as key, as an insertion sort. */
  function SortByVersion(s: seq<Spec>): seq<Spec>
  {
    if s == [] then [] else Insert(s[0], SortByVersion(s[1..]))
  }

  lemma {:induction false} SortedCons(y: Spec, t: seq<Spec>)
    requires SortedByVersion(t)
    requires t != [] ==> LexLe(y.version, t[0].version)
    ensures SortedByVersion([y] + t)
  {
    var r := [y] + t;
    forall i, j | 0 <= i < j < |r| ensures LexLe(r[i].version, r[j].version) {
      if i == 0 && j > 1 { LexLeTransitive(y.version, t[0].version, t[j - 1].version); }
    }
  }

  lemma {:induction false} InsertSorted(x: Spec, s: seq<Spec>)
    requires SortedByVersion(s)
    ensures SortedByVersion(Insert(x, s))
  {
    if s == [] {
    } else if LexLe(x.version, s[0].version) {
      SortedCons(x, s);
    } else {
      var t := Insert(x, s[1..]);
      InsertSorted(x, s[1..]);
      LexLeTotal(x.version, s[0].version);
      assert t[0] == x || t[0] == s[1];
      SortedCons(s[0], t);
    }
  }

  lemma {:induction false} InsertPermutes(x: Spec, s: seq<Spec>)
    ensures multiset(Insert(x, s)) == multiset(s) + multiset{x}
  {
    if s != [] && !LexLe(x.version, s[0].version) {
      InsertPermutes(x, s[1..]);
      assert s == [s[0]] + s[1..];
    }
  }

  /** Every element `Insert` passes over has a strictly smaller version, so
      none of them shares `x`'s version. */
  lemma {:induction false} InsertStable(x: Spec, s: seq<Spec>, v: string)
    ensures WithVersion(Insert(x, s), v) ==
      (if x.version == v then [x] + WithVersion(s, v) else WithVersion(s, v))
  {
    if s == [] {
    } else if LexLe(x.version, s[0].version) {
      assert ([x] + s)[1..] == s;
    } else {
      var t := Insert(x, s[1..]);
      InsertStable(x, s[1..], v);
      assert ([s[0]] + t)[1..] == t;
      if x.version == v && s[0].version == v { LexLeReflexive(v); }
    }
  }

  lemma {:induction false} SortByVersionSorted(s: seq<Spec>)
    ensures SortedByVersion(SortByVersion(s))
  {
    if s != [] {
      SortByVersionSorted(s[1..]);
      InsertSorted(s[0], SortByVersion(s[1..]));
    }
  }

  lemma {:induction false} SortByVersionPermutes(s: seq<Spec>)
    ensures multiset(SortByVersion(s)) == multiset(s)
  {
    if s != [] {
      SortByVersionPermutes(s[1..]);
      InsertPermutes(s[0], SortByVersion(s[1..]));
      assert s == [s[0]] + s[1..];
    }
  }

  /** Specifiers that share a version string keep their relative order. */
  lemma {:induction false} SortByVersionStable(s: seq<Spec>, v: string)
    ensures WithVersion(SortByVersion(s), v) == WithVersion(s, v)
  {
    if s != [] {
      SortByVersionStable(s[1..], v);
      InsertStable(s[0], SortByVersion(s[1..]), v);
    }
  }

  lemma {:induction false} WithVersionAppend(a: seq<Spec>, b: seq<Spec>, v: string)
    ensures WithVersion(a + b, v) == WithVersion(a, v) + WithVersion(b, v)
  {
    if a != [] {
      assert (a + b)[1..] == a[1..] + b;
      WithVersionAppend(a[1..], b, v);
    } else {
      assert a + b == b;
    }
  }

  /** The first specifier with version `v` in `s` is the head of
      `WithVersion(s, v)`. */
  lemma {:induction false} WithVersionFirst(s: seq<Spec>, v: string)
    requires WithVersion(s, v) != []
    ensures exists k :: (0 <= k < |s| && s[k] == WithVersion(s, v)[0] && s[k].version == v
      && forall j :: 0 <= j < k ==> s[j].version != v)
  {
    if s[0].version != v {
      WithVersionFirst(s[1..], v);
      var k :| 0 <= k < |s| - 1 && s[1..][k] == WithVersion(s[1..], v)[0] && s[1..][k].version == v
        && forall j :: 0 <= j < k ==> s[1..][j].version != v;
      assert s[k + 1] == WithVersion(s, v)[0];
      forall j | 0 <= j < k + 1 ensures s[j].version != v {
        if j > 0 { assert s[j] == s[1..][j - 1]; }
      }
    }
  }

  /** The last specifier with version `v` in `s` is the last element of
      `WithVersion(s, v)`. */
  lemma {:induction false} WithVersionLast(s: seq<Spec>, v: string)
    requires WithVersion(s, v) != []
    ensures exists k :: (0 <= k < |s| && s[k] == WithVersion(s, v)[|WithVersion(s, v)| - 1]
      && s[k].version == v && forall j :: k < j < |s| ==> s[j].version != v)
  {
    var p, x := s[..|s| - 1], s[|s| - 1];
    assert s == p + [x];
    WithVersionAppend(p, [x], v);
    assert WithVersion([x], v) == if x.version == v then [x] else [];
    if x.version != v {
      WithVersionLast(p, v);
      var k :| 0 <= k < |p| && p[k] == WithVersion(p, v)[|WithVersion(p, v)| - 1]
        && p[k].version == v && forall j :: k < j < |p| ==> p[j].version != v;
      assert s[k] == p[k];
    }
  }

  lemma SortedLength(s: seq<Spec>)
    ensures |SortByVersion(s)| == |s|
  {
    SortByVersionPermutes(s);
    assert |multiset(SortByVersion(s))| == |multiset(s)|;
  }

  /** Every specifier of `s` sits somewhere in the sorted sequence. */
  lemma SortedPosition(s: seq<Spec>, j: nat)
    requires j < |s|
    ensures exists i :: 0 <= i < |SortByVersion(s)| && SortByVersion(s)[i] == s[j]
  {
    SortByVersionPermutes(s);
    assert s[j] in multiset(SortByVersion(s));
  }

  lemma SortedHeadMin(s: seq<Spec>)
    requires s != []
    ensures SortByVersion(s) != []
    ensures forall j :: 0 <= j < |s| ==> LexLe(SortByVersion(s)[0].version, s[j].version)
  {
    var sorted := SortByVersion(s);
    SortedLength(s);
    SortByVersionSorted(s);
    forall j | 0 <= j < |s| ensures LexLe(sorted[0].version, s[j].version) {
      SortedPosition(s, j);
      var i :| 0 <= i < |sorted| && sorted[i] == s[j];
      if i == 0 { LexLeReflexive(s[j].version); }
    }
  }

  lemma SortedHeadFirst(s: seq<Spec>)
    requires s != []
    ensures SortByVersion(s) != []
    ensures exists k :: (0 <= k < |s| && SortByVersion(s)[0] == s[k]
      && forall j :: 0 <= j < k ==> s[j].version != s[k].version)
  {
    var sorted := SortByVersion(s);
    SortedLength(s);
    var m := sorted[0];
    var v := m.version;
    SortByVersionStable(s, v);
    assert sorted == [m] + sorted[1..];
    assert WithVersion(sorted, v)[0] == m;
    WithVersionFirst(s, v);
  }

  /** The head of the sorted sequence is a specifier with the smallest
      version, the first one listed among those with that version. */
  lemma SortedHead(s: seq<Spec>)
    requires s != []
    ensures exists k :: (0 <= k < |s| && SortByVersion(s)[0] == s[k]
      && (forall j :: 0 <= j < |s| ==> LexLe(s[k].version, s[j].version))
      && (forall j :: 0 <= j < k ==> s[j].version != s[k].version))
  {
    SortedHeadMin(s);
    SortedHeadFirst(s);
  }

  lemma SortedLastMax(s: seq<Spec>)
    requires s != []
    ensures |SortByVersion(s)| == |s|
    ensures forall j :: 0 <= j < |s| ==> LexLe(s[j].version, SortByVersion(s)[|s| - 1].version)
  {
    var sorted := SortByVersion(s);
    SortedLength(s);
    SortByVersionSorted(s);
    var n := |s| - 1;
    forall j | 0 <= j < |s| ensures LexLe(s[j].version, sorted[n].version) {
      SortedPosition(s, j);
      var i :| 0 <= i < |sorted| && sorted[i] == s[j];
      if i == n { LexLeReflexive(s[j].version); }
    }
  }

  lemma SortedLastLast(s: seq<Spec>)
    requires s != []
    ensures |SortByVersion(s)| == |s|
    ensures exists k :: (0 <= k < |s| && SortByVersion(s)[|s| - 1] == s[k]
      && forall j :: k < j < |s| ==> s[j].version != s[k].version)
  {
    var sorted := SortByVersion(s);
    SortedLength(s);
    var n := |s| - 1;
    var m := sorted[n];
    var v := m.version;
    SortByVersionStable(s, v);
    assert sorted == sorted[..n] + [m];
    WithVersionAppend(sorted[..n], [m], v);
    assert WithVersion([m], v) == [m];
    WithVersionLast(s, v);
  }

  /** The last element of the sorted sequence is a specifier with the
      largest version, the last one listed among those with that version. */
  lemma SortedLast(s: seq<Spec>)
    requires s != []
    ensures |SortByVersion(s)| == |s|
    ensures exists k :: (0 <= k < |s| && SortByVersion(s)[|s| - 1] == s[k]
      && (forall j :: 0 <= j < |s| ==> LexLe(s[j].version, s[k].version))
      && (forall j :: k < j < |s| ==> s[j].version != s[k].version))
  {
    SortedLastMax(s);
    SortedLastLast(s);
  }

  lemma {:induction false} KnownOnlyAppend(a: seq<Spec>, b: seq<Spec>)
    ensures KnownOnly(a + b) == KnownOnly(a) + KnownOnly(b)
  {
    if a != [] {
      assert (a + b)[1..] == a[1..] + b;
      KnownOnlyAppend(a[1..], b);
    } else {
      assert a + b == b;
    }
  }

  lemma {:induction false} KnownOnlyHead(s: seq<Spec>)
    requires KnownOnly(s) != []
    ensures KnownOnly(s)[0] in s
  {
    if s[0].op == Other { KnownOnlyHead(s[1..]); }
  }

  lemma {:induction false} KnownOnlyInsert(x: Spec, s: seq<Spec>)
    requires SortedByVersion(s)
    ensures KnownOnly(Insert(x, s)) ==
      if x.op == Other then KnownOnly(s) else Insert(x, KnownOnly(s))
  {
    if s == [] {
    } else if LexLe(x.version, s[0].version) {
      assert ([x] + s)[1..] == s;
      if x.op != Other && KnownOnly(s) != [] {
        KnownOnlyHead(s);
        var k :| 0 <= k < |s| && s[k] == KnownOnly(s)[0];
        if k > 0 { LexLeTransitive(x.version, s[0].version, s[k].version); }
      }
    } else {
      var t := Insert(x, s[1..]);
      var k := KnownOnly(s[1..]);
      assert ([s[0]] + t)[1..] == t;
      KnownOnlyInsert(x, s[1..]);
      assert KnownOnly(Insert(x, s)) == (if s[0].op == Other then [] else [s[0]]) + KnownOnly(t);
      assert KnownOnly(s) == (if s[0].op == Other then [] else [s[0]]) + k;
      if x.op == Other {
        assert KnownOnly(t) == k;
      } else if s[0].op == Other {
        assert KnownOnly(t) == Insert(x, k);
        assert KnownOnly(s) == k;
      } else {
        assert ([s[0]] + k)[0] == s[0] && ([s[0]] + k)[1..] == k;
        assert Insert(x, [s[0]] + k) == [s[0]] + Insert(x, k);
      }
    }
  }

  /** Dropping the operators the compressor ignores commutes with sorting. */
  lemma {:induction false} SortKnownOnly(s: seq<Spec>)
    ensures SortByVersion(KnownOnly(s)) == KnownOnly(SortByVersion(s))
  {
    if s != [] {
      SortKnownOnly(s[1..]);
      SortByVersionSorted(s[1..]);
      KnownOnlyInsert(s[0], SortByVersion(s[1..]));
      var k := KnownOnly(s[1..]);
      assert KnownOnly(s) == (if s[0].op == Other then [] else [s[0]]) + k;
      if s[0].op == Other {
        assert KnownOnly(s) == k;
      } else {
        assert ([s[0]] + k)[0] == s[0] && ([s[0]] + k)[1..] == k;
        assert SortByVersion(KnownOnly(s)) == Insert(s[0], SortByVersion(k));
      }
    }
  }
}
