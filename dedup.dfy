/** The deduplication store of `PyPIFilter` and the loops that feed it:
    `consume` forwards the entries whose `(product, version)` pair has not
    been seen, `_fill_old` only records what was forwarded before. */
module Dedup {
  import opened Extractor
  import opened Requirements

  /** `self.packages`: product name to the set of versions seen. */
  type Packages = map<string, set<string>>

  /** `_exists`: the entry's product is a key and its version is in that
      key's set. */
  predicate Seen(m: Packages, e: Entry)
  {
    e.product in m && e.version in m[e.product]
  }

  /** `_store`: add the version to the product's set, creating the set when
      the product is new. */
  function Stored(m: Packages, e: Entry): Packages
  {
    m[e.product := (if e.product in m then m[e.product] else {}) + {e.version}]
  }

  /** Two entries that the store cannot tell apart. */
  predicate SameKey(a: Entry, b: Entry)
  {
    a.product == b.product && a.version == b.version
  }

  /** After `_store(e)` exactly the pairs seen before and `e`'s are seen. */
  lemma StoredSeen(m: Packages, e: Entry, x: Entry)
    ensures Seen(Stored(m, e), e)
    ensures Seen(Stored(m, e), x) <==> Seen(m, x) || SameKey(x, e)
  {
  }

  /** Storing twice leaves the same state as storing once, and storing an
      entry already seen changes nothing. */
  lemma StoredIdempotent(m: Packages, e: Entry)
    ensures Stored(Stored(m, e), e) == Stored(m, e)
    ensures Seen(m, e) ==> Stored(m, e) == m
  {
    var s := if e.product in m then m[e.product] else {};
    assert s + {e.version} + {e.version} == s + {e.version};
    if Seen(m, e) {
      assert m[e.product] + {e.version} == m[e.product];
    }
  }

  /** The sets of the other products are untouched and the store only
      grows. */
  lemma StoredFrame(m: Packages, e: Entry)
    ensures Stored(m, e).Keys == m.Keys + {e.product}
    ensures forall p :: p in m && p != e.product ==> Stored(m, e)[p] == m[p]
    ensures forall p :: p in m ==> m[p] <= Stored(m, e)[p]
  {
  }

  /** `_fill_old`'s loop: store every entry not yet seen. */
  function Seeded(m: Packages, es: seq<Entry>): Packages
  {
    if es == [] then m
    else
      var m1, e := Seeded(m, es[..|es| - 1]), es[|es| - 1];
      if Seen(m1, e) then m1 else Stored(m1, e)
  }

  /** The store and the forwarded entries after `consume`'s inner loop. */
  datatype Flow = Flow(packages: Packages, forwarded: seq<Entry>)

  /** `consume`'s inner loop: an entry not yet seen is stored, then
      forwarded; an entry already seen is dropped. */
  function Forwarding(m: Packages, es: seq<Entry>): Flow
  {
    if es == [] then Flow(m, [])
    else
      var f, e := Forwarding(m, es[..|es| - 1]), es[|es| - 1];
      if Seen(f.packages, e) then f
      else Flow(Stored(f.packages, e), f.forwarded + [e])
  }

  /** An independent description of what is forwarded: the entry at `k` is
      new to the initial store and is the first with its pair. */
  predicate Fresh(m: Packages, es: seq<Entry>, k: nat)
    requires k < |es|
  {
    !Seen(m, es[k]) && forall j :: 0 <= j < k ==> !SameKey(es[j], es[k])
  }

  /** The entries with `Fresh` positions, in input order. */
  function FreshEntries(m: Packages, es: seq<Entry>): seq<Entry>
  {
    if es == [] then []
    else FreshEntries(m, es[..|es| - 1]) + (if Fresh(m, es, |es| - 1) then [es[|es| - 1]] else [])
  }

  /** After seeding with `es`, exactly the pairs seen before and those of
      `es` are seen. */
  lemma {:induction false} SeededSeen(m: Packages, es: seq<Entry>, x: Entry)
    ensures Seen(Seeded(m, es), x) <==> Seen(m, x) || exists k :: 0 <= k < |es| && SameKey(es[k], x)
  {
    if es != [] {
      var p := es[..|es| - 1];
      SeededSeen(m, p, x);
      StoredSeen(Seeded(m, p), es[|es| - 1], x);
      if exists k :: 0 <= k < |p| && SameKey(p[k], x) {
        var k :| 0 <= k < |p| && SameKey(p[k], x);
        assert es[k] == p[k];
      }
      if exists k :: 0 <= k < |es| && SameKey(es[k], x) {
        var k :| 0 <= k < |es| && SameKey(es[k], x);
        if k < |p| { assert p[k] == es[k]; }
      }
    }
  }

  /** Consuming leaves the same store as seeding with the same entries. */
  lemma {:induction false} ForwardingStore(m: Packages, es: seq<Entry>)
    ensures Forwarding(m, es).packages == Seeded(m, es)
  {
    if es != [] { ForwardingStore(m, es[..|es| - 1]); }
  }

  /** The forwarding loop forwards exactly the entries that are new to the
      initial store and the first of their pair, in input order. */
  lemma {:induction false} ForwardedAreFresh(m: Packages, es: seq<Entry>)
    ensures Forwarding(m, es).forwarded == FreshEntries(m, es)
  {
    if es != [] {
      var p, e := es[..|es| - 1], es[|es| - 1];
      ForwardedAreFresh(m, p);
      ForwardingStore(m, p);
      SeededSeen(m, p, e);
      assert forall j :: 0 <= j < |p| ==> p[j] == es[j];
    }
  }

  lemma {:induction false} FreshEntriesFrom(m: Packages, es: seq<Entry>)
    ensures forall x :: x in FreshEntries(m, es) ==> x in es[..] && !Seen(m, x)
  {
    if es != [] {
      var p := es[..|es| - 1];
      FreshEntriesFrom(m, p);
      assert forall x :: x in p ==> x in es;
    }
  }

  lemma {:induction false} FreshEntriesDistinct(m: Packages, es: seq<Entry>)
    ensures forall i, j :: 0 <= i < j < |FreshEntries(m, es)| ==>
      !SameKey(FreshEntries(m, es)[i], FreshEntries(m, es)[j])
  {
    if es != [] {
      var p, e := es[..|es| - 1], es[|es| - 1];
      var f := FreshEntries(m, p);
      FreshEntriesDistinct(m, p);
      if Fresh(m, es, |es| - 1) {
        FreshEntriesFrom(m, p);
        var g := f + [e];
        forall i, j | 0 <= i < j < |g| ensures !SameKey(g[i], g[j]) {
          if j == |f| {
            assert g[i] in p;
            var l :| 0 <= l < |p| && p[l] == g[i];
            assert es[l] == p[l];
          } else {
            assert g[i] == f[i] && g[j] == f[j];
          }
        }
      }
    }
  }

  /** Nothing already seen is forwarded, and no pair is forwarded twice. */
  lemma ForwardedOnce(m: Packages, es: seq<Entry>)
    ensures forall e :: e in Forwarding(m, es).forwarded ==> !Seen(m, e)
    ensures forall i, j :: 0 <= i < j < |Forwarding(m, es).forwarded| ==>
      !SameKey(Forwarding(m, es).forwarded[i], Forwarding(m, es).forwarded[j])
  {
    ForwardedAreFresh(m, es);
    FreshEntriesFrom(m, es);
    FreshEntriesDistinct(m, es);
  }

  /** Every entry consumed is seen afterwards; a pair that was new is
      forwarded. */
  lemma ForwardedComplete(m: Packages, es: seq<Entry>, k: nat)
    requires k < |es|
    ensures Seen(Forwarding(m, es).packages, es[k])
    ensures !Seen(m, es[k]) ==> exists i :: (0 <= i < |Forwarding(m, es).forwarded|
      && SameKey(Forwarding(m, es).forwarded[i], es[k]))
  {
    ForwardingStore(m, es);
    SeededSeen(m, es, es[k]);
    ForwardedStoreSeen(m, es, es[k]);
  }

  /** What the store holds beyond the initial one comes from the forwarded
      entries. */
  lemma {:induction false} ForwardedStoreSeen(m: Packages, es: seq<Entry>, x: Entry)
    ensures Seen(Forwarding(m, es).packages, x) <==>
      Seen(m, x) || exists i :: (0 <= i < |Forwarding(m, es).forwarded|
        && SameKey(Forwarding(m, es).forwarded[i], x))
  {
    if es != [] {
      var p, e := es[..|es| - 1], es[|es| - 1];
      var f := Forwarding(m, p);
      ForwardedStoreSeen(m, p, x);
      StoredSeen(f.packages, e, x);
      if !Seen(f.packages, e) {
        var g := f.forwarded + [e];
        assert Forwarding(m, es) == Flow(Stored(f.packages, e), g);
        assert g[|g| - 1] == e;
        if exists i :: 0 <= i < |f.forwarded| && SameKey(f.forwarded[i], x) {
          var i :| 0 <= i < |f.forwarded| && SameKey(f.forwarded[i], x);
          assert g[i] == f.forwarded[i];
        }
        if exists i :: 0 <= i < |g| && SameKey(g[i], x) {
          var i :| 0 <= i < |g| && SameKey(g[i], x);
          if i < |f.forwarded| { assert g[i] == f.forwarded[i]; }
        }
      }
    }
  }

  /** Running the loop over `a + b` is running it over `a` and then over
      `b` from the store `a` left. */
  lemma {:induction false} ForwardingAppend(m: Packages, a: seq<Entry>, b: seq<Entry>)
    ensures Forwarding(m, a + b) ==
      Flow(Forwarding(Forwarding(m, a).packages, b).packages,
           Forwarding(m, a).forwarded + Forwarding(Forwarding(m, a).packages, b).forwarded)
  {
    if b == [] {
      assert a + b == a;
    } else {
      var p := b[..|b| - 1];
      assert (a + b)[..|a + b| - 1] == a + p;
      assert (a + b)[|a + b| - 1] == b[|b| - 1];
      ForwardingAppend(m, a, p);
    }
  }

  /** A store seeded with `foo 1.0.0` suppresses that version and forwards
      `foo 1.1.0`. */
  lemma ExampleDedupAcrossRuns(deps: seq<DependencyConstraint>, t0: int, t1: int)
    ensures var old0, new1 := Entry("foo", "1.0.0", t0, deps), Entry("foo", "1.1.0", t1, deps);
      Forwarding(Seeded(map[], [old0]), [old0, new1]).forwarded == [new1]
  {
    var old0, new1 := Entry("foo", "1.0.0", t0, deps), Entry("foo", "1.1.0", t1, deps);
    var empty: Packages := map[];
    assert [old0][..0] == [];
    assert Seeded(empty, [old0][..0]) == empty;
    assert !Seen(empty, old0);
    var m := Seeded(map[], [old0]);
    assert m == Stored(map[], old0);
    assert Seen(m, old0) && !Seen(m, new1) by { assert "1.1.0" != "1.0.0"; }
    assert [old0, new1][..1] == [old0];
    assert Forwarding(m, [old0]) == Flow(m, []);
  }

  /** All entries of a sequence of package records, record by record. */
  function AllExtracted(pkgs: seq<Package>): seq<Entry>
  {
    if pkgs == [] then [] else AllExtracted(pkgs[..|pkgs| - 1]) + Extracted(pkgs[|pkgs| - 1])
  }

  /** The filter with its store. The Kafka consumer and producer are
      replaced by the sequences the methods take and return. */
  class PyPIFilter {
    var packages: Packages

    /** `__init__`: an empty store, seeded from the previously forwarded
        entries when `checkOld` is set. */
    constructor (checkOld: bool, history: seq<Entry>)
      ensures packages == if checkOld then Seeded(map[], history) else map[]
    {
      packages := map[];
      new;
      if checkOld {
        FillOld(history);
      }
    }

    /** `_exists`. */
    method Exists(e: Entry) returns (b: bool)
      ensures b <==> e.product in packages && e.version in packages[e.product]
    {
      if e.product !in packages {
        return false;
      }
      if e.version !in packages[e.product] {
        return false;
      }
      return true;
    }

    /** `_store`. */
    method Store(e: Entry)
      modifies this
      ensures packages == Stored(old(packages), e)
      ensures Seen(packages, e)
    {
      if e.product !in packages {
        packages := packages[e.product := {}];
      }
      packages := packages[e.product := packages[e.product] + {e.version}];
    }

    /** `_fill_old`'s loop over the previously forwarded entries: it only
        stores, it forwards nothing. */
    method FillOld(history: seq<Entry>)
      modifies this
      ensures packages == Seeded(old(packages), history)
    {
      for i := 0 to |history|
        invariant packages == Seeded(old(packages), history[..i])
      {
        assert history[..i + 1][..i] == history[..i];
        var pkg := history[i];
        var seen := Exists(pkg);
        if !seen {
          Store(pkg);
        }
      }
      assert history[..|history|] == history;
    }

    /** `consume`'s inner loop: exists, then store, then produce. */
    method ForwardEntries(entries: seq<Entry>) returns (out: seq<Entry>)
      modifies this
      ensures Flow(packages, out) == Forwarding(old(packages), entries)
    {
      out := [];
      for i := 0 to |entries|
        invariant Flow(packages, out) == Forwarding(old(packages), entries[..i])
      {
        assert entries[..i + 1][..i] == entries[..i];
        var entry := entries[i];
        var seen := Exists(entry);
        if !seen {
          Store(entry);
          out := out + [entry];
        }
      }
      assert entries[..|entries|] == entries;
    }

    /** `consume`: every message's package record is extracted and its
        entries go through the forwarding loop. */
    method Consume(messages: seq<Package>) returns (out: seq<Entry>)
      modifies this
      ensures Flow(packages, out) == Forwarding(old(packages), AllExtracted(messages))
    {
      out := [];
      for i := 0 to |messages|
        invariant Flow(packages, out) == Forwarding(old(packages), AllExtracted(messages[..i]))
      {
        assert messages[..i + 1][..i] == messages[..i];
        var entries := Extract(messages[i]);
        var produced := ForwardEntries(entries);
        ForwardingAppend(old(packages), AllExtracted(messages[..i]), entries);
        out := out + produced;
      }
      assert messages[..|messages|] == messages;
    }
  }
}
