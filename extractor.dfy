/** `_extract`: the normalized entries of one package record, one per usable
    release, each stamped with the earliest upload time of its files. */
module Extractor {
  import opened Wrappers
  import opened Requirements

  /** One file of a release. `uploadTime` is the upload time already
      converted to whole Unix seconds; `None` when the key is missing or
      its value empty. */
  datatype SubRelease = SubRelease(uploadTime: Option<int>)

  /** One element of `project.releases`: its `version` and its own
      `releases` list of files, either of which may be missing. */
  datatype Release = Release(version: Option<string>, releases: Option<seq<SubRelease>>)

  /** The fields of a package record that `_extract` reads:
      `project.info.name`, `project.info.requires_dist` (already split by
      the requirement parser) and `project.releases`, `None` when missing. */
  datatype Package = Package(name: Option<string>, requiresDist: Option<seq<Requirement>>,
                             releases: Option<seq<Release>>)

  /** A normalized entry as it is forwarded. */
  datatype Entry = Entry(product: string, version: string, versionTimestamp: int,
                         requiresDist: seq<DependencyConstraint>)

  /** The smallest upload time among the files that have one; `None` plays
      the part of the `float("inf")` sentinel that no file lowered. */
  function EarliestUpload(files: seq<SubRelease>): (r: Option<int>)
    ensures r.None? <==> forall k :: 0 <= k < |files| ==> files[k].uploadTime.None?
    ensures r.Some? ==> exists k :: 0 <= k < |files| && files[k].uploadTime == r
    ensures r.Some? ==> forall k :: 0 <= k < |files| && files[k].uploadTime.Some? ==>
      r.value <= files[k].uploadTime.value
  {
    if files == [] then None
    else
      var acc, t := EarliestUpload(files[..|files| - 1]), files[|files| - 1].uploadTime;
      if t.None? then acc
      else if acc.None? || t.value < acc.value then t
      else acc
  }

  /** The inner loop of `_extract` over a release's files. */
  method MinUploadTime(files: seq<SubRelease>) returns (ts: Option<int>)
    ensures ts == EarliestUpload(files)
  {
    ts := None;
    for i := 0 to |files|
      invariant ts == EarliestUpload(files[..i])
    {
      assert files[..i + 1][..i] == files[..i];
      var r := files[i];
      if r.uploadTime.None? {
        continue;
      }
      var candts := r.uploadTime.value;
      if ts.None? || candts < ts.value {
        ts := Some(candts);
      }
    }
    assert files[..|files|] == files;
  }

  /** A release `_extract` does not skip at once: its version and its file
      list are both present and non-empty. */
  predicate Usable(r: Release)
  {
    r.version.Some? && r.version.value != [] && r.releases.Some? && r.releases.value != []
  }

  /** The entry yielded for one release, if any. */
  function EntryFor(name: string, deps: seq<DependencyConstraint>, r: Release): seq<Entry>
  {
    if !Usable(r) then []
    else match EarliestUpload(r.releases.value)
      case None => []
      case Some(ts) => [Entry(name, r.version.value, ts, deps)]
  }

  function EntriesOf(name: string, deps: seq<DependencyConstraint>, rs: seq<Release>): seq<Entry>
  {
    if rs == [] then []
    else EntriesOf(name, deps, rs[..|rs| - 1]) + EntryFor(name, deps, rs[|rs| - 1])
  }

  /** Everything `_extract(package)` yields. */
  function Extracted(pkg: Package): seq<Entry>
  {
    if pkg.name.None? || pkg.requiresDist.None? || pkg.releases.None? then []
    else EntriesOf(pkg.name.value, ParsedRequires(pkg.requiresDist.value), pkg.releases.value)
  }

  /** `_extract` as a loop with `continue`: the requirements are compressed
      once before the loop, releases without a version, without files or
      without any upload time are skipped. */
  method Extract(pkg: Package) returns (entries: seq<Entry>)
    ensures entries == Extracted(pkg)
    ensures pkg.name.None? || pkg.requiresDist.None? || pkg.releases.None? ==> entries == []
  {
    entries := [];
    if pkg.name.None? || pkg.requiresDist.None? || pkg.releases.None? {
      return;
    }
    var pkgName, releases := pkg.name.value, pkg.releases.value;
    var requiresDist := ParseRequires(pkg.requiresDist.value);
    for i := 0 to |releases|
      invariant entries == EntriesOf(pkgName, requiresDist, releases[..i])
    {
      assert releases[..i + 1][..i] == releases[..i];
      var release := releases[i];
      if release.version.None? || release.version.value == [] ||
         release.releases.None? || release.releases.value == [] {
        continue;
      }
      var version := release.version.value;
      var ts := MinUploadTime(release.releases.value);
      if ts.None? {
        continue;
      }
      entries := entries + [Entry(pkgName, version, ts.value, requiresDist)];
    }
    assert releases[..|releases|] == releases;
  }

  lemma {:induction false} EntriesOfSound(name: string, deps: seq<DependencyConstraint>, rs: seq<Release>)
    ensures |EntriesOf(name, deps, rs)| <= |rs|
    ensures forall e :: e in EntriesOf(name, deps, rs) ==>
      e.product == name && e.requiresDist == deps && e.version != []
      && exists k :: 0 <= k < |rs| && Usable(rs[k]) && rs[k].version == Some(e.version)
           && EarliestUpload(rs[k].releases.value) == Some(e.versionTimestamp)
  {
    if rs != [] {
      var p := rs[..|rs| - 1];
      EntriesOfSound(name, deps, p);
      forall e | e in EntriesOf(name, deps, rs)
        ensures exists k :: (0 <= k < |rs| && Usable(rs[k]) && rs[k].version == Some(e.version)
           && EarliestUpload(rs[k].releases.value) == Some(e.versionTimestamp))
      {
        if e in EntriesOf(name, deps, p) {
          var k :| 0 <= k < |p| && Usable(p[k]) && p[k].version == Some(e.version)
            && EarliestUpload(p[k].releases.value) == Some(e.versionTimestamp);
          assert rs[k] == p[k];
        }
      }
    }
  }

  /** Every entry belongs to the package: its product name, the package's
      shared compressed requirement list, and the version and earliest upload
      time of one of its usable releases. There are never more entries than
      releases. */
  lemma ExtractedSound(pkg: Package)
    requires pkg.name.Some? && pkg.requiresDist.Some? && pkg.releases.Some?
    ensures |Extracted(pkg)| <= |pkg.releases.value|
    ensures forall e :: e in Extracted(pkg) ==>
      e.product == pkg.name.value && e.requiresDist == ParsedRequires(pkg.requiresDist.value)
      && exists k :: 0 <= k < |pkg.releases.value| && Usable(pkg.releases.value[k])
           && pkg.releases.value[k].version == Some(e.version)
           && EarliestUpload(pkg.releases.value[k].releases.value) == Some(e.versionTimestamp)
  {
    EntriesOfSound(pkg.name.value, ParsedRequires(pkg.requiresDist.value), pkg.releases.value);
  }

  lemma {:induction false} EntriesOfComplete(name: string, deps: seq<DependencyConstraint>, rs: seq<Release>, k: nat)
    requires k < |rs| && Usable(rs[k]) && EarliestUpload(rs[k].releases.value).Some?
    ensures Entry(name, rs[k].version.value, EarliestUpload(rs[k].releases.value).value, deps)
      in EntriesOf(name, deps, rs)
  {
    var p := rs[..|rs| - 1];
    if k < |rs| - 1 {
      assert rs[k] == p[k];
      EntriesOfComplete(name, deps, p, k);
    }
  }

  /** Every usable release with at least one upload time yields its entry,
      stamped with the smallest of those times. */
  lemma ExtractedComplete(pkg: Package, k: nat)
    requires pkg.name.Some? && pkg.requiresDist.Some? && pkg.releases.Some?
    requires k < |pkg.releases.value|
    ensures var r := pkg.releases.value[k];
      Usable(r) && (exists j :: 0 <= j < |r.releases.value| && r.releases.value[j].uploadTime.Some?) ==>
      Entry(pkg.name.value, r.version.value, EarliestUpload(r.releases.value).value,
            ParsedRequires(pkg.requiresDist.value)) in Extracted(pkg)
  {
    var r := pkg.releases.value[k];
    if Usable(r) && EarliestUpload(r.releases.value).Some? {
      EntriesOfComplete(pkg.name.value, ParsedRequires(pkg.requiresDist.value), pkg.releases.value, k);
    }
  }

  /** A release `_extract` yields an entry for: usable, and at least one of
      its files has an upload time. */
  predicate Yields(r: Release)
  {
    Usable(r) && EarliestUpload(r.releases.value).Some?
  }

  /** The positions of the releases that yield an entry, ascending. */
  function YieldingIndices(rs: seq<Release>): seq<nat>
  {
    if rs == [] then []
    else YieldingIndices(rs[..|rs| - 1]) + (if Yields(rs[|rs| - 1]) then [|rs| - 1] else [])
  }

  lemma {:induction false} EntriesOfIndexed(name: string, deps: seq<DependencyConstraint>, rs: seq<Release>)
    ensures var q, es := YieldingIndices(rs), EntriesOf(name, deps, rs);
      && |es| == |q|
      && (forall i :: 0 <= i < |q| ==>
            (q[i] < |rs| && Yields(rs[q[i]]) &&
             es[i] == Entry(name, rs[q[i]].version.value, EarliestUpload(rs[q[i]].releases.value).value, deps)))
      && (forall i, j :: 0 <= i < j < |q| ==> q[i] < q[j])
      && (forall k :: 0 <= k < |rs| && Yields(rs[k]) ==> k in q)
  {
    if rs != [] {
      var p, x := rs[..|rs| - 1], rs[|rs| - 1];
      EntriesOfIndexed(name, deps, p);
      var q0, e0 := YieldingIndices(p), EntriesOf(name, deps, p);
      var q, es := YieldingIndices(rs), EntriesOf(name, deps, rs);
      assert forall k :: 0 <= k < |p| ==> rs[k] == p[k];
      if Yields(x) {
        assert q == q0 + [|p|];
        assert es == e0 + [Entry(name, x.version.value, EarliestUpload(x.releases.value).value, deps)];
      } else {
        assert EntryFor(name, deps, x) == [];
        assert q == q0 && es == e0;
      }
    }
  }

  /** One entry per yielding release, in release order: a strictly
      increasing map from the entries onto the releases that yield one, each
      entry built from its own release. This pins down both how many
      entries there are and in which order they come. */
  lemma ExtractedInOrder(pkg: Package)
    requires pkg.name.Some? && pkg.requiresDist.Some? && pkg.releases.Some?
    ensures var rs, es := pkg.releases.value, Extracted(pkg);
      exists idx: seq<nat> ::
        && |idx| == |es|
        && (forall i :: 0 <= i < |idx| ==>
              (idx[i] < |rs| && Yields(rs[idx[i]]) &&
               es[i] == Entry(pkg.name.value, rs[idx[i]].version.value,
                              EarliestUpload(rs[idx[i]].releases.value).value,
                              ParsedRequires(pkg.requiresDist.value))))
        && (forall i, j :: 0 <= i < j < |idx| ==> idx[i] < idx[j])
        && (forall k :: 0 <= k < |rs| && Yields(rs[k]) ==> k in idx)
  {
    EntriesOfIndexed(pkg.name.value, ParsedRequires(pkg.requiresDist.value), pkg.releases.value);
    var idx := YieldingIndices(pkg.releases.value);
    assert |idx| == |Extracted(pkg)|;
  }
}
