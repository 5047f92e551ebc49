/** The outer loop of `_parse_requires`: one dependency constraint per raw
    requirement, each tagged with the PyPI forge. */
module Requirements {
  import opened Specifiers
  import opened Compressor

  /** A requirement as `Requirement.parse` returns it: the dependency's
      name and its specifiers, in the order `Requirement.specs` lists them. */
  datatype Requirement = Requirement(name: string, specs: seq<Spec>)

  /** `{"forge": ..., "product": ..., "constraints": ...}`. */
  datatype DependencyConstraint = DependencyConstraint(forge: string, product: string, constraints: seq<string>)

  const Forge := "PyPI"

  /** The dependency constraint of one requirement. */
  function Dependency(r: Requirement): DependencyConstraint
  {
    DependencyConstraint(Forge, r.name, Compress(r.specs))
  }

  /** The list `_parse_requires` returns. */
  function ParsedRequires(reqs: seq<Requirement>): seq<DependencyConstraint>
  {
    seq(|reqs|, i requires 0 <= i < |reqs| => Dependency(reqs[i]))
  }

  /** `_parse_requires` as a loop appending to `parsed`: one entry per
      requirement, in order, forge `PyPI`, the requirement's name and its
      compressed specifiers. */
  method ParseRequires(reqs: seq<Requirement>) returns (parsed: seq<DependencyConstraint>)
    ensures |parsed| == |reqs|
    ensures forall i :: 0 <= i < |reqs| ==>
      parsed[i].forge == "PyPI" && parsed[i].product == reqs[i].name
      && parsed[i].constraints == Compress(reqs[i].specs)
    ensures parsed == ParsedRequires(reqs)
  {
    parsed := [];
    var i := 0;
    while i < |reqs|
      invariant 0 <= i <= |reqs|
      invariant parsed == ParsedRequires(reqs[..i])
    {
      var r := reqs[i];
      var constraints := CompressSpecs(r.specs);
      parsed := parsed + [DependencyConstraint(Forge, r.name, constraints)];
      i := i + 1;
    }
    assert reqs[..i] == reqs;
  }
}
