# kafka-filter-pypi, modelled in Dafny

This project models the core of the PyPI filter in
`kafka-filter-pypi/entrypoint.py`. The filter reads PyPI package records from
a Kafka topic. It turns every usable release into a normalized entry: the
product, the version, the earliest upload time of the release's files, and the
package's dependency constraints compressed into interval expressions. It then
forwards only the `(product, version)` pairs it has not seen before.

Modules, one per piece of the class `PyPIFilter`:

- `LexOrder`: the ordering Python uses for `str`. `_parse_requires` sorts specifiers by their raw version string with it.
- `Specifiers`: the `(operator, version)` pairs and the stable sort (`sorted(specs, key=lambda x: x[1])`), written as an insertion sort.
- `Intervals`: `add_range`, which renders a pending pair of bounds. It has a parser that reads each expression back.
- `Compressor`: the loop of `_parse_requires` over the sorted specifiers, with its pending `begin` and `end` slots. It is given as the specification functions `Step`/`Run`/`Compress` and as the imperative method `CompressSpecs`.
- `Requirements`: the outer loop of `_parse_requires`. It builds one `{forge: "PyPI", product, constraints}` record per requirement.
- `Extractor`: `_extract`, with the earliest-upload-time loop.
- `Dedup`: `_exists`, `_store`, the loops of `consume` and `_fill_old`, and the class `PyPIFilter` holding the `packages` field.

The Kafka streams become sequences. `consume` takes a sequence of package records and returns the sequence of entries it would have produced. `_fill_old` takes the sequence of previously forwarded entries.

## Model

| member | source | states |
|---|---|---|
| `LexOrder.LexLeTotal` | kafka-filter-pypi/entrypoint.py:157 | any two version strings are comparable under Python's string order |
| `LexOrder.LexLeTransitive` | kafka-filter-pypi/entrypoint.py:157 | Python's string order is transitive |
| `LexOrder.LexLeAntisymmetric` | kafka-filter-pypi/entrypoint.py:157 | two strings that are each `<=` the other are equal |
| `Specifiers.SortByVersionSorted` | kafka-filter-pypi/entrypoint.py:157 | the specifiers come out in ascending order of version string |
| `Specifiers.SortByVersionPermutes` | kafka-filter-pypi/entrypoint.py:157 | sorting neither loses nor adds a specifier (same multiset) |
| `Specifiers.SortByVersionStable` | kafka-filter-pypi/entrypoint.py:157 | specifiers with the same version string keep their original relative order, as Python's `sorted` guarantees |
| `Specifiers.SortedHead` | kafka-filter-pypi/entrypoint.py:157 | the first sorted specifier has the smallest version and is the first listed with it |
| `Specifiers.SortedLast` | kafka-filter-pypi/entrypoint.py:157 | the last sorted specifier has the largest version and is the last listed with it |
| `Specifiers.SortKnownOnly` | kafka-filter-pypi/entrypoint.py:157-185 | dropping the operators without a branch commutes with sorting |
| `Intervals.Render` | kafka-filter-pypi/entrypoint.py:134-153 | `add_range` appends at most one expression, and appends nothing exactly when neither bound is set |
| `Intervals.RenderShape` | kafka-filter-pypi/entrypoint.py:134-153 | every range is: the open char, lower version, `..`, upper version, the close char. Each bracket follows the inclusive flag of its side. The open char is always `[` when there is no lower bound, and the close char is always `]` when there is no upper bound |
| `Intervals.RenderRoundTrip` | kafka-filter-pypi/entrypoint.py:134-153 | every range expression reads back as exactly the pair of bounds that produced it, bounds and flags included |
| `Intervals.PointRoundTrip` | kafka-filter-pypi/entrypoint.py:165 | the `[v]` expression reads back as the point `v`, for any non-empty `v` without `..` |
| `Compressor.CompressSpecs` | kafka-filter-pypi/entrypoint.py:133-186 | the imperative loop, with its `begin`/`end` slots and the final flush, computes `Compress` |
| `Compressor.EqFlushesThenAppendsPoint` | kafka-filter-pypi/entrypoint.py:159-165 | `==` with both bounds pending appends the range and then `[v]`, and clears both slots |
| `Compressor.EqWithoutRange` | kafka-filter-pypi/entrypoint.py:159-165 | `==` with no lower bound pending appends `[v]` and keeps `end`. With only a lower bound pending the state is unchanged. `==` never sets a bound |
| `Compressor.LowerFlushesPendingUpper` | kafka-filter-pypi/entrypoint.py:167-180 | `>`/`>=` with an upper bound pending flush it, with or without a lower bound (`[..b]`/`[..b)` when there is none). They then open a new lower bound from their own version and flag |
| `Compressor.FirstLowerBoundWins` | kafka-filter-pypi/entrypoint.py:167-180 | with no upper bound pending, a run of `>`/`>=` keeps the lower bound already pending, or else sets the first one, and changes nothing else |
| `Compressor.LastUpperBoundWins` | kafka-filter-pypi/entrypoint.py:182-185 | a run of `<`/`<=` leaves the last one as `end` and changes nothing else |
| `Compressor.PointsAppendedInOrder` | kafka-filter-pypi/entrypoint.py:159-165 | while no lower bound is pending, each `==` appends its own point, in order, whatever upper bound is pending |
| `Compressor.OtherIsNoOp` | kafka-filter-pypi/entrypoint.py:157-185 | an operator other than the five leaves state and output unchanged |
| `Compressor.CompressIgnoresOther` | kafka-filter-pypi/entrypoint.py:155-186 | removing the unknown operators does not change the result. No known operator, in particular no specifier at all, gives an empty constraint list |
| `Compressor.CompressSize` | kafka-filter-pypi/entrypoint.py:133-186 | there are never more constraints than specifiers with a known operator |
| `Compressor.CompressOrdered` | kafka-filter-pypi/entrypoint.py:155-186 | the constraints ascend by the version they start from (a point's version, a range's lower bound) wherever both have one, so several `==` points come out in ascending version order |
| `Compressor.CompressSound` | kafka-filter-pypi/entrypoint.py:133-186 | every constraint reads back as a point or range built from the requirement's own specifiers: a point from `==`, `[a`/`(a` from `>=`/`>`, `b]`/`b)` from `<=`/`<` |
| `Compressor.RunOnlyLower` | kafka-filter-pypi/entrypoint.py:167-180 | over lower bounds only, the loop ends with the first one pending and nothing emitted |
| `Compressor.RunOnlyUpper` | kafka-filter-pypi/entrypoint.py:182-185 | over upper bounds only, the loop ends with the last one pending and nothing emitted |
| `Compressor.OnlyLowerBounds` | kafka-filter-pypi/entrypoint.py:155-186 | lower bounds alone give one `[a..]`/`(a..]` at the smallest version string. Among specifiers with that version, the first listed decides the bracket |
| `Compressor.OnlyUpperBounds` | kafka-filter-pypi/entrypoint.py:155-186 | upper bounds alone give one `[..b]`/`[..b)` at the largest version string. Among specifiers with that version, the last listed decides the bracket |
| `Compressor.ExamplePoint` | kafka-filter-pypi/entrypoint.py:159-165 | `==1.0.0` gives `["[1.0.0]"]` |
| `Compressor.ExampleClosedRange` | kafka-filter-pypi/entrypoint.py:134-137 | `>=1.0.0, <=2.0.0` gives `["[1.0.0..2.0.0]"]` |
| `Compressor.ExampleHalfOpenRange` | kafka-filter-pypi/entrypoint.py:140-141 | `>1.0.0, <=2.0.0` gives `["(1.0.0..2.0.0]"]` |
| `Compressor.ExampleUnbounded` | kafka-filter-pypi/entrypoint.py:144-153 | `<3.0.0` gives `["[..3.0.0)"]` and `>=1.0.0` gives `["[1.0.0..]"]` |
| `Compressor.ExampleTwoPoints` | kafka-filter-pypi/entrypoint.py:157-165 | `==2.0.0, ==1.0.0` gives `["[1.0.0]", "[2.0.0]"]`, ascending |
| `Compressor.ExampleStringOrder` | kafka-filter-pypi/entrypoint.py:157-186 | `>=2.0, <10.0` gives `["[..10.0)", "[2.0..]"]`, because `"10.0"` sorts before `"2.0"` |
| `Compressor.ExampleSameVersionOrder` | kafka-filter-pypi/entrypoint.py:157-186 | specifiers sharing a version keep their listed order: `>=1.0, <=1.0` gives `["[1.0..1.0]"]`, but `<=1.0, >=1.0` gives `["[..1.0]", "[1.0..]"]` |
| `Requirements.ParseRequires` | kafka-filter-pypi/entrypoint.py:125-190 | one record per requirement, in order, each with forge `PyPI`, the requirement's name and its compressed specifiers |
| `Extractor.EarliestUpload` | kafka-filter-pypi/entrypoint.py:102-115 | the result is absent exactly when no file has an upload time. Otherwise it is one of the files' times and no larger than any of them |
| `Extractor.MinUploadTime` | kafka-filter-pypi/entrypoint.py:102-111 | the loop with its sentinel and its `continue` computes `EarliestUpload` |
| `Extractor.Extract` | kafka-filter-pypi/entrypoint.py:86-123 | the loop with its `continue`s computes `Extracted`. A missing name, `requires_dist` or `releases` yields nothing |
| `Extractor.ExtractedSound` | kafka-filter-pypi/entrypoint.py:95-123 | every entry carries the package's name and the one shared compressed requirement list. Its version and timestamp are those of a release with a non-empty version and file list, and the timestamp is that release's earliest upload time. There are at most as many entries as releases |
| `Extractor.ExtractedComplete` | kafka-filter-pypi/entrypoint.py:96-123 | every release with a non-empty version, a non-empty file list and at least one upload time yields its entry |
| `Extractor.ExtractedInOrder` | kafka-filter-pypi/entrypoint.py:96-123 | a strictly increasing map sends the entries onto exactly the releases that yield one, each entry built from its own release: one entry per such release, in release order |
| `Dedup.StoredSeen` | kafka-filter-pypi/entrypoint.py:43-53 | after storing `e`, `e` is seen, and a pair is seen exactly when it was seen before or is `e`'s |
| `Dedup.StoredIdempotent` | kafka-filter-pypi/entrypoint.py:50-53 | storing twice equals storing once. Storing a seen entry changes nothing |
| `Dedup.StoredFrame` | kafka-filter-pypi/entrypoint.py:50-53 | the keys gain only `e.product`, other products' sets are unchanged, and no set shrinks |
| `Dedup.SeededSeen` | kafka-filter-pypi/entrypoint.py:81-84 | after seeding, exactly the previously seen pairs and the pairs of the history are seen |
| `Dedup.ForwardingStore` | kafka-filter-pypi/entrypoint.py:33-38 | the forwarding loop leaves the same store as seeding with the same entries |
| `Dedup.ForwardedAreFresh` | kafka-filter-pypi/entrypoint.py:33-38 | the forwarded entries are exactly those that were unseen at the start and are the first of their pair, in input order |
| `Dedup.ForwardedOnce` | kafka-filter-pypi/entrypoint.py:33-38 | no forwarded entry was seen before, and no pair is forwarded twice |
| `Dedup.ForwardedComplete` | kafka-filter-pypi/entrypoint.py:33-38 | every consumed entry is seen afterwards, and an entry that was new has its pair forwarded |
| `Dedup.ForwardedStoreSeen` | kafka-filter-pypi/entrypoint.py:33-38 | the store gains exactly the pairs that were forwarded |
| `Dedup.ForwardingAppend` | kafka-filter-pypi/entrypoint.py:26-38 | consuming `a` then `b` equals consuming `a + b`, with the outputs concatenated |
| `Dedup.ExampleDedupAcrossRuns` | kafka-filter-pypi/entrypoint.py:33-38 | a store seeded with `foo 1.0.0` forwards only `foo 1.1.0` of the two |
| `Dedup.PyPIFilter.constructor` | kafka-filter-pypi/entrypoint.py:12-21 | the store starts empty, and it is seeded from the history when `check_old` is set |
| `Dedup.PyPIFilter.Exists` | kafka-filter-pypi/entrypoint.py:43-48 | true iff the product is a key and the version is in its set |
| `Dedup.PyPIFilter.Store` | kafka-filter-pypi/entrypoint.py:50-53 | the new store is `Stored(old, e)`, in which `e` is seen |
| `Dedup.PyPIFilter.FillOld` | kafka-filter-pypi/entrypoint.py:72-84 | the history loop only stores (`Seeded`) and forwards nothing |
| `Dedup.PyPIFilter.ForwardEntries` | kafka-filter-pypi/entrypoint.py:33-38 | exists, then store, then produce: the store and output are those of `Forwarding` |
| `Dedup.PyPIFilter.Consume` | kafka-filter-pypi/entrypoint.py:23-38 | each record is extracted and its entries forwarded. The output and store are `Forwarding` over all extracted entries |

## Left out

- Kafka transport is left out because it is network I/O. This covers `_init_kafka`, the consumer iteration, the one-second `consumer_timeout_ms` time box of `_fill_old`, and `produce`'s `producer.send`. Inputs and outputs are sequences instead.
- JSON (de)serialisation is left out because it is a foreign library.
- The `print` diagnostics are left out. This includes the record's `title` that `consume` prints. The source raises `KeyError` there for a record without a `title`, and the model does not capture that crash.
- `Requirement.parse` (entrypoint.py:128) is left out because it is a foreign library (PEP 508 parsing). The model takes its output, a name and a list of specifiers. Its exceptions on malformed strings are left out too.
- `dateutil.parser.isoparse(...).timestamp()` and the `int(...)` truncation are left out because they are foreign date parsing and float arithmetic. Upload times are given as whole seconds.
- `get_parser` (the argparse CLI) and `main`'s endless `while True` loop with `time.sleep` are left out because they are process bootstrap.
- PEP 440 version precedence is left out because the code never uses it: it sorts raw version strings, and so does the model, so `10.0` comes before `2.0`. `Compressor.ExampleStringOrder` shows the consequence.
- Operators other than the five (`!=`, `~=`, `===`) raise no error: the code ignores them silently, and so does the model.
- `requires_dist` is compressed once per package (line 95), not once per release, and every entry shares the result. The model does the same.
- The order in which `Requirement.specs` lists a requirement's specifiers is taken as given. That order comes from the requirement parser, which is not part of this model, and it need not follow the written order. It matters: the stable sort keeps specifiers that share a version in that order, and the result depends on it. `Compressor.ExampleSameVersionOrder` shows two orders of the same pair giving different constraints, so the output is a function of the listed sequence, not of the multiset of specifiers.
- Record fields are either present or missing. A JSON `null` in place of a list is not modelled. For example, `requires_dist: null` makes the source's loop raise `TypeError`.
- The `float("inf")` sentinel is modelled as `None`. `_extract`'s lazy generator is modelled as a finite sequence. The shared `requires_dist` list is a value, so aliasing between entries is not modelled.
- `Compressor.CompressSound`: the read-back property is proved only for version strings that are non-empty, have no `..` and no trailing dot. For other strings the interval text is ambiguous. Every PEP 440 version meets this condition.
- `Intervals.RenderRoundTrip`: proved under the same condition on the bound versions, for the same reason.
- `Compressor.CompressOrdered`: proved under the same condition, since it reads each constraint's starting version back through the parser.
