# TaskGate evaluation oracles, verified

TaskGate's evaluation code keeps an independent oracle beside the production system: it encodes facts
and results canonically, commits to sets of them, generates workloads with exactly known overlaps, and
accounts for cumulative exposure. This project models that oracle code in Dafny and proves what its
results mean.

* **Canonical bytes.** `GoBytes` has byte order, big-endian length framing and lowercase hexadecimal;
  `Sorting` has sorting, deduplication and ascending listings of sets.
* **Sets.** `SetAlgebra` is the plain in-memory form, `SetStream` (with the binary heap of `MergeHeap`)
  the bounded-memory external sorter that has to agree with it.
* **Numbers.** `Numerals` and `Decimal` are the decimal normaliser, `Euclid` and `Printers` the gcd and
  the decimal and rational printers.
* **Facts and results.** `Facts`, `OutcomeVector` and `ResultHashers` are the framed payloads, the
  validator, the predicate-set commitment and the two streaming result hashers; `SqlValues` is the
  validator's check of canonical SQL values.
* **Generators.** `RootWalk`, `OpaqueOutcome`, `Ordinals`, `Schedule` and `Dependency`.
* **Accounting.** `TraceUnion`, `BoundedStop` and `Novelty`; `Grouping` and `HiddenKey` are the two
  grouped queries of the relational oracle, and `GroupedRelease` reads off what they release.
* **Two state machines.** `Sidecar` (the copy source) and `PeakMaximum` (the compare-and-swap maximum).

Conventions. A Go string and a Go `[]byte` are both a sequence of bytes. A hash is a parameter
`h: Bytes -> Digest`, so every statement holds for SHA-256; where a result needs that different inputs
have different digests, `CollisionFree(h, S)` is a hypothesis on the finite set `S` of the byte strings
actually hashed. Ranging over a Go map is enumerating a set in an arbitrary order (`Sorting.AnyOrder`).
Errors are `Option` or `Result` values. Integers are unbounded; where Go's width decides something
(`RootWalk`, `Euclid`, `Printers`, `Ordinals`, `GoBytes.U64`) the wrap-around is written out. Length hypotheses such as
`Fits`, `Representable` and `Sized` say that a length fits Go's `int`.

Four results differ from what one would first expect, and each has its exact condition.

* `canonicalDecimal` is not idempotent. `Decimal.OversizedOutput` gives an accepted text whose output is
  refused; `Decimal.IdempotentExactly` decides idempotence on the sign, significant digits and scale of
  the input.
* The walk over the root positions is not safe for every positive int64 root. `RootWalk.WalkExactly` says
  for each input that it is the ideal walk exactly when none of its additions overflows, and
  `RootWalk.WalkSafeExactly` that a root is safe for every start and step exactly when it is at most 2^62.
* The gcd loop ends with an int64 negation. `Euclid.DependencyGcd` returns the greatest common divisor
  exactly when that divisor is not 2^63.
* `artifactDecimal` prints a refused text for the most negative int64 and drops a negative scale:
  `Printers.ArtifactExactly`.

`dafny verify dfyconfig.toml` checks the whole project.

## Model

| member | source | states |
|---|---|---|
| `SetStream.SummarizeSemanticSetRoles` | evaluation/finalv5oracle/setstream.go:70-181 | for every stream, memory limit and capture bound the result is the one computed from the plain set of members, and each error is returned exactly for its cause |
| `SetStream.StreamSorter.Yield` | evaluation/finalv5oracle/setstream.go:145-160 | a malformed member changes nothing; otherwise the buffer and the spilled runs together hold the input, every spilled chunk was full, and the peak is min(input, limit) |
| `SetStream.StreamSorter.Flush` | evaluation/finalv5oracle/setstream.go:103-142 | spilling the buffer as a sorted duplicate-free run loses and adds no member |
| `SetStream.MergeRuns` | evaluation/finalv5oracle/setstream.go:183-250 | the k-way merge emits the union of the runs in strictly ascending order, captures its first members and never holds more heads than runs |
| `SetStream.ChunksIsCeiling` | evaluation/finalv5oracle/setstream.go:179-181 | the number of spill runs is the input size divided by the limit, rounded up |
| `SetStream.UniqueInMemory` | evaluation/finalv5oracle/setstream.go:166-175 | sorting the buffer and deduplicating it in place gives the ascending listing of its set |
| `Sorting.DedupInPlace` | evaluation/finalv5oracle/setstream.go:167-173 | the loop over `buffer[:0]`, reading and overwriting one array, keeps exactly the elements that differ from their predecessor |
| `SetStream.MergedIsListing` | evaluation/finalv5oracle/setstream.go:195-250 | lowercase hexadecimal order is byte order, so the merged raw members spell the sorted duplicate-free listing of the input |
| `SetStream.SamePreimage` | evaluation/finalv5oracle/setstream.go:278-339 | the streaming commitment and digestSetRole hash the same bytes |
| `SetStream.SummaryIdentifiesSet` | evaluation/finalv5oracle/setstream.go:258-317 | cardinality and digest of a summary are those of the plain set; its sample lists the least members, as 256-bit numbers strictly upwards, and is the whole set exactly when the set fits the capture bound |
| `SetStream.StatsAccount` | evaluation/finalv5oracle/setstream.go:145-181 | the buffer holds at most the limit, runs are spilled only if the input does not fit, and as many as input / limit rounded up |
| `SetStream.AcceptedExactly` | evaluation/finalv5oracle/setstream.go:70-93 | accepted are exactly distinct known roles, a memory bound that is zero or at least two, a capture bound that is not negative, and members of 64 lowercase hexadecimal digits |
| `SetStream.MalformedPosition` | evaluation/finalv5oracle/setstream.go:145-149 | the reported position is that of the first malformed member |
| `SetStream.EveryRoleWithinMemory` | evaluation/finalv5oracle/setstream.go:81-84 | every role gets a summary computed within the requested memory, zero standing for 65536 members |
| `MergeHeap.Heap.Push` | evaluation/finalv5oracle/setstream.go:379-404 | sift-up keeps the heap order and adds exactly one item |
| `MergeHeap.Heap.Pop` | evaluation/finalv5oracle/setstream.go:379-404 | removes and returns a least item; the others stay |
| `GoBytes.HexOrder` | evaluation/finalv5oracle/setstream.go:387-393 | lowercase hexadecimal preserves and reflects byte order |
| `GoBytes.LeqExactly` | evaluation/finalv5oracle/setstream.go:387-393 | which way byte order runs: a prefix comes first, otherwise the first differing byte decides |
| `GoBytes.ByteOrderIsNumeric` | evaluation/finalv5oracle/setstream.go:387-393 | between strings of one length byte order is the order of the numbers they spell |
| `GoBytes.ValidSha256IsLowerHex` | evaluation/finalv5oracle/oracle.go:97-100 | valid are exactly the strings of 64 lowercase hexadecimal digits |
| `GoBytes.HexSpelling` | evaluation/finalv5oracle/oracle.go:97-100 | each byte is spelled by two lowercase digits, the high half first |
| `GoBytes.HexDecodeExactly` | evaluation/finalv5oracle/oracle.go:98 | decoded are exactly the even numbers of hexadecimal digits of either case, two for each byte |
| `GoBytes.SpaceRuneExactly` | evaluation/finalv5oracle/facts.go:381-383 | the byte patterns cut at the ends of a token are the UTF-8 encodings of the white-space code points |
| `Facts.TokenExactly` | evaluation/finalv5oracle/facts.go:381-383 | a token is not empty and has no white-space rune at either end |
| `SetAlgebra.EvaluateSetAlgebra` | evaluation/finalv5oracle/set_algebra.go:32-73 | accepts exactly duplicate-free canonical inputs and identifies intersection, difference and union of the two sets |
| `SetAlgebra.ExactDigestSet` | evaluation/finalv5oracle/set_algebra.go:75-87 | fails exactly on a malformed or repeated member and reports the first one |
| `SetAlgebra.SortedSetValues` | evaluation/finalv5oracle/set_algebra.go:89-96 | whatever the enumeration order of the map, the result is the set's listing, upwards as 256-bit numbers |
| `SetAlgebra.PreimageDeterminesRoleAndSet` | evaluation/finalv5oracle/set_algebra.go:98-112 | two committed preimages are equal exactly for the same role and the same set |
| `SetAlgebra.AlgebraConserves` | evaluation/finalv5oracle/set_algebra.go:32-73 | overlap and novel add up to the candidate, and candidate plus existing to union plus overlap |
| `Decimal.CanonicalDecimal` | evaluation/finalv5oracle/canonical.go:295-366 | the step-by-step normaliser computes the function the lemmas below are about, on every text |
| `Decimal.CanonicalPreservesValue` | evaluation/finalv5oracle/canonical.go:295-366 | the output denotes exactly the number the input denotes and has no sign, point or zero too many and no negative zero |
| `Decimal.SameOutputIffSameNumber` | evaluation/finalv5oracle/canonical.go:295-366 | two accepted texts have the same output exactly when they denote the same number |
| `Decimal.CanonicalUnique` | evaluation/finalv5oracle/canonical.go:337-366 | a number has only one canonical numeral |
| `Decimal.AcceptedExactly` | evaluation/finalv5oracle/canonical.go:295-350 | accepted are exactly the numerals within the size limit whose expansion is within bounds |
| `Decimal.FixedPointExactly` | evaluation/finalv5oracle/canonical.go:295-366 | an output is a fixed point exactly when it is within the size limit |
| `Decimal.IdempotentExactly` | evaluation/finalv5oracle/canonical.go:295-366 | normalising an accepted text twice gives the same as once exactly when the length fixed by its own sign, significant digits and scale is within the size limit |
| `Decimal.OversizedOutput` | evaluation/finalv5oracle/canonical.go:295-366 | 1e-1048576 is accepted and its own output is refused |
| `Decimal.SplitComplete` | evaluation/finalv5oracle/canonical.go:302-335 | a well-formed numeral is recovered from its text, so a text has one reading |
| `Decimal.ParseInt32Reads` | evaluation/finalv5oracle/canonical.go:310-321 | exponent texts are an optional sign before digits, within int32; a minus negates and a plus does not |
| `Printers.PgxDenotes` | evaluation/finalv5oracle/canonical.go:368-377 | an accepted coefficient and exponent denote coefficient times ten to the exponent, and acceptance is exactly the size rule |
| `Printers.PgxRefused` | evaluation/finalv5oracle/canonical.go:310-321 | every other int32 exponent is refused |
| `Printers.CanonicalPgxNumeric` | evaluation/finalv5oracle/canonical.go:368-377 | the text of coefficient and exponent is that of the numeral of the two rows above, and an accepted one denotes coefficient times ten to the exponent |
| `Printers.SignedPaddedReads` | evaluation/finalv5oracle/artifact.go:141 | a padded number has at least the width asked for, a minus exactly when it is negative, and its digits |
| `Printers.ArtifactDecimal` | evaluation/finalv5oracle/artifact.go:130-147 | the power loop, division, remainder and padding in int64 print the text the next two rows are about |
| `Printers.ArtifactRoundTrip` | evaluation/finalv5oracle/artifact.go:130-147 | canonicalDecimal of the printed text denotes scaled / 10^scale |
| `Printers.ArtifactExactly` | evaluation/finalv5oracle/artifact.go:130-147 | for every int64 and every scale up to 18 the printed text denotes scaled / 10^scale exactly when the value is not the most negative one and the scale is not negative, zero excepted |
| `Euclid.DependencyGcd` | evaluation/finalv5oracle/dependency.go:282-290 | for all int64 arguments the loop computes the greatest common divisor, except where that is 2^63 and the negation wraps |
| `Euclid.OverflowExactly` | evaluation/finalv5oracle/dependency.go:286-288 | the divisor is 2^63 exactly for the arguments the overflow guard describes, and below 2^63 for all others |
| `Printers.CanonicalCents` | evaluation/finalv5oracle/dependency.go:272-280 | computes the text the next two rows are about |
| `Printers.CentsInLowestTerms` | evaluation/finalv5oracle/dependency.go:272-280 | the text spells cents / 100 as a fraction in lowest terms |
| `Printers.DatasetAndFactAgree` | evaluation/finalv5oracle/dataset.go:311-315 | the text artifactDecimal prints with two decimals and the dependency fact's reduced fraction denote the same number |
| `GoBytes.ReadInvertsWrite` | evaluation/finalv5oracle/facts.go:348-369 | reading a framed field returns the field written and the rest |
| `GoBytes.WriteInvertsRead` | evaluation/finalv5oracle/facts.go:359-369 | a successful read splits the input into what writing gives; a failed one means no framed field begins it |
| `Facts.CheckBundle` | evaluation/finalv5oracle/facts.go:144-158 | sort-then-compare-neighbours rejects exactly the bundles with an incomplete binding or a repeated namespace |
| `Facts.KnownNames` | evaluation/finalv5oracle/facts.go:385-398 | the SQL types, collatable types and operators the switches know |
| `Facts.BundleSorted` | evaluation/finalv5oracle/facts.go:144-149 | any bundle is sorted by namespace and then by snapshot, in byte order |
| `Facts.BundleAscends` | evaluation/finalv5oracle/facts.go:144-158 | an accepted bundle is written with its namespaces strictly upwards |
| `Facts.BuildDerivedFact` | evaluation/finalv5oracle/facts.go:132-173 | accepts exactly the valid tuples and returns the fact of the sorted tuple |
| `Facts.BuildBaseRowFact` | evaluation/finalv5oracle/facts.go:104-111 | accepts exactly the valid tuples and returns their fact |
| `Facts.BuildBaseCellFact` | evaluation/finalv5oracle/facts.go:113-127 | accepts exactly the valid tuples and returns their fact |
| `Facts.BuildPredicateAtomFact` | evaluation/finalv5oracle/facts.go:175-210 | accepts exactly the valid tuples, an empty version meaning the only admitted one |
| `Facts.BuildCompositeFact` | evaluation/finalv5oracle/facts.go:212-234 | accepts exactly the valid tuples, an empty version meaning the only admitted one |
| `Facts.PayloadIdentifiesFact` | evaluation/finalv5oracle/facts.go:104-234 | across all five kinds two payloads are equal exactly for the same kind and tuple, up to bundle order and version default |
| `Facts.BuiltFactValidates` | evaluation/finalv5oracle/facts.go:275-309 | every built fact passes the validator |
| `Facts.ValidateFact` | evaluation/finalv5oracle/facts.go:275-309 | the checks of the validator, in its order, decide ValidFact |
| `Facts.ValidFactExactly` | evaluation/finalv5oracle/facts.go:275-309 | valid are exactly the facts of a known kind and profile whose payload starts by naming both and whose hash is that of the profile's domain and the payload |
| `Facts.HashIdentifiesFact` | evaluation/finalv5oracle/facts.go:337-346 | without a collision two facts share a hash exactly when they are the same tuple |
| `Facts.MutationIsCaught` | evaluation/finalv5oracle/facts.go:275-309 | without a collision the only valid fact with a builder's profile and hash is the builder's |
| `SqlValues.IntegerExactly` | evaluation/finalv5oracle/facts.go:411-431 | an integer value is accepted exactly when it spells, in canonical decimal, an integer of the type's range |
| `SqlValues.RationalExactly` | evaluation/finalv5oracle/facts.go:432-445 | a finite numeric value is accepted exactly when it spells a fraction in lowest terms |
| `SqlValues.ByteaExactly` | evaluation/finalv5oracle/facts.go:465-474 | a bytea value is accepted exactly when it is the lowercase hexadecimal of some bytes |
| `SqlValues.IntegersAccepted` | evaluation/finalv5oracle/facts.go:411-431 | smallint, integer and bigint take exactly the spellings of the integers of 16, 32 and 64 bits |
| `SqlValues.NumericsAccepted` | evaluation/finalv5oracle/facts.go:432-445 | numeric takes exactly the three special values and the fractions in lowest terms |
| `SqlValues.TimesAccepted` | evaluation/finalv5oracle/facts.go:485-495 | a time of day is a number of microseconds from zero to the end of the day |
| `SqlValues.TextsAccepted` | evaluation/finalv5oracle/facts.go:526-528 | the three text types take any prefixed text |
| `SqlValues.OthersAccepted` | evaluation/finalv5oracle/facts.go:456-536 | booleans, byte strings and jsonb texts, each exactly |
| `OutcomeVector.SortOracleHashes` | evaluation/finalv5oracle/facts.go:371-379 | the in-place insertion sort leaves the sorted permutation |
| `OutcomeVector.HashV5PredicateSet` | evaluation/finalv5oracle/facts.go:239-270 | fails exactly on an invalid atom or a collision; otherwise the digest depends only on the set of atom hashes |
| `OutcomeVector.PredicatePreimageIdentifiesSet` | evaluation/finalv5oracle/facts.go:256-269 | two committed preimages are equal exactly for the same set of hashes |
| `OutcomeVector.BuildV5OutcomeVector` | evaluation/finalv5oracle/outcome.go:208-266 | succeeds exactly on acceptable queries without a hash collision and returns the vector of the set of atom facts |
| `OutcomeVector.VectorIgnoresOrderAndRepetition` | evaluation/finalv5oracle/outcome.go:208-266 | atom lists that state the same facts give the same acceptance and the same whole vector |
| `OutcomeVector.PermutedOrRepeated` | evaluation/finalv5oracle/outcome.go:208-266 | in particular permuted or repeated atoms do |
| `OutcomeVector.AtomFactsCountTuples` | evaluation/finalv5oracle/outcome.go:213-246 | the set of atom facts is as large as the set of distinct atom tuples, whatever the hash |
| `OutcomeVector.VectorAtoms` | evaluation/finalv5oracle/outcome.go:213-233 | an accepted atom names the query's context or none; the vector lists the facts of the atom tuples, each once, upwards by hash |
| `OutcomeVector.VectorComposite` | evaluation/finalv5oracle/outcome.go:238-246 | the composite is the fact of a tuple with the query's versions, hashes, visible rows and context, the vector's predicate set, and as atom count the number of distinct atom tuples |
| `OutcomeVector.VectorMembers` | evaluation/finalv5oracle/outcome.go:234-265 | members are the hashes of the atoms and of the composite in ascending order; predicate set and outcome set commit to them |
| `ResultHashers.CanonicalTypedRowPayload` | evaluation/finalv5oracle/result.go:129-150 | succeeds exactly for rows of the declared types and returns their encoding |
| `ResultHashers.RowPayloadInjective` | evaluation/finalv5oracle/result.go:129-150 | a row encoding determines every type, null flag and value |
| `ResultHashers.CellReads` | evaluation/finalv5oracle/result.go:138-148 | an encoded value reads back as its type, a flag that is zero exactly for null, and its content |
| `ResultHashers.ResultHasher.WriteTypedRow` | evaluation/finalv5oracle/result.go:115-165 | appends one encoding, or refuses a closed stream, a nonconforming row or an overflowing count and changes nothing |
| `ResultHashers.ResultHasher.Finalize` | evaluation/finalv5oracle/result.go:169-190 | closes the stream with the summary of what was written, its row and column counts among it; a second call changes nothing and returns the same |
| `ResultHashers.SortedResultHasher.WriteTypedRow` | evaluation/finalv5oracle/result.go:216-236 | the row and byte ceilings always hold and a refused row changes nothing |
| `ResultHashers.SortedResultHasher.Finalize` | evaluation/finalv5oracle/result.go:238-262 | closes with the summary of the sorted encodings, its row and column counts among it; a second call changes nothing and returns the same |
| `ResultHashers.OrderedStreamDeterminesRows` | evaluation/finalv5oracle/result.go:152-165 | the row stream determines the exact ordered list of typed rows |
| `ResultHashers.SortedStreamDeterminesMultiset` | evaluation/finalv5oracle/result.go:245-254 | the sorted stream is the same for two runs exactly when their rows are equal as multisets |
| `ResultHashers.OrderedDigestIdentifiesResult` | evaluation/finalv5oracle/result.go:169-190 | without a collision ordered digests are equal exactly for equal schemas and equal row lists |
| `ResultHashers.SortedDigestIdentifiesResult` | evaluation/finalv5oracle/result.go:238-262 | without a collision sorted digests are equal exactly for equal schemas and equal row multisets |
| `ResultHashers.SchemaDigestIdentifiesSchema` | evaluation/finalv5oracle/result.go:63-69 | without a collision the published schema digests are equal exactly for equal schemas |
| `ResultHashers.RunOrdered` | evaluation/finalv5oracle/result.go:85-190 | any run of writes and finalizations commits exactly the conforming rows before the first Finalize, in order, and reports how many rows and columns |
| `ResultHashers.RunSorted` | evaluation/finalv5oracle/result.go:192-262 | any run commits, sorted, exactly the rows the two ceilings admit before the first Finalize, and reports how many |
| `ResultHashers.CompareOrdered` | evaluation/finalv5oracle/result.go:85-190 | without a collision two call sequences on the ordered hasher end with equal digests exactly when the schemas are equal and the committed rows are equal as lists |
| `ResultHashers.CompareSorted` | evaluation/finalv5oracle/result.go:192-262 | without a collision two call sequences on the sorting hasher end with equal digests exactly when the schemas are equal and the admitted rows are equal as multisets |
| `ResultHashers.CeilingsOnlyRefuse` | evaluation/finalv5oracle/result.go:223-232 | within the ceilings the sorting hasher admits exactly what the ordered one commits |
| `RootWalk.CoprimeStep` | evaluation/finalv5oracle/outcome.go:163-184 | the search ends with the first value coprime to the root in cyclic order from the seed step: every value it skips has a common factor with the root |
| `RootWalk.FirstCoprimeUnique` | evaluation/finalv5oracle/outcome.go:174-183 | root and seed step determine the step |
| `GoBytes.Wrap64Exactly` | evaluation/finalv5oracle/outcome.go:155 | a 64-bit result is the one int64 congruent to the number modulo 2^64 |
| `RootWalk.StreamPositions` | evaluation/finalv5oracle/outcome.go:148-161 | the loop with its 64-bit addition visits the walk positions |
| `RootWalk.WalkIsInjective` | evaluation/finalv5oracle/outcome.go:148-161 | the first K positions for K up to the root are in range and pairwise distinct |
| `RootWalk.StepExactly` | evaluation/finalv5oracle/outcome.go:158-158 | for every position, step and root one step is right exactly when its own sum does not overflow |
| `RootWalk.WalkExactly` | evaluation/finalv5oracle/outcome.go:148-161 | for every int64 start, step and root the walk is the ideal one exactly when none of its additions overflows |
| `RootWalk.WalkSafeExactly` | evaluation/finalv5oracle/outcome.go:158-158 | a root is safe for every start and every coprime step exactly when it is at most 2^62 |
| `OpaqueOutcome.OverlapPositions` | evaluation/finalv5oracle/outcome.go:148-184 | start and seed step are the first two words, modulo the root, of the hash of domain, seed and sample; up to a root of 2^62 position i is start + i * step modulo the root, all distinct |
| `OpaqueOutcome.SeededWalkUnique` | evaluation/finalv5oracle/outcome.go:148-184 | a request determines its overlap positions |
| `OpaqueOutcome.ValidRequestExactly` | evaluation/finalv5oracle/outcome.go:49-53 | a request is valid exactly when its sample counts from one and two sets of the requested sizes exist |
| `OpaqueOutcome.MemberPreimageInjective` | evaluation/finalv5oracle/outcome.go:130-146 | member preimages are equal exactly for the same kind, seed, sample and index |
| `OpaqueOutcome.MemberPreimageReads` | evaluation/finalv5oracle/outcome.go:138-146 | a preimage reads back as the domain, the framed kind and the words seed, sample and index |
| `OpaqueOutcome.StreamsRead` | evaluation/finalv5oracle/outcome.go:54-88 | members are the hashes of their names: root members by their index, novel members by seed, sample and index, overlap members by the positions of the walk |
| `OpaqueOutcome.OutcomeAlgebraIsExact` | evaluation/finalv5oracle/outcome.go:48-128 | without a collision the five summaries are the exact set algebra with the requested cardinalities, the union having R + C - K members |
| `OpaqueOutcome.GenerateOpaqueOutcomeSets` | evaluation/finalv5oracle/outcome.go:48-128 | each error exactly for its cause, the overlap is the seeded walk, the shared-summary shortcut gives the same report, the algebra check fires exactly when members of a stream coincide, and without a collision it never does |
| `Ordinals.OrdinalInjective` | evaluation/v4distribution/distribution.go:363-380 | in all three modes of a valid configuration different indexes give different uint32 ordinals |
| `Ordinals.ValidExactly` | evaluation/v4distribution/distribution.go:70-96 | the check that clusters are disjoint never decides: valid are exactly the configurations within the plain bounds |
| `Ordinals.DenseIsInterval` | evaluation/v4distribution/distribution.go:363-366 | dense ordinals are the interval from zero |
| `Ordinals.ClustersStart` | evaluation/v4distribution/distribution.go:367-372 | clusters start a full stride apart, clear of the end of uint32 |
| `Ordinals.ClustersContinue` | evaluation/v4distribution/distribution.go:367-372 | a round later the same cluster continues with the next ordinal |
| `Ordinals.SparseAdvances` | evaluation/v4distribution/distribution.go:373-376 | sparse ordinals start at the seed and advance by the multiplier modulo 2^32 |
| `Ordinals.BuildSets` | evaluation/v4distribution/distribution.go:256-278 | the builder loop gives an effect of C ordinals and a prior of `overlap` of them |
| `Ordinals.RunCell` | evaluation/v4distribution/distribution.go:252-318 | effect and prior are the ordinals of all and of the first target percent of the indexes, novelty is the rest, the replay delta is empty, and the cardinality invariant never fails |
| `Ordinals.RunMatrix` | evaluation/v4distribution/distribution.go:180-206 | refused exactly for an invalid configuration, otherwise one such cell for each mode and target |
| `Schedule.Distribute` | evaluation/finalv5oracle/schedule.go:52-73 | exactly the lowest ranked (score, index) samples get the extra unit |
| `Schedule.RanksAreNumeric` | evaluation/finalv5oracle/schedule.go:63-69 | the rank order is that of the numbers the scores spell, then of the index |
| `Schedule.SharesSum` | evaluation/finalv5oracle/schedule.go:52-81 | for any nonempty list of scores and any total the shares sum exactly to that total |
| `Schedule.SharesAreFair` | evaluation/finalv5oracle/schedule.go:37-87 | for any scores the shares sum to the target, differ by at most one, never exceed the candidate size, and a sample with a larger share ranks before one with a smaller |
| `Schedule.BuildCell` | evaluation/finalv5oracle/schedule.go:46-87 | for any cardinality and percentage the guards refuse exactly an inexact target and a share above the candidate size |
| `Schedule.BuildOutcomeOverlapSchedule` | evaluation/finalv5oracle/schedule.go:37-87 | fails exactly on a cardinality or percentage not admitted, never on the two guards, and returns the schedule of the ranked shares, which sum to the target |
| `Schedule.ValidateOutcomeOverlapSchedule` | evaluation/finalv5oracle/schedule.go:91-111 | accepts a schedule exactly when it equals the rebuilt one |
| `Schedule.DigestBindsSchedule` | evaluation/finalv5oracle/schedule.go:130-145 | without a collision two schedules share a digest exactly when they agree in every other field |
| `Dependency.ComposeCanonicalKey` | evaluation/finalv5oracle/facts.go:313-325 | hashes domain, count and framed values |
| `Dependency.BuildRowFacts` | evaluation/finalv5oracle/dependency.go:230-270 | every row of the dataset yields its five facts, for any check of the SQL types the generator does not use; only a row outside the dataset fails |
| `Dependency.RowAccepted` | evaluation/finalv5oracle/dependency.go:230-270 | every value the generator writes passes the builder's own guards, the value check among them |
| `Dependency.MetricAgrees` | evaluation/finalv5oracle/dataset.go:311-315 | in every row the dataset's decimal and the metric fact's reduced fraction denote the same number |
| `Dependency.StreamExposureScaleFacts` | evaluation/finalv5oracle/dependency.go:198-215 | fails exactly on a range that is not row aligned or not inside the dataset; otherwise emits the members of the range in order |
| `Dependency.MemberInjective` | evaluation/finalv5oracle/dependency.go:217-270 | without a collision different fact indexes name different members |
| `Dependency.RangeAlgebra` | evaluation/finalv5oracle/dependency.go:130-185 | overlapping ranges overlap, differ and join as their members do |
| `Dependency.SwitchOnOverlap` | evaluation/finalv5oracle/dependency.go:130-185 | the three cases of the switch describe the same five sets |
| `Dependency.GenerateExposureScaleDependency` | evaluation/finalv5oracle/dependency.go:84-193 | for every request the result is an error with its cause or the report for candidate (0, n] and history (n-k, 2n-k] |
| `Dependency.GeneratorSucceeds` | evaluation/finalv5oracle/dependency.go:187-192 | without a collision the generator succeeds, its cardinalities are n, n, k, n-k and 2n-k, and its identities are those EvaluateSetAlgebra computes from the member lists |
| `Dependency.ReportCounts` | evaluation/finalv5oracle/dependency.go:99-107 | five facts are one row, and the formal scales are the three published row counts |
| `Dependency.CaseStatsClosedForm` | evaluation/finalv5oracle/dependency.go:108-125 | emissions are 4n, n or 5n-k, the spill runs are those of the ranges summarised, and the peaks are those of the union |
| `TraceUnion.Evaluate` | evaluation/finalv5oracle/oracle.go:56-75 | fails exactly on an empty or malformed trace; otherwise the dimensions describe the unions |
| `TraceUnion.EvaluatePrefixes` | evaluation/finalv5oracle/oracle.go:39-54 | the union of every prefix |
| `TraceUnion.DimensionDeterminesSet` | evaluation/finalv5oracle/oracle.go:77-95 | the committed bytes determine the set |
| `TraceUnion.ExposedGrows` | evaluation/finalv5oracle/oracle.go:39-75 | prefix unions are monotone |
| `TraceUnion.BudgetExactly` | evaluation/finalv5oracle/oracle.go:77-95 | from two facts on the budget is 70% rounded down, one fact has the budget one, and none has zero; it is strictly below the cardinality exactly from two on |
| `BoundedStop.ComputeBoundedStop` | evaluation/finalv5rls/corpus.go:388-430 | the reported query is the first at which a dimension reveals more than 70% of the whole, and only one does; every error exactly for its cause, differing budgets exactly when the unions have not 10 or 11, 18, and 26 or 27 facts; the final "never crosses" return cannot be reached |
| `BoundedStop.ExceedsExactly` | evaluation/finalv5rls/corpus.go:404-415 | from two facts on, exceeding the budget is revealing more than 70% of the whole trace |
| `BoundedStop.BudgetsMatchExactly` | evaluation/finalv5rls/corpus.go:396-399 | the frozen budgets 7, 12 and 18 are those of unions of 10 or 11, 18, and 26 or 27 facts |
| `BoundedStop.StaysExceeded` | evaluation/finalv5rls/corpus.go:404-421 | every later prefix still exceeds the crossed budget |
| `Novelty.FactLedger.AddNovelFacts` | evaluation/exposure/model.go:698-712 | the charge is the growth of the ledger, nothing recorded is replaced, a replay charges zero |
| `Novelty.FactLedger.ChargeTrace` | evaluation/exposure/model.go:698-712 | charges over a trace total the cardinality of its union |
| `Novelty.ChargeIgnoresOrder` | evaluation/exposure/model.go:698-712 | order and repetition of the observations do not matter |
| `Novelty.PagesSucceed` | evaluation/exposureoracle/oracle.go:438-447 | when a row can fail to project, covering pages all succeed exactly when the full projection does |
| `Novelty.PagesChargeOnce` | evaluation/exposureoracle/oracle.go:438-447 | pages that cover all rows, overlapping or not, charge what the full projection charges |
| `Novelty.ChargeIsUnion` | evaluation/finalv5oracle/oracle.go:56-75 | the charge of a trace is the cardinality Evaluate reports |
| `Grouping.GroupRows` | evaluation/exposureoracle/oracle.go:239-251 | the map holds, per canonical department, exactly its rows in order |
| `Grouping.GroupRowsAndValues` | evaluation/exposureoracle/oracle.go:239-251 | the same loop, which also keeps for each group a department whose canonical form is the key |
| `Grouping.ExactlyOneGroup` | evaluation/exposureoracle/oracle.go:239-251 | every row falls in exactly one group |
| `GroupedRelease.SameGroupExactly` | evaluation/exposureoracle/oracle.go:239-251 | rows can be grouped exactly when each department is missing or a text, and share a group exactly when both are missing or both are the same text |
| `GroupedRelease.CanonicalValueAccepted` | evaluation/exposureoracle/oracle.go:572-611 | judged by the fact validator's rules, missing cells and texts always pass, a bigint passes exactly if its text is a canonical integer in range, a numeric if its number prints as a canonical rational |
| `Grouping.GroupingConserves` | evaluation/exposureoracle/oracle.go:239-292 | any per-row quantity summed group by group, in any order of the groups, is its sum over the rows |
| `Grouping.CountsAndSumsConserved` | evaluation/exposureoracle/oracle.go:239-292 | group counts sum to the row count and group sums to the global sum |
| `Grouping.SumRows` | evaluation/exposureoracle/oracle.go:613-626 | the text of the exact sum of the amounts that parse |
| `Grouping.WitnessCommitment` | evaluation/exposureoracle/oracle.go:485-503 | commits to the ascending hashes with their counts, or to "empty" |
| `Grouping.WitnessBindsMultiset` | evaluation/exposureoracle/oracle.go:485-503 | without a collision two commitments are equal exactly for equal multisets of facts |
| `Grouping.GroupSumCount` | evaluation/exposureoracle/oracle.go:239-292 | fails exactly on an unusable row or sum; otherwise the observation does not depend on the map's enumeration order |
| `GroupedRelease.CountReleased` | evaluation/exposureoracle/oracle.go:283-289 | if output row keys do not collide, the release holds exactly one count for each group, and its text spells the number of the group's rows |
| `GroupedRelease.ReleasedCountsSum` | evaluation/exposureoracle/oracle.go:252-290 | in any order of the groups the released counts sum to the number of rows |
| `GroupedRelease.GroupAndSumReleased` | evaluation/exposureoracle/oracle.go:275-282 | besides its count a group releases exactly its canonical department and the printed total of its amounts; the three commit to the group's departments, amounts and rows |
| `GroupedRelease.InfluenceExactly` | evaluation/exposureoracle/oracle.go:259-274 | influence is exactly the existence, the department and the amount of every row |
| `HiddenKey.GroupHiddenKeySum` | evaluation/exposureoracle/oracle.go:294-331 | the query that hides the group key, with its own loops: fails exactly on an unusable row or sum; otherwise the observation does not depend on the map's enumeration order |
| `Grouping.InfluenceByGroups` | evaluation/exposureoracle/oracle.go:253-290 | whatever the order of the groups, influence is exactly the rows' facts |
| `HiddenKey.SameSumFact` | evaluation/exposureoracle/oracle.go:253-331 | in every group the one fact the hidden query derives is the only sum fact of the full query: row key, sum and witness commitment agree |
| `HiddenKey.HiddenKeyReleasesLess` | evaluation/exposureoracle/oracle.go:239-331 | the two functions accept the same sources, with the same influence set, and the hidden query releases exactly the sum facts of the full query's release |
| `Sidecar.SidecarCopySource.Next` | cmd/snapshot-sidecar-install/main.go:522-579 | each call yields the copy of the dense row it read, handle, entity key and key values, or ends for good, with or without an error |
| `Sidecar.CompletesExactly` | cmd/snapshot-sidecar-install/main.go:522-579 | it finishes without error exactly when the lines up to the first footer are headers, then dense rows, then a footer whose count is both counts |
| `Sidecar.Drain` | cmd/snapshot-sidecar-install/main.go:522-579 | on success exactly the file's rows are copied, with the handles 1, 2, 3, ...; on failure the dense rows read before the error |
| `PeakMaximum.EveryRunKeepsInv` | evaluation/v4distribution/distribution.go:588-594 | under every interleaving the shared maximum only grows, is the initial or a submitted value, and is at least v once storeMaximum(v) has returned |
| `PeakMaximum.FinalValueIsMaximum` | evaluation/v4distribution/distribution.go:588-594 | when all calls have returned the shared value is the maximum |
| `PeakMaximum.EveryScheduleEnds` | evaluation/v4distribution/distribution.go:588-594 | however the scheduler chooses, n calls take at most 3 n^2 + 4 n atomic steps |

## Left out

- SHA-256 itself, spill files, buffered readers and their I/O errors: a hash is a parameter, a spill run is a sequence, and a stream that fails with an error of its own is not modelled.
- Values of floating point, date, timestamp and UUID types in `validateOracleCanonicalValue`: `SqlValues` states the other types, and these are its parameter `other`.
- `NormalizeSQLType`, `NormalizeResultSchema` and `NormalizeTypedValue` for dates, timestamps and booleans: the result hashers start from normalised columns and typed values.
- The canonical spelling of declared SQL types in the relational oracle: `Grouping.Source` holds it already normalised. JSON fact keys are the facts themselves, and big.Rat is a parser and a printer.
- Error texts: an error is a constructor or `None`; which of several invalid atoms or rows is named first is not modelled in `OutcomeVector` and `Grouping`.
- Joins, selections, global aggregates, DISTINCT unions and the order-boundary page of the relational oracle: each adds facts row by row without a grouping.
- Fixed fixtures such as the step list of the RLS corpus and its policy texts: finite data; `BoundedStop` takes any trace.
- Roaring bitmaps, latency percentiles, heap sampling goroutines and report digests of the distribution benchmark: bitmaps are sets, and only the shared maximum of the samplers is modelled.
- Parquet decoding, dataset materialisation, transactions, role checks and HTTP handlers.
- Printers.ArtifactDecimal: does not cover scales above 18, where the power overflows and, from 64 on, the division is by zero; the callers' scales are 2 and 4.
