# Release Sentinel: verified models of the deterministic kernels

Release Sentinel decides whether a release may go out, and lets language-model agents take part
without giving them any authority. This project models the parts of it that carry that claim and
proves what they promise: the counterexample minimizer, the statistics of the Coverage Arena, the
hashing and repair of repository trees, the traversal and the checker of `agentseal`, the schema
inliner, the fleet planner, and three protocols (evidence bundle to Gatekeeper, gate snapshot to
oracle result, propose to rebuild to reverify).

`dafny verify dfyconfig.toml` checks everything.

## How it is modelled

| module | what it models |
|---|---|
| `Minimizer` | bounded ddmin over lines; the closure state is the class `Search` |
| `Holm`, `FamilyWise`, `McNemar`, `Wilson`, `Counting` | the statistics of `assessment.py`, and the family-wise error of the correction |
| `Arena`, `ReferenceComparison` | the measurement loop, and the comparison of three policy revisions |
| `Targets` | `_targets` over a finite heap that may be cyclic, drained and lazy |
| `Bytes`, `Hex`, `Framing`, `Canonical`, `Paths` | encodings, the two tree hashes, path normalisation |
| `FileTrees` | directory trees by component paths, and what an operation at one place does to the others |
| `Repair`, `Materialize`, `Coordinator` | validating, applying and re-evaluating a proposed repair |
| `Evidence`, `Attestation`, `Gatekeeper` | findings and judge, evidence bundle, the Go verifier and verdict |
| `ReleaseProtocol`, `CoverageProtocol`, `RemediationAdapter` | the protocols, over whole runs |
| `SchemaInliner`, `SchemaMeaning` | inlining of local JSON Schema references, and that it keeps the meaning |
| `Checker` | the differential checker and its certificate |
| `Fleet` | the round-robin planner |
| `Sorting`, `Sets`, `Wrappers` | shared definitions |

Assumptions, all of them parameters or stated in the contracts:

- SHA-256, canonical JSON and the two bundle encoders are arbitrary functions. Where a result needs
  them to be injective, the conclusion says "or these two values collide" instead of assuming it, and
  tells a collision of the hash from two bundles that the encoders write alike.
  Only the digest length (32 bytes) is assumed, where hexadecimal digests are checked.
  `CoverageProtocol` lets a payload stand for its canonical bytes.
- Signatures are symbolic: a value signed under a secret exists only if its holder signed it. Everything
  else about a message is up to whoever composes it.
- Floats are reals, and `math.sqrt` is any function that gives nonnegative square roots.
- The clock of the minimizer is an arbitrary nondecreasing sequence, read once per check. The escape
  predicate, the candidates, the gate and the oracle are arbitrary pure functions. A run of the
  pipeline under `agentseal` may do anything at every attempt.

Where code and documentation differ the model follows the code:

- The variant "Clear every mutable container it can reach" does not: the traversal is lazy, so what
  only a cleared container refers to is never reached (`Targets.ErasedExactlyWhen`,
  `Targets.EraseMissesNestedList`).
- The comment in the checker speaks of an error only "if every run errors", but an error of one attempt
  stays although a later attempt is clean (`Checker.ErrorIsSticky`).
- `inline_json_schema` promises a self-contained schema. A null `$ref`, or a `$defs` beside a `$ref`,
  stays in it (`SchemaInliner.NullRefSurvives`, `SchemaInliner.SiblingDefsSurvive`; the exact condition is
  `SchemaInliner.CleanExactlyWhen`).
- `materialize_repair` says it works "without mutating the original". It alters nothing that exists, but a
  destination inside the source is accepted, and the source tree then gains files: exactly the trees
  whose root is above the destination change (`Materialize.MaterializeRepair`, `Materialize.RepoOutChangesRepo`,
  `Materialize.InsideIsAccepted`).
- Keywords beside a `$ref` are merged over the definition, although both should apply. The meaning is
  kept if no assertion of either side gains, loses or exchanges a keyword it depends on, and for plain
  keywords exactly then, taken over everything the keywords might assert
  (`SchemaMeaning.MeaningPreserved`, `SchemaMeaning.SiblingsExactlyWhen`; `SchemaMeaning.SiblingOpensUp`
  is a case that fails under the standard vocabulary). A property called `$defs` is dropped
  (`SchemaMeaning.NamesStayExactlyWhen`).
- A "minimal" counterexample of one line need not be minimal: the empty source is never tried
  (`Minimizer.MinimalExactlyWhen`, `Minimizer.OneLineIsKept`; over all sources the label is right exactly
  if not both the empty source and some one-line source escape, `Minimizer.LabelIsRightExactlyWhen`).
- The NUL-delimited tree hash does not bind names and bytes together: which trees it can be mistaken for
  another is stated exactly (`Canonical.UnmistakableExactlyWhen`).
- The Gatekeeper's encoder is meant to match Python's. The round trip holds exactly when the two agree
  on the bundle at hand (`Gatekeeper.HonestRoundTrip`).

## Model

| member | source | states |
|---|---|---|
| `Minimizer.FirstLine` | src/release_sentinel/coverage/minimizer.py:67 | the first piece of `splitlines(keepends=True)` is one line, ended by a break unless the text ends, and no CR LF is torn apart |
| `Minimizer.JoinSplitLines` | src/release_sentinel/coverage/minimizer.py:67-104 | joining the lines gives the source back |
| `Minimizer.SplitLinesAreLines` | src/release_sentinel/coverage/minimizer.py:67 | splitting yields lines only |
| `Minimizer.BreaksAre` | src/release_sentinel/coverage/minimizer.py:67 | the ten characters at which `str.splitlines` ends a line |
| `Minimizer.DropMeaning` | src/release_sentinel/coverage/minimizer.py:82 | the lines before the removed chunk stay, those after it move up |
| `Minimizer.Search.constructor` | src/release_sentinel/coverage/minimizer.py:49-50 | no evaluations yet, one clock reading |
| `Minimizer.Search.WithinBudget` | src/release_sentinel/coverage/minimizer.py:52-53 | answers whether evaluations and time are left, and reads the clock only if evaluations are |
| `Minimizer.Search.Evaluate` | src/release_sentinel/coverage/minimizer.py:55-60 | true exactly if the budget allows it and the candidate escapes; counts only evaluations made |
| `Minimizer.ChunkMeaning` | src/release_sentinel/coverage/minimizer.py:76 | a chunk is the least size of which n cover all lines: (c - 1) n < len <= c n |
| `Minimizer.ChunkCount` | src/release_sentinel/coverage/minimizer.py:78 | a pass tries at most n chunks |
| `Minimizer.TryChunks` | src/release_sentinel/coverage/minimizer.py:77-89 | a pass removes the first chunk that keeps the escape, after one evaluation for each before it; or no chunk can be removed; or a budget check failed |
| `Minimizer.Iterate` | src/release_sentinel/coverage/minimizer.py:73-96 | one round keeps the search invariant, and removes the first removable chunk with granularity max(2, n - 1), or none with min(lines, 2 n); it finishes at single lines |
| `Minimizer.Reduce` | src/release_sentinel/coverage/minimizer.py:72-96 | the loop terminates; completed with budget left means one-minimal |
| `Minimizer.SuccessfulPass` | src/release_sentinel/coverage/minimizer.py:85-93 | a successful pass and everything after it fit into the bound for the longer source |
| `Minimizer.FailedPass` | src/release_sentinel/coverage/minimizer.py:94-96 | a failed pass and everything after it at the doubled granularity fit into the bound |
| `Minimizer.LimitClosedForm` | src/release_sentinel/coverage/minimizer.py:67-98 | the bound is 1 + 3 L (L + 1) / 2 evaluations for L lines |
| `Minimizer.MinimizeLines` | src/release_sentinel/coverage/minimizer.py:36-111 | both errors exactly when they are due; otherwise an escaping subsequence of the source's lines, within the budget and the quadratic bound; "minimal" means no single line can go; a larger budget and an unexpired clock always end "minimal" |
| `Minimizer.MinimalExactlyWhen` | src/release_sentinel/coverage/minimizer.py:72-103 | "minimal" is minimal unless one line is left and the empty source escapes |
| `Minimizer.LabelIsRightExactlyWhen` | src/release_sentinel/coverage/minimizer.py:72-103 | over all sources and outcomes, the label is right for a predicate exactly if not both the empty source and some one-line text escape |
| `Minimizer.OneLineIsKept` | src/release_sentinel/coverage/minimizer.py:72 | a one-line source comes back unchanged whatever the predicate says |
| `Holm.RankMonotone` | src/release_sentinel/coverage/assessment.py:145-149 | ranks grow along the order by p-value and position |
| `Holm.RankInjective` | src/release_sentinel/coverage/assessment.py:145-149 | different hypotheses have different ranks, so the ranks are a permutation of 1..m |
| `Holm.RankedRank` | src/release_sentinel/coverage/assessment.py:145-149 | the place of an index in the sorted list is the number of values before it |
| `Holm.StepDown` | src/release_sentinel/coverage/assessment.py:147-153 | the flag reaches rank k exactly if everything up to rank k passes its own level |
| `Holm.PresentDropsNothing` | src/release_sentinel/coverage/assessment.py:161 | the final filter keeps every result in place |
| `Holm.FillResults` | src/release_sentinel/coverage/assessment.py:146-159 | every slot is filled with the correction of its own hypothesis |
| `Holm.CorrectionMeaning` | src/release_sentinel/coverage/assessment.py:145-159 | rank and level share out alpha: level * (m + 1 - rank) = alpha; rejected exactly if every value up to its own, times the number of values not smaller than it, is at most alpha |
| `Holm.HolmBonferroni` | src/release_sentinel/coverage/assessment.py:129-161 | both errors exactly when due; results in input order, each with the rank, level and decision just stated |
| `Holm.FamilyWiseCore` | src/release_sentinel/coverage/assessment.py:145-161 | if any hypothesis of a set T is rejected, some p-value of T is at most alpha / size of T |
| `Holm.Sandwich` | src/release_sentinel/coverage/assessment.py:150-151 | Bonferroni rejections are Holm rejections, and these are raw rejections |
| `Holm.TiesAgree` | src/release_sentinel/coverage/assessment.py:145-153 | equal p-values get equal decisions |
| `Holm.RejectsIffByValue` | src/release_sentinel/coverage/assessment.py:145-153 | the decision depends on the p-values only, not on positions |
| `Holm.DecisionsFollowPermutation` | src/release_sentinel/coverage/assessment.py:129-161 | permuting the p-values permutes the decisions |
| `FamilyWise.UnionBound` | src/release_sentinel/coverage/assessment.py:145-153 | some of n valid p-values is at most x with probability at most n x, however they depend on each other |
| `FamilyWise.FamilyWiseError` | src/release_sentinel/coverage/assessment.py:129-161 | if the p-value of every true hypothesis is valid, any true hypothesis is rejected with probability at most alpha |
| `McNemar.PValueIsExactTest` | src/release_sentinel/coverage/assessment.py:110-120 | the p-value is the share of all 2^d directions of d discordant pairs at least as lopsided as observed |
| `McNemar.CapIffEqualCounts` | src/release_sentinel/coverage/assessment.py:119-120 | the cap at 1 takes effect exactly for equal counts |
| `McNemar.ExtremeIsBothTails` | src/release_sentinel/coverage/assessment.py:119 | the outcomes as lopsided as observed are the two binomial tails |
| `McNemar.PValueRange` | src/release_sentinel/coverage/assessment.py:116-120 | the p-value is in (0, 1], and 1 exactly if the counts differ by at most one |
| `McNemar.PValueMonotone` | src/release_sentinel/coverage/assessment.py:119-120 | for fixed d more imbalance never raises it |
| `McNemar.PValueSymmetric` | src/release_sentinel/coverage/assessment.py:113-120 | swapping the counts leaves it alone |
| `McNemar.CountsMeaning` | src/release_sentinel/coverage/assessment.py:113-115 | net and total of the two counts are net and total change between the maps |
| `McNemar.ComparisonMeaning` | src/release_sentinel/coverage/assessment.py:102-127 | succeeds exactly on equal id sets; the counts are the ids only one map flags, and the p-value is the share of all directions of the changed ids at least as lopsided; swapping the maps swaps the counts |
| `Wilson.WilsonIsScoreInterval` | src/release_sentinel/coverage/assessment.py:88-98 | for every z the clamps change nothing, the observed rate lies between the endpoints (reversed for a negative z), and they are the solutions of the score equation |
| `Wilson.WilsonErrors` | src/release_sentinel/coverage/assessment.py:88-93 | raises exactly unless 0 <= successes <= total, and gives nothing exactly for no observations |
| `Wilson.EndpointsAreTheRoots` | src/release_sentinel/coverage/assessment.py:94-98 | the score equation holds at the two endpoints and nowhere else |
| `Wilson.WilsonMirror` | src/release_sentinel/coverage/assessment.py:88-98 | counting failures mirrors the interval at one half |
| `Wilson.WilsonMonotone` | src/release_sentinel/coverage/assessment.py:88-98 | more successes never lower an endpoint |
| `Counting.ConfirmedSplits` | src/release_sentinel/coverage/assessment.py:68-85 | the safe population is accepts plus overblocks, the unsafe one blocks plus escapes |
| `Counting.ClassesMeaning` | src/release_sentinel/coverage/assessment.py:68-85 | each class in terms of validity, gate decision and oracle verdict, and which observations have none |
| `Counting.TotalIsConserved` | src/release_sentinel/coverage/assessment.py:33-39 | the total is the number of observations |
| `Counting.AggregateObservations` | src/release_sentinel/coverage/assessment.py:164-186 | raises exactly on a valid observation with a result missing or a conditional decision, with the error of the first; escapes are the valid observations with GO and UNSAFE, and so on for every counter |
| `Counting.RatesAreDefined` | src/release_sentinel/coverage/assessment.py:41-65 | every reported numerator is at most its denominator, so no interval raises |
| `Counting.RateLiesInInterval` | src/release_sentinel/coverage/assessment.py:41-49 | a rate names its two counts, is missing exactly for an empty population, is their quotient otherwise, and lies in its interval |
| `Arena.MeasureCandidate` | src/release_sentinel/coverage/runner.py:155-214 | refused exactly for a conditional decision or a foreign qualification; otherwise a record of what gate and oracle said, classified by the two, with evidence that carries every answer and verifies |
| `Arena.LoadedStep` | src/release_sentinel/coverage/runner.py:148-154 | candidates that load stay in order, the others drop out |
| `Arena.TallyMeaning` | src/release_sentinel/coverage/runner.py:198-217 | a run's counters are the candidates that load with the given decision and verdict, and those that do not load |
| `Arena.RecordsOneMore` | src/release_sentinel/coverage/runner.py:148-214 | measurements stay in the order of the candidates that load |
| `Arena.RunReferenceArena` | src/release_sentinel/coverage/runner.py:115-237 | when a run succeeds; each counter is the number of candidates with its decision and verdict, measurements are those of the loaded ones, and counting never raises |
| `ReferenceComparison.EventMapKeys` | src/release_sentinel/coverage/comparison.py:80-87 | the ids of an event map are those measured with its verdict |
| `ReferenceComparison.EventMapValue` | src/release_sentinel/coverage/comparison.py:80-87 | of several measurements of an id the last decides |
| `ReferenceComparison.EventMapCoversPopulation` | src/release_sentinel/coverage/comparison.py:80-87 | every revision's map covers the same population, which no policy changes |
| `ReferenceComparison.PairingSucceeds` | src/release_sentinel/coverage/comparison.py:88-89 | the paired comparison never raises, even with repeated ids |
| `ReferenceComparison.FlaggedAreEvents` | src/release_sentinel/coverage/comparison.py:80-87 | with unique ids the flagged ids are those of the counted events |
| `ReferenceComparison.MapsMatchCounts` | src/release_sentinel/coverage/comparison.py:80-87 | map sizes and flags agree with the counters of the same run |
| `ReferenceComparison.CollectRuns` | src/release_sentinel/coverage/comparison.py:23-39 | one run per revision, in order, or the first error |
| `ReferenceComparison.SameScope` | src/release_sentinel/coverage/comparison.py:52-57 | the scopes of the later runs equal that of the first |
| `ReferenceComparison.ComparePairs` | src/release_sentinel/coverage/comparison.py:88-105 | one row per pair, each comparing the two maps it names, with a p-value in range |
| `ReferenceComparison.AttachCorrections` | src/release_sentinel/coverage/comparison.py:107-109 | each row gets its own correction over the family, and nothing else changes |
| `ReferenceComparison.CompareAll` | src/release_sentinel/coverage/comparison.py:73-109 | row 3m + k compares pair k on metric m, corrected over all six |
| `ReferenceComparison.PlotRuns` | src/release_sentinel/coverage/comparison.py:59-71 | one point per run with its policy, counters and rates |
| `ReferenceComparison.PointMeaning` | src/release_sentinel/coverage/comparison.py:59-71 | escapes are a share of the unsafe population, overblocks one of the safe |
| `ReferenceComparison.BuildReferenceDemoPayload` | src/release_sentinel/coverage/comparison.py:21-155 | succeeds exactly if all runs do, share their scope, and scope, benchmark and policies have digests; runs, points and comparisons are then as stated, and the signed receipt verifies and names them with the hash of the common scope |
| `ReferenceComparison.RowBalances` | src/release_sentinel/coverage/comparison.py:88-105 | pairs are the confirmed population; only-from less only-to is the difference of the runs' counters |
| `ReferenceComparison.RowLabels` | src/release_sentinel/coverage/comparison.py:74-105 | rows 1 to 3 compare escapes among the unsafe, rows 4 to 6 overblocks among the safe, each for the revisions it names |
| `ReferenceComparison.ChangesTelescope` | src/release_sentinel/coverage/comparison.py:74-105 | net changes 1 to 2 and 2 to 3 add up to 1 to 3 |
| `Targets.ClosedSetHoldsReachable` | packages/agentseal/src/agentseal/hostile.py:31-47 | what is closed under references and holds the arguments holds everything reachable |
| `Targets.ChildrenAreFollowed` | packages/agentseal/src/agentseal/hostile.py:41-47 | what is followed from an object: values of a mapping, else elements of a list, tuple or set, else attributes |
| `Targets.ClearedMeaning` | packages/agentseal/src/agentseal/hostile.py:54-60 | after `clear` the traversal follows what that left of values or elements, and attributes as before |
| `Targets.ExploredAtEnd` | packages/agentseal/src/agentseal/hostile.py:35-47 | with an empty stack the objects yielded are exactly the reachable mutable ones |
| `Targets.DrainedTargets` | packages/agentseal/src/agentseal/hostile.py:31-47 | on every finite heap, cyclic or not, each reachable mutable container is yielded exactly once and nothing else |
| `Targets.Erase` | packages/agentseal/src/agentseal/hostile.py:54-60 | the lazy traversal tries exactly the containers reachable once all mutable ones are cleared, whether a `clear` raises or not; what it does not try keeps its contents |
| `Targets.ErasedExactlyWhen` | packages/agentseal/src/agentseal/hostile.py:54-60 | a container is tried exactly if a path leads to it that leaves each mutable container through what clearing it leaves |
| `Targets.EraseMissesNestedList` | packages/agentseal/src/agentseal/hostile.py:250 | a list inside a list is reachable and not cleared |
| `Bytes.ValueOfBigEndian` | src/release_sentinel/remediation/service.py:43-45 | a length that fits its prefix is read back |
| `Bytes.BigEndianOfValue` | src/release_sentinel/remediation/service.py:43-45 | every prefix is the encoding of the number it reads as |
| `Bytes.HighBytesFirst` | src/release_sentinel/remediation/service.py:43-45 | the high part of a number is written first, a single byte as itself |
| `Bytes.Utf8Injective` | src/release_sentinel/remediation/service.py:41 | different paths have different encodings |
| `Bytes.Utf8Table` | src/release_sentinel/remediation/service.py:41 | bytes, markers and payload bits of each character, as in section 3 of RFC 3629 |
| `Bytes.Utf8Concat` | src/release_sentinel/remediation/service.py:41 | characters are encoded one after the other |
| `Bytes.Utf8NulFree` | src/release_sentinel/coverage/canonical.py:36-37 | an encoded path has a NUL byte only if the path has a NUL character |
| `Bytes.TextOrder` | src/release_sentinel/remediation/service.py:31 | the order of strings is total, transitive and antisymmetric |
| `Bytes.TextLeMeaning` | src/release_sentinel/remediation/service.py:31 | a prefix comes first, otherwise the smaller character at the first difference |
| `Sorting.SortByIsStable` | src/release_sentinel/operations/attestation.py:113 | elements that tie keep their order |
| `Hex.ToHexInjective` | src/release_sentinel/remediation/service.py:47 | hex digests determine their bytes |
| `Hex.DigitTable` | src/release_sentinel/remediation/service.py:47 | the sixteen digits, in lower case |
| `Hex.ToHexDigits` | src/release_sentinel/remediation/service.py:47 | each byte is written by two digits, the high one first |
| `Hex.ValidExactlyWhen` | gatekeeper/internal/verdict/attestation.go:87 | a text is a valid digest exactly if, up to case, it is the hex text of some 32 bytes |
| `Hex.EqualFoldOfDigests` | gatekeeper/internal/verdict/attestation.go:87 | comparing a digest without regard to case compares the bytes |
| `Framing.DecodeStream` | src/release_sentinel/remediation/service.py:40-46 | a decoder inverts the length-prefixed stream |
| `Framing.StreamOfDecoded` | src/release_sentinel/remediation/service.py:40-46 | the decoder accepts framings only |
| `Framing.LengthFramingInjective` | src/release_sentinel/remediation/service.py:34-47 | equal streams come from equal trees, whatever the enumeration orders |
| `Framing.TreeStreamInjective` | src/release_sentinel/remediation/service.py:34-47 | two trees that fit the prefixes have the same stream exactly if they are equal |
| `Framing.SortedPathsOf` | src/release_sentinel/remediation/service.py:31 | sorting forgets the order of the directory walk, and lists the paths in text order |
| `Framing.SafeFiles` | src/release_sentinel/remediation/service.py:24-31 | refuses exactly trees with symlinks; otherwise all files, sorted |
| `Framing.RepositorySha256` | src/release_sentinel/remediation/service.py:34-47 | the digest is the hash of the tree's framing, independent of the walk; fails exactly on symlinks or oversized entries |
| `Canonical.ComponentOrder` | src/release_sentinel/coverage/canonical.py:31-35 | paths are ordered totally, component by component |
| `Canonical.NamesLeMeaning` | src/release_sentinel/coverage/canonical.py:31-35 | what begins another path comes first, otherwise the smaller name at the first difference |
| `Canonical.HashedMeaning` | src/release_sentinel/coverage/canonical.py:31-35 | left out is exactly what lies in a `__pycache__`, the root's own path included, or has a name before the suffix `.pyc` |
| `Canonical.ListingOf` | src/release_sentinel/coverage/canonical.py:31-35 | sorting forgets the order of the walk, and lists the paths in component order |
| `Canonical.NulRepositorySha256` | src/release_sentinel/coverage/canonical.py:26-38 | fails exactly without a directory; otherwise the digest is the hash of the NUL-delimited framing of the files that are not skipped, in component order, whatever the walk |
| `Canonical.NulFramingInjective` | src/release_sentinel/coverage/canonical.py:26-38 | for NUL-free contents the framing is uniquely decodable, in any order |
| `Canonical.NulTreeStreamInjective` | src/release_sentinel/coverage/canonical.py:26-38 | trees of NUL-free contents have the same stream exactly if they are equal |
| `Canonical.EveryTreeIsImitated` | src/release_sentinel/coverage/canonical.py:36-37 | without that, every tree of two or more files has the stream of a tree with only the file listed first |
| `Canonical.NulFramingCollides` | src/release_sentinel/coverage/canonical.py:36-37 | the two-file case, for the order in which the code lists them |
| `Canonical.UnmistakableExactlyWhen` | src/release_sentinel/coverage/canonical.py:26-38 | no other tree shares a tree's stream exactly if it is empty, or has one file whose contents do not read as the rest of one file and the whole of a later one |
| `Paths.SplitJoin` | src/release_sentinel/remediation/service.py:50-56 | joining and splitting are inverse on components |
| `Paths.KeptConcat` | src/release_sentinel/remediation/service.py:50-52 | everything but empty and "." components stays, in order and as often as it occurs |
| `Paths.PlainIsNormal` | src/release_sentinel/remediation/service.py:50-56 | a path of plain components is its own normal form |
| `Paths.NormalizeMeaning` | src/release_sentinel/remediation/service.py:50-56 | accepted exactly if it begins with no slash of either kind, names something and has no "..", each error exactly when due; the result is plain, and normalising again changes nothing |
| `Paths.ResolvePlain` | src/release_sentinel/remediation/service.py:97 | plain components never leave the directory they are joined to |
| `Paths.ResolveSteps` | src/release_sentinel/remediation/service.py:97 | ".." undoes the component before it, and the top has no parent |
| `Repair.CheckChangeMeaning` | src/release_sentinel/remediation/service.py:66-71 | accepted under its normal form exactly if that is allowed and the content has at most 256 KiB; otherwise the first of the three errors that applies |
| `Repair.ValidateChanges` | src/release_sentinel/remediation/service.py:59-73 | every error exactly when due, and of the first offending change; otherwise the collected changes |
| `Repair.CollectedMeaning` | src/release_sentinel/remediation/service.py:64-73 | exactly the accepted paths, each with the content of its last occurrence |
| `Repair.CollectedAllowed` | src/release_sentinel/remediation/service.py:66-68 | accepted paths are allowlisted, plain, and acceptable as they stand |
| `Repair.ValidationIdempotent` | src/release_sentinel/remediation/service.py:59-73 | validating validated changes in any order accepts them unchanged |
| `FileTrees.EveryFileIsNamed` | src/release_sentinel/remediation/service.py:26-41 | every file and link below a root is in its tree, under its relative name |
| `FileTrees.OutsideUnchanged` | src/release_sentinel/remediation/service.py:95-105 | what is added at a place leaves every tree alone whose root is not above it |
| `FileTrees.UnchangedExactlyWhen` | src/release_sentinel/remediation/service.py:83 | once there is a file at a new place, an existing tree is unchanged exactly if the place is not below its root |
| `Materialize.HashRoot` | src/release_sentinel/remediation/service.py:34-47 | hashes any directory without symlinks whose files fit, and only those |
| `Materialize.OverlayMeaning` | src/release_sentinel/remediation/service.py:64-105 | the repaired tree has under each path the content of its last accepted change, and the source's where there is none |
| `Materialize.NormalizeAllMeaning` | src/release_sentinel/remediation/service.py:86 | the allowlist is the set of normal forms, all of which must exist |
| `Materialize.WriteShows` | src/release_sentinel/remediation/service.py:104-105 | a written file shows under its name, and nothing else in the tree changes |
| `Materialize.WriteFile` | src/release_sentinel/remediation/service.py:97-105 | writes one file below the root, or fails exactly if its name has a NUL or it or something above it is in the way; never the escape or symlink error |
| `Materialize.WriteChanges` | src/release_sentinel/remediation/service.py:96-105 | succeeds exactly if files and changes form a tree and no change names a directory or has a NUL in its name; the root then holds the overlay; nothing outside it is touched |
| `Materialize.CopiedIsSame` | src/release_sentinel/remediation/service.py:95 | the copy is the same tree with the same directories, and nothing existing is altered |
| `Materialize.CopyTree` | src/release_sentinel/remediation/service.py:95 | copying fails exactly if something is in the way or the destination lies inside an existing subdirectory of the source |
| `Materialize.StageRepair` | src/release_sentinel/remediation/service.py:95-109 | from the copy to the hash: when it succeeds, and what the destination then holds |
| `Materialize.MaterializeRepair` | src/release_sentinel/remediation/service.py:76-109 | succeeds exactly for an acceptable repair; returns the hash of exactly the source overridden at the validated paths, which differs from it; nothing existing is altered or removed; no tree changes unless the destination is below its root, and after a success exactly those did; the staging-root and symlink errors never occur |
| `Materialize.CopyInsideChangesSource` | src/release_sentinel/remediation/service.py:83 | a destination inside the source can be copied to, and changes it |
| `Materialize.InsideIsAccepted` | src/release_sentinel/remediation/service.py:76-109 | a repair accepted at some destination is accepted at any new name inside the source |
| `Materialize.RepoOutChangesRepo` | src/release_sentinel/remediation/service.py:83 | so for "/repo" and "/repo/out" |
| `Materialize.RepoOutIsAccepted` | src/release_sentinel/remediation/service.py:76-109 | and there a whole repair is accepted, under every hash that tells the two trees apart |
| `Coordinator.Items` | src/release_sentinel/remediation/service.py:164-169 | a dictionary is handed on with exactly its items |
| `Coordinator.Propose` | src/release_sentinel/remediation/model.py:39-71 | a proposal needs a change and a base of 64 characters |
| `Coordinator.ProjectionMeaning` | src/release_sentinel/release/engine.py:27-49 | what an advisor learns of a finding, and that it may block exactly by an item of platform or policy |
| `Coordinator.ContextMeaning` | src/release_sentinel/remediation/service.py:158-162 | the remediator learns the release, the digest of the source and the projected findings |
| `Coordinator.RepairedIdMeaning` | src/release_sentinel/remediation/service.py:177 | the repaired release is named by the first 12 characters of the digest |
| `Coordinator.ProposalAccepted` | src/release_sentinel/remediation/service.py:163-175 | the second validation accepts what the first produced |
| `Coordinator.CanStage` | src/release_sentinel/remediation/service.py:171-175 | the staging directory can receive the copy exactly if the temporary directory is not inside the source |
| `Coordinator.GoodIsAccepted` | src/release_sentinel/remediation/service.py:163-175 | inside `run` a good repair is exactly one that is materialised |
| `Coordinator.Run` | src/release_sentinel/remediation/service.py:143-191 | evaluates the original and then, only for a good repair of a failing release, exactly the overlay, for the same commit; the outcome carries that evaluation and the proposal; the file system ends as it began, wherever the temporary directory was |
| `Evidence.JudgeMeaning` | src/release_sentinel/release/judge.py:7-20 | NO_GO exactly for a high or critical finding with a blocking-eligible item of PLATFORM or ORGANIZATION_POLICY, GO exactly if no finding of medium severity or more has one |
| `Evidence.AdviceHasNoInfluence` | src/release_sentinel/domain/evidence.py:60-64 | adding, dropping or changing MODEL_ADVISORY items leaves the decision and both counts alone |
| `Evidence.CountOfIsSize` | src/release_sentinel/release/judge.py:8-13 | a count is the number of places |
| `Evidence.JudgeOrderIndependent` | src/release_sentinel/release/judge.py:7-20 | the order of findings has no influence |
| `Attestation.SealOrderIndependent` | src/release_sentinel/domain/evidence.py:117-124 | permuting the findings leaves the seal unchanged |
| `Attestation.SealMeaning` | src/release_sentinel/domain/evidence.py:117-124 | the seal hashes the texts of all findings, in order |
| `Attestation.SealBinds` | src/release_sentinel/domain/evidence.py:117-124 | equal seals are seals of the same texts, or two lists are hashed alike |
| `Attestation.ResultReports` | src/release_sentinel/operations/attestation.py:113-123 | a result names its finding and severity, carries its digest, and may block exactly by an item of PLATFORM or ORGANIZATION_POLICY |
| `Attestation.AdviceLeavesResults` | src/release_sentinel/operations/attestation.py:114 | advisory items leave `blocking_eligible` alone |
| `Attestation.BuildEvidenceBundle` | src/release_sentinel/operations/attestation.py:96-136 | each error exactly when due; otherwise every field of the bundle, and one result per finding, by ascending id, each reporting on its own finding |
| `Attestation.BundleOrderIndependent` | src/release_sentinel/operations/attestation.py:113-136 | with distinct ids permuting the findings leaves the bundle unchanged |
| `Gatekeeper.ScanResults` | gatekeeper/internal/verdict/attestation.go:111-120 | accepts exactly named results with digests and without duplicates |
| `Gatekeeper.OneExplanation` | gatekeeper/internal/verdict/attestation.go:64-126 | the rejection code is determined by the request, and excludes acceptance |
| `Gatekeeper.AcceptanceMeaning` | gatekeeper/internal/verdict/attestation.go:64-126 | acceptance, condition by condition |
| `Gatekeeper.Verify` | gatekeeper/internal/verdict/attestation.go:64-126 | accepts exactly what meets all conditions; otherwise the code of the first that fails |
| `Gatekeeper.CountResults` | gatekeeper/internal/verdict/verdict.go:93-105 | the two counters count the failed, eligible results of their severities |
| `Gatekeeper.DecideVerified` | gatekeeper/internal/verdict/verdict.go:84-134 | accepted exactly if verified; then NO_GO exactly for a failed high or critical result that may block, CONDITIONAL_GO for a medium one otherwise, with the two counts; else a rejection without decision, whose code explains it |
| `Gatekeeper.VerdictIsJudgement` | gatekeeper/internal/verdict/verdict.go:93-133 | the Go verdict and counts on attested results are the Python judge's on the findings |
| `Gatekeeper.HonestRoundTrip` | src/release_sentinel/operations/attestation.py:96-148 | a signed bundle is accepted in its own context exactly for issued - 30 <= now < issued + ttl and well-formed content, and then with the judge's decision and counts |
| `ReleaseProtocol.InvariantKept` | gatekeeper/internal/verdict/attestation.go:64-126 | every attestation and every delivery keeps the protocol invariant |
| `ReleaseProtocol.InvariantHolds` | gatekeeper/internal/verdict/attestation.go:64-126 | it holds in every state of every run |
| `ReleaseProtocol.AcceptedIsBacked` | gatekeeper/internal/verdict/verdict.go:84-134 | an accepted answer whose signature matches a record is that record's judgement, or two encodings collide, or the encoders confuse two bundles |
| `ReleaseProtocol.AcceptedDecisionsAreJudgements` | gatekeeper/internal/verdict/verdict.go:84-134 | in every run each accepted decision is the judge's on the findings of a report attested before for exactly that release, source and policy, inside its validity; or two different encodings have the same digest; or the two encoders write different bundles alike |
| `ReleaseProtocol.OpinionsHaveNoInfluence` | gatekeeper/internal/verdict/verdict.go:65-134 | opinions change nothing in an answer, accepted or rejected, but the number ignored |
| `CoverageProtocol.HonestProtocol` | src/release_sentinel/coverage/protocol.py:128-252 | followed in order the protocol goes through, except for conditional decisions and oracles not qualified under their manifest |
| `CoverageProtocol.SnapshotStates` | src/release_sentinel/coverage/protocol.py:128-156 | every field the gate signs |
| `CoverageProtocol.ResultStates` | src/release_sentinel/coverage/protocol.py:215-230 | every field the oracle signs |
| `CoverageProtocol.SnapshotAcceptedExactlyWhen` | src/release_sentinel/coverage/protocol.py:158-197 | which snapshots the oracle looks at |
| `CoverageProtocol.ResultAcceptedExactlyWhen` | src/release_sentinel/coverage/protocol.py:233-252 | which results are accepted |
| `CoverageProtocol.GateEventCommits` | src/release_sentinel/coverage/protocol.py:128-182 | what the gate signs is a commitment: sequence 1, no oracle result, GO or NO_GO, its own context |
| `CoverageProtocol.OracleFollowsGate` | src/release_sentinel/coverage/protocol.py:200-230 | whenever the oracle signed, the gate had signed that snapshot before |
| `CoverageProtocol.GateBeforeOracle` | src/release_sentinel/coverage/protocol.py:233-252 | in every run a verifying pair has a snapshot the gate signed before the oracle did, in the same context, or a hash collides |
| `CoverageProtocol.ResultBindsOneSnapshot` | src/release_sentinel/coverage/protocol.py:233-252 | one result verifies against at most one snapshot and context, up to collisions |
| `RemediationAdapter.Adapter.constructor` | src/release_sentinel/webmcp/remediation_service.py:38-40 | both stores start empty |
| `RemediationAdapter.Adapter.ProposeRemediation` | src/release_sentinel/webmcp/remediation_service.py:42-90 | succeeds exactly for a known scenario with both fixtures; leads from the vulnerable fixture's digest to the fixed one's, with the scenario's fixture, proof and release; stores exactly that under the id of its digest |
| `RemediationAdapter.Adapter.RebuildCandidate` | src/release_sentinel/webmcp/remediation_service.py:92-142 | succeeds exactly with a stored proposal, its digest and an unchanged target, each error when due; stores exactly the candidate built from it |
| `RemediationAdapter.Adapter.ReverifyCandidate` | src/release_sentinel/webmcp/remediation_service.py:144-210 | succeeds exactly with a stored candidate, its source, an unchanged fixture and a verdict at hand, each error when due; answers with the fresh evaluation or the remote verdict; stores nothing |
| `RemediationAdapter.HonestSequence` | src/release_sentinel/webmcp/remediation_service.py:42-210 | in order, with what each call returned and unchanged fixtures, the three calls go through and judge the scenario's fixed fixture |
| `RemediationAdapter.RecordsAreTraceable` | src/release_sentinel/webmcp/remediation_service.py:42-142 | in every interleaving each stored record comes from an earlier successful call |
| `RemediationAdapter.CandidateProvenance` | src/release_sentinel/webmcp/remediation_service.py:92-142 | behind each stored candidate is a rebuild by id and digest and, before it, its proposal for the fixed fixture of the scenario asked for, both with the fixture as recorded |
| `RemediationAdapter.VerdictProvenance` | src/release_sentinel/webmcp/remediation_service.py:144-210 | a verdict is only returned after matching propose and rebuild calls, about the fixed fixture of the proposed scenario, for exactly the recorded source, while the fixture still has it |
| `RemediationAdapter.StoresOnlyGrow` | src/release_sentinel/webmcp/remediation_service.py:69-131 | records only accumulate and never change, as long as truncated ids distinguish the payloads of the run |
| `RemediationAdapter.CandidatesAgreeWithProposals` | src/release_sentinel/webmcp/remediation_service.py:114-131 | each candidate agrees with the proposal stored under its proposal id |
| `RemediationAdapter.RefusedCallsChangeNothing` | src/release_sentinel/webmcp/remediation_service.py:42-210 | a refused call leaves both stores alone |
| `SchemaInliner.LayeredSucceeds` | src/release_sentinel/webmcp/contracts.py:89-116 | ranked definitions are inlined within a depth equal to the rank above them |
| `SchemaInliner.RanksAreLayered` | src/release_sentinel/webmcp/contracts.py:89-116 | the definitions that inline can be put in layers by the depth they need |
| `SchemaInliner.SucceedsIffLayered` | src/release_sentinel/webmcp/contracts.py:89-121 | inlining succeeds exactly if the definitions reached can be layered |
| `SchemaInliner.AcyclicSucceeds` | src/release_sentinel/webmcp/contracts.py:89-116 | while no chain of references returns, the depth left is never less than the definitions not yet passed, so inlining ends |
| `SchemaInliner.SuccessIsAcyclic` | src/release_sentinel/webmcp/contracts.py:89-116 | success at any depth shows that every reference reached is supported and no chain returns |
| `SchemaInliner.SucceedsIffAcyclic` | src/release_sentinel/webmcp/contracts.py:89-121 | inlining succeeds at some depth exactly if the references reached are supported and acyclic, and then the number of definitions is deep enough |
| `SchemaInliner.CycleNeverEnds` | src/release_sentinel/webmcp/contracts.py:104 | a schema that reaches any cycle exhausts every depth |
| `SchemaInliner.SelfReferenceNeverEnds` | src/release_sentinel/webmcp/contracts.py:104 | the shortest cycle: a definition that is a reference to itself |
| `SchemaInliner.MoreFuelSameResult` | src/release_sentinel/webmcp/contracts.py:89-116 | the result does not depend on the depth allowed |
| `SchemaInliner.CleanButExactly` | src/release_sentinel/webmcp/contracts.py:96-116 | what stays in the result, apart from fields that siblings override |
| `SchemaInliner.CleanExactlyWhen` | src/release_sentinel/webmcp/contracts.py:89-121 | the result is free of `$ref` and `$defs` exactly unless a null `$ref` or a `$defs` beside a `$ref` shows through |
| `SchemaInliner.TidyNeverLeaks` | src/release_sentinel/webmcp/contracts.py:89-121 | so it is free of both for schemas with neither |
| `SchemaInliner.NullRefSurvives` | src/release_sentinel/webmcp/contracts.py:96-97 | a null `$ref` stays |
| `SchemaInliner.SiblingDefsSurvive` | src/release_sentinel/webmcp/contracts.py:105-110 | a `$defs` beside a `$ref` stays |
| `SchemaInliner.CleanIsUnchanged` | src/release_sentinel/webmcp/contracts.py:89-116 | schemas free of both are returned as they are, so inlining twice changes nothing |
| `SchemaInliner.RefNameMeaning` | src/release_sentinel/webmcp/contracts.py:97-101 | a reference is supported exactly if it is a text that begins with `#/$defs/`, and names what follows |
| `SchemaMeaning.MeaningKept` | src/release_sentinel/webmcp/contracts.py:89-116 | the value of a keyword, inlined, means what it meant, be it plain, a schema, a list of schemas or schemas by name |
| `SchemaMeaning.OwnPreserved` | src/release_sentinel/webmcp/contracts.py:105-116 | so do all keywords of one schema |
| `SchemaMeaning.MergedAccepts` | src/release_sentinel/webmcp/contracts.py:110 | merging compatible keywords accepts exactly what both sides accept |
| `SchemaMeaning.ReferencePreserved` | src/release_sentinel/webmcp/contracts.py:97-110 | replacing a reference by its definition, overridden by compatible siblings, accepts the same instances |
| `SchemaMeaning.MeaningPreserved` | src/release_sentinel/webmcp/contracts.py:89-116 | under every vocabulary whatever inlines accepts the same instances, with no definitions left to consult |
| `SchemaMeaning.InlinedSchemaStandsAlone` | src/release_sentinel/webmcp/contracts.py:119-121 | a whole schema: the result has neither keyword and means the same |
| `SchemaMeaning.OwnDefinitionsAreUsed` | src/release_sentinel/webmcp/contracts.py:119-121 | a definition the schema carries takes the place of the reference to it, and the definitions are gone |
| `SchemaMeaning.DisturbedKeywordIsLost` | src/release_sentinel/webmcp/contracts.py:110 | a keyword that sees something else after a merge may let through what it rejected before |
| `SchemaMeaning.FaithfulExactlyWhen` | src/release_sentinel/webmcp/contracts.py:110 | for everything the keywords might assert together, merging means asserting both exactly if no keyword gains, loses or exchanges anything it sees |
| `SchemaMeaning.SiblingsExactlyWhen` | src/release_sentinel/webmcp/contracts.py:97-110 | so a reference to plain keywords, plain keywords beside it, keeps its meaning for everything they might assert together exactly if the two sides are compatible |
| `SchemaMeaning.SiblingOpensUp` | src/release_sentinel/webmcp/contracts.py:110 | under the standard vocabulary, `additionalProperties` false beside a reference rejects an object that the merged schema accepts |
| `SchemaMeaning.NamesStayExactlyWhen` | src/release_sentinel/webmcp/contracts.py:112-116 | schemas by name keep their names exactly if none is called `$defs` |
| `Checker.CheckVariant` | packages/agentseal/src/agentseal/check.py:107-139 | the result explains the attempts up to the first decisive one; the branch for a variant that never completed cannot be reached |
| `Checker.CheckNoInfluence` | packages/agentseal/src/agentseal/check.py:90-141 | raises exactly if the baseline does; otherwise one result per variant, in order, each explained by its attempts |
| `Checker.LastErrorMeaning` | packages/agentseal/src/agentseal/check.py:123-128 | the recorded error is that of the last attempt that failed |
| `Checker.ErrorTextMeaning` | packages/agentseal/src/agentseal/check.py:118-124 | the class name, then the message |
| `Checker.StatusTells` | packages/agentseal/src/agentseal/check.py:35-43 | each status in terms of the attempts: SEALED exactly if all reproduced the baseline, the others by the first decisive attempt |
| `Checker.ErrorIsSticky` | packages/agentseal/src/agentseal/check.py:123-128 | an error followed by a clean attempt is still ERROR |
| `Checker.RepeatsOnlySharpen` | packages/agentseal/src/agentseal/check.py:113-134 | more repeats never turn a finding or an error into a seal |
| `Checker.SealedExactlyWhen` | packages/agentseal/src/agentseal/check.py:67-69 | sealed exactly if there are variants and none moved the artifact |
| `Checker.VerifyCertificate` | packages/agentseal/src/agentseal/certificate.py:92-107 | verified exactly for the known schema, a 64-character baseline and a nonempty list of supporting interventions |
| `Checker.CertificateStates` | packages/agentseal/src/agentseal/certificate.py:64-90 | a certificate says of each variant what the report says, by the names of the statuses |
| `Checker.CertificateIsTheSeal` | packages/agentseal/src/agentseal/certificate.py:64-107 | the certificate of a checker's report verifies exactly if the report is sealed and the baseline has 64 characters |
| `Fleet.Distribute` | src/release_sentinel/parity/fleet.py:39-41 | shards are filled round robin, and together hold exactly the inputs |
| `Fleet.InputIsAt` | src/release_sentinel/parity/fleet.py:40-41 | input i is at position i div k of shard i mod k |
| `Fleet.ShardsAreBalanced` | src/release_sentinel/parity/fleet.py:39-41 | shard sizes differ by at most one, and none is empty |
| `Fleet.SameCoverage` | src/release_sentinel/parity/fleet.py:42-44 | the coverage test fails exactly on repeated ids |
| `Fleet.PlanFleet` | src/release_sentinel/parity/fleet.py:26-45 | succeeds exactly for nonempty read-only scenarios with distinct ids within the three budgets, each refusal exactly when it is the first that applies; then a round-robin plan over the requested number of tasks, at most one per scenario, that keeps the multiset of ids |

## Left out

- HTTP, FastAPI, the A2A plumbing, telemetry, Firestore, KMS, the model agents, the command line, browser code, deploy scripts and container confinement: I/O or foreign services.
- SHA-256, ECDSA, HMAC, base64 and the byte-level JSON of Python and Go, which escape some characters differently; Go's 64-bit integers and its passage of numbers through floats.
- The oracles, their vectors, the benchmark corpora and AST checks, `exec` of candidates, and the receipts: a candidate loads or not and is then judged by an arbitrary function.
- IEEE rounding and overflow for very many discordant pairs.
- Minimizer.MinimizeLines: the predicate is a pure function and an exception it raises is not modelled.
- Minimizer.FailedPass: bounds a failed pass below the finest granularity only; the last pass is part of the potential itself.
- Targets.Erase: a `clear` that puts references into the container or changes other objects, as `UserDict.clear` empties its `data` dictionary, and iteration that runs user code; the variants that depend on threads and timing.
- Canonical.NulRepositorySha256: takes the files for which `is_file()` holds as given, symlinks to files included.
- Materialize.MaterializeRepair: overlong names (also in `WriteFile` and `WriteChanges`), permissions, special files, text-encoding failures and changes made by others during the call; source and destination are given as resolved paths. What an endless copy leaves behind is arbitrary.
- Repair.ValidateChanges: keys and contents are text already, so `str(...)` does nothing.
- Coordinator.Run: exceptions of the evaluator or the remediator; which error a bad repair raises.
- ReferenceComparison.BuildReferenceDemoPayload: the constant labels, and the checks of `CoverageScope` on the scope of a single run.
- Attestation.BuildEvidenceBundle: the policy fields of single evidence items, which only enter the opaque text of a finding.
- Gatekeeper.Verify: an error of the Go JSON encoder, which cannot occur for these values; a signature is either the key holder's or verifies under no key.
- RemediationAdapter.Adapter.ReverifyCandidate: constant reply fields and labels, and failures while building or signing the bundle in judged mode.
- SchemaInliner.SucceedsIffAcyclic: which of several errors is raised first, and Python's own recursion limit, which is the depth parameter. Numbers in schemas are integers.
- SchemaMeaning.MeaningPreserved: among schemas by name none is called `$defs`, the values of plain assertions hold neither `$ref` nor `$defs`, and siblings of a reference are compatible with its definition. Keywords that depend on annotations of subschemas (`unevaluatedProperties`, `unevaluatedItems`), `$id` and `$dynamicRef` are not modelled; a reference names its definition literally, without the escapes of JSON Pointer.
- Checker.CheckNoInfluence: the fingerprint function, and exceptions that are not subclasses of Exception.
- Arena.RunReferenceArena: the contents of contexts, receipts and revision strings are functions of the candidate and the revision; only that they are passed on matters here.
- Fleet.PlanFleet: `upper` is a parameter.
- Agent registry, memory summaries, prompts, catalogs and constant authority strings: one reading settles them.
