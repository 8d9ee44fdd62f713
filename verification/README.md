# Verified model of Tango's target-graph comparison

Tango compares the build-target graphs of two revisions. Most of its hard code
comes as a fast form beside a simple one: the index-space comparison of encoded
graphs beside the label-keyed reference, the incremental hash update beside a
full computation, lazy column readers beside a bulk decoder. This project models
both forms of each and proves that they agree, or exactly when they do.

`dafny verify dfyconfig.toml` checks everything.

## What is proved

- **Comparison.** The phases of `compareInternal`: alignment by block digest,
  hash bisection, seed classification on node indices, the reverse CSR and the
  breadth-first search over a bitset (`DigestAlign`, `Align`, `HashDiff`,
  `ChangeScan`, `SeedScan`, `ReverseCsr`, `FastSearch`, `TgbDiff`), against the
  reference `targetdiff.Compare` (`TargetDiff`, `Distance`) over the graph read
  back from each file (`Snapshot`); `CompareColumns` reads the report off the
  columns themselves. `Refinement` joins the two, `Shadow` takes
  the theorem to the response, `EndToEnd` to two hashed and encoded revisions, of
  which `StoredExample` gives a pair, and `FileCompare` to the bytes of their files.
- **Incremental update.** `OptimizedGraph` is a class whose methods update the
  graph in place (`ItgGraph`, `ItgHashing`, `ItgBatch`, `ItgOptimize`). Its state
  has a named content (`ItgContent`), and every step keeps reverse dependencies,
  tables and hashes right (`ItgState`, `ItgUpdate`, `ItgRoots`), so a graph
  updated by any number of batches has the hashes of one built from scratch
  (`Recompute` does both, `RecomputeExample` on a map with a rule, a source and a
  generated file). `ItgOutcome` says what a batch leaves of the content.
- **Hashing.** The recursive hasher, the topological listing and the sweep over
  rootless cycles (`FullHasher`, `Toposort`, `FullGraph`), the canonical rule
  encoding (`Framing`, `RuleEncoding`) and the Merkle closure on which equal
  distances rest (`Merkle`, `HashAgreement`, `MerkleClosure`). `Affected` says
  what a changed hash means: something that the target depends on, or the target
  itself, is new or different.
- **File format.** Everything between a target graph and its bytes and back:
  numbers, dictionaries, columns, shards, blocks, directory, file, encoder and
  decoder (`Varint` to `GraphRoundTrip`), and what an encoded graph and its file
  guarantee to the comparison (`EncodedSnapshot`, `FileSnapshot`).
- **Smaller pieces.** The greedy message splitter over protobuf sizes and the
  merging of its stream (`Wire`, `Splitting`, `Streaming`, `MergedStream`), the
  merge sort (`MergeSort`) and the worker pool as interleaved steps
  (`WorkerPool`, `RepoManager`).

## Reading the model

Loops over a Go map pick their next key nondeterministically, so their contracts
hold for every order. Goroutines over shards write disjoint parts and are
modelled as whole steps in any order. Strings are sequences of bytes, `int32`
and `uint64` wrap where Go's do, and an error is an absent result without its
text. A method carries the source's loop; its contract equates its result with a
specification function, and the lemmas about that function say what the result
means. `Good` is the invariant of the incremental graph, `Encodes` relates a
graph to its columns, `Hash` is the Merkle hash and `FullHash` the same with the
order of an acyclic graph left implicit.

What the theorems assume, each a named predicate in their `requires`:

- `Lossless`: decompressing what was compressed, at its length, gives it back,
  and no column compresses to nothing. Compression, checksum and block digest are
  otherwise arbitrary functions.
- `DigestsDistinguish` (and `DigestsHonest` on snapshots): block digests do not
  collide on the blocks of the two graphs at hand.
- `NoCollisions`, in `Comparable`: the hash does not collide on what the two
  revisions feed it, hashes have 20 bytes, and no leaf's hash is a rule's.
- `LabelsApart`: no two labels split into the same package and name, and none
  joins to the empty label. `PlainLabel`, for the end-to-end theorem: not empty,
  no NUL, the last colon not first.
- `BlocksAgree`: a side without blocks has no nodes. Encoded graphs meet it.
- `Representable` and `Addressable`: counts fit 32 bits and lengths fit Go's
  slices. Budgets and limits of the reader (`WithinLimits`, `DictsFit`) are not
  assumed: the round trip says that they are exactly when decoding succeeds.
- `WellNamed`: no rule has two attributes of one name. Only the statements about
  what a changed rule hash means ask for it.
- Acyclic graphs with all dependencies present, wherever hash values are stated,
  and no external rule targets in the incremental graph.

## Where the code falls short

The members named have the condition under which the code does meet the
property, or the input on which it does not.

- The two comparisons may report different distances when an unchanged target
  stands between a seed and a changed one. They agree on all distances exactly
  under `NearerDirty` (`DistancesAgreeExactly`), and always on hashed revisions
  (`HashedComparisonsAgree`); `UnchangedMiddleSplitsDistances` and
  `ReportsDisagree` have the input.
- Upserting a stored target that nothing depends on, with a type that differs in
  whether it can be a root, leaves its root mark stale: `UpsertKeepsRoots` has
  the condition, `LateRuleStaysUnmarked` the input.
- The full hasher reads the hash of a repeated rule input twice, the incremental
  one once: `NodesAgree`, `RepeatedInputIsReadTwice`.
- A label whose last colon is its first byte loses it in the file: `CanonicalIs`,
  `LeadingColonIsLost`.
- A dependency on a target with a negative number is refused while the numbers
  are dense: `ResolveIs`, `NegativeNumberIsRefused`.
- Alignment is wrong when one side has blocks and the other has nodes but none:
  `AlignSnapshots`, `MissingBlocksDisagree`.
- Two attribute IDs that stand for one name lose all but one of their values on
  decoding: `SameAttrs`, in `DecodeUndoesEncode`, has the condition and
  `AttributeIsLost` the input, on a file that decodes. A dictionary that repeats long prefixes is
  written but cannot be expanded: `DictRoundTrip`, `SharedStemIsRefused`. The
  comment at internal/tgbdiff/adapt.go:95-97 promises a decoding of exactly what
  was streamed.
- The first metadata message may exceed the limit that the comment at
  internal/streaming/streaming.go:47-49 gives every message:
  `FirstMessageWithin`, `SmallMapsOverfill`. File hashes are no part of these
  messages.
- Removing a package that the query still lists takes its targets out of their
  dependents' dependencies before they are upserted again: `EdgesAreKept`,
  `RelistedPackageLosesEdge`.
- A query's targets on a cycle that no root of the query reaches are not upserted:
  `EveryTargetIsStored`, `RootlessCycleIsDropped`.
- A generated file whose rule was removed has no dependency to take its hash
  from. A graph without cycles is up to date after a batch exactly when no such
  file is left (`UpdateGraph`); `DeletedRuleLeavesOrphan` has the input.

## Model

| member | source | states |
|---|---|---|
| TgbDiff.Compare | internal/tgbdiff/compare.go:150-483 | Fails exactly when the strides differ. Otherwise the report has, in strict label order, one entry for every new, changed or deleted label and no other; each entry has the label's change type, is a seed exactly when the reference's seed test says so, and stands at the true shortest distance from the seeds over the whole after-graph, cut at the maximum distance. |
| Refinement.FastRefinesReference | internal/tgbdiff/compare.go:150-483 | Any report of the fast comparison and any result of the reference name the same labels with the same change types and the same distance-0 seeds. Where the reference gives a distance the fast one gives one that is no larger, and under Merkle closure all distances are equal. |
| Refinement.DistancesAgreeExactly | internal/tgbdiff/compare.go:389-448 | All distances of the two comparisons are equal if and only if, by the distances of the whole after-graph, every new or changed target some way off has a seed or a new or changed dependency one step nearer: a condition on the two graphs alone. |
| SplitDistances.UnchangedMiddleSplitsDistances | internal/tgbdiff/compare.go:431-446 | Two well-formed snapshots of full hash width, aligned and with honest digests, whose graphs fail that condition: one target is at 2 through an unchanged target and at 3 where the walk stops there. |
| SplitDistances.ReportsDisagree | internal/targetdiff/compare.go:293-296 | On those snapshots every report of the fast comparison gives the target distance 2 and every result of the reference gives it 3. |
| Refinement.DistancesRefine | internal/targetdiff/compare.go:293-296 | For one label: the search confined to dirty targets gives no smaller distance than the search over the whole graph, the same one under Merkle closure, and 0 exactly for the seeds. |
| Distance.RestrictionKeepsDistances | internal/targetdiff/compare.go:293-296 | Deleting nodes from a graph keeps all shortest distances to the nodes that stay if and only if every one of them at a positive distance has, among its dependencies, a node that stays one step nearer. |
| EndToEnd.CompareRevisions | internal/tgbdiff/compare.go:150-483 | For two revisions hashed by the Merkle hasher and encoded at full hash width, the fast comparison of the two revisions' columns reports the labels, change types and distances that the reference reports of the two graphs in them, in label order. With attribute names of their own in each rule, the labels are exactly those of ReportedExactly. |
| FileCompare.CompareFiles | internal/tgbdiff/compare.go:150-483 | The same from the bytes of the two files: it fails exactly when the reader refuses one of them, and otherwise the fast comparison of what is read of the bytes reports what the reference reports of the graphs read from them. With attribute names of their own in each rule, the labels reported are exactly those of ReportedExactly. |
| FileSnapshot.FileIsSnapshot | internal/tgb/reader.go:487-528 | What the comparison reads of a written file, block starts and digests included, is what it reads of the columns, if and only if the reader accepts the file and its dictionaries. |
| EndToEnd.StoredReports | internal/tgbdiff/adapt.go:150-158 | The label-keyed graph read from an encoded revision holds the revision's labels, its full hashes in hexadecimal and its dependency names, which is what the Merkle-closure theorem asks of a graph. |
| StoredExample.CompareExample | internal/tgbdiff/adapt.go:98-103 | Two revisions of a rule and its source file, hashed, encoded and compared: every hypothesis of the end-to-end comparison holds of them at once, and the rule is affected through its source. |
| CompareColumns.ReportByColumns | internal/tgbdiff/compare.go:150-483 | Read off the columns: a node whose key is new is reported as a new seed, one whose key is gone as a deleted seed, one whose hash is empty on one side or has other bytes as changed, with the seed mark of SeedByColumns, and nothing else; every seed is at distance 0. |
| CompareColumns.SeedByColumns | internal/tgbdiff/compare.go:294-362 | A changed node is a seed if and only if it is a source file, has no changed dependency, has another dependency list, depends on a new or changed source file, or has an attribute on the allowlist, or any without one, that is on one side only or has two values. |
| Affected.ReportedExactly | internal/tgbdiff/compare.go:150-483 | The report of two hashed revisions names a target of the new one if and only if a walk along dependencies leads from it to a target that is new or different in itself, and any other target if and only if it was in the old one. |
| Distance.DistanceIsShortestWalk | internal/tgbdiff/compare.go:389-448 | A reported distance is the number of steps of a shortest walk along dependencies to a seed; it is -1 exactly when there is no walk, or none of at most the maximum when that is not negative. |
| MerkleClosure.HashedComparisonsAgree | internal/tgbdiff/compare.go:389-448 | On any two label-keyed graphs that report hashed revisions, both comparisons report the same labels, change types and distances. |
| DigestAlign.AlignSnapshots | internal/tgbdiff/compare.go:504-707 | The runs, deleted indices and inserted indices are those of the full merge-join if and only if a side without blocks has no nodes, or neither side has blocks. |
| DigestAlign.AlignByDigest | internal/tgbdiff/compare.go:536-707 | Pairing blocks by digest and joining only the gaps gives the full alignment, whatever blocks were paired. |
| DigestAlign.MatchBlocks | internal/tgbdiff/compare.go:552-612 | The blocks paired by digest hold equal keys and are in order and apart on both sides. |
| DigestAlign.JoinGaps | internal/tgbdiff/compare.go:640-680 | Joining each gap in place, then the rest, yields all matches and both lists of the full join, the pairs being a rearrangement of the matches in order. |
| DigestAlign.MissingBlocksDisagree | internal/tgbdiff/compare.go:521-534 | One node on either side and a block on one side only meet every other demand on the inputs and fail the condition of AlignSnapshots. |
| Align.AlignFallback | internal/tgbdiff/compare.go:712-766 | The merge-join over two ascending key lists gives the alignment: the coalesced matches and the two lists of absent indices. |
| Align.AlignmentMeaning | internal/tgbdiff/compare.go:504-507 | In any alignment two indices share a run position exactly when their keys are equal, runs are not empty, and the two lists hold exactly the indices whose key the other side lacks; so every index is in one place. |
| TgbDiff.ScanHashes | internal/tgbdiff/compare.go:185-276 | After phase 1 the table by after-index tracks exactly the new nodes and the aligned nodes whose hash texts differ, the empty hash and the all-zero hash told apart. |
| ChangeScan.MapRuns | internal/tgbdiff/compare.go:198-210 | Every before-index is mapped to the after-index its run aligns it with, or to -1. |
| ChangeScan.MarkInserted | internal/tgbdiff/compare.go:220-228 | Exactly the inserted nodes are tracked as new, each by a fresh record that is no seed, and no other slot changes. |
| ChangeScan.CompareHashes | internal/tgbdiff/compare.go:229-243 | Of the aligned nodes, exactly those whose hash bytes differ become tracked; earlier records stay. |
| ChangeScan.CompareSentinels | internal/tgbdiff/compare.go:244-276 | Aligned nodes whose hash is empty on one side only become tracked, unless they were tracked before; nothing else changes. |
| HashDiff.BisectHashRun | internal/tgbdiff/compare.go:772-811 | A run whose hash slices differ gets exactly its differing entries marked, in at most d * (log2 n + 1) calls for d differing entries among n. |
| SeedScan.ChangedDepStatusIdx | internal/tgbdiff/compare.go:831-864 | The two answers: whether some after-dependency is tracked as changed, and whether the lengths differ or some projected before-dependency is absent or no after-dependency. |
| SeedScan.HasChangedSrcFileDepIdx | internal/tgbdiff/compare.go:868-889 | True exactly when the after-graph knows the source-file type and some dependency is a tracked source file. |
| SeedScan.ClassifyNode | internal/tgbdiff/compare.go:322-362 | The index-space tests of a changed node give the reference's seed test of its label. |
| SeedScan.ClassifySeeds | internal/tgbdiff/compare.go:294-362 | Every tracked node ends up marked a seed exactly when the reference calls its label a seed. |
| SeedScan.RuleTypeDictID | internal/tgb/reader.go:1303-1315 | The dictionary ID of a rule type; -1 exactly when no entry names it. |
| ReverseCsr.BuildReverseCsr | internal/tgbdiff/compare.go:932-974 | The arrays are the exact transpose of the forward rows: each row lists the sources of its node, as often as they depend on it, in order. |
| FastSearch.Search | internal/tgbdiff/compare.go:389-448 | The breadth-first search over bitset, distance array and queue leaves in every tracked node the shortest reverse-dependency distance from the seeds, cut at the maximum, -1 if there is none; a deleted node gets 0 if it is a seed. |
| TgbDiff.BuildEntries | internal/tgbdiff/compare.go:451-477 | One entry for every tracked node, with its label from the side it is on, its kind, distance and seed mark. |
| TgbDiff.Report | internal/tgbdiff/compare.go:451-482 | Classified, searched and labelled nodes, sorted by label, are the report that Compare promises. |
| TargetDiff.Compare | internal/targetdiff/compare.go:89-176 | One entry for every new, changed and deleted label and no other, with its type and both targets; its distance is the shortest one from the seeds that goes through reported targets only. |
| TargetDiff.ClassifyAfter | internal/targetdiff/compare.go:94-125 | The first pass collects exactly the labels that are new or have another hash, and as seeds exactly the new ones and the changed source files. |
| TargetDiff.ClassifySeeds | internal/targetdiff/compare.go:127-145 | After the second pass the seeds are those of the seed test, the deleted labels aside. |
| TargetDiff.AddDeleted | internal/targetdiff/compare.go:151-166 | Every label of the before-graph alone is added as deleted and as a seed, and nothing else changes. |
| TargetDiff.ChangedDependencyStatus | internal/targetdiff/compare.go:178-213 | Whether some after-dependency is itself a changed label, and whether the lists differ in length or some before-dependency is no after-dependency. |
| TargetDiff.HasChangedSourceFileDependency | internal/targetdiff/compare.go:215-233 | True exactly when some dependency is reported and is a source file of the after-graph. |
| TargetDiff.AttributesChanged | internal/targetdiff/compare.go:235-245 | True exactly when the two attribute maps differ. |
| TargetDiff.ComputeDistances | internal/targetdiff/compare.go:247-307 | Every reported label gets the shortest distance from the seeds through reported labels, cut at the maximum, else -1; nothing but distances changes. |
| TargetDiff.BuildReverseDependencies | internal/targetdiff/compare.go:254-268 | The table lists a label under a name exactly when the label depends on that name, the empty name left out. |
| Snapshot.SemanticGraph | internal/tgbdiff/adapt.go:150-158 | The loop over all nodes builds a graph with one target for every label, whose fields are the node's columns: type, flags, hash, the labels of its dependencies, its non-empty tags, and exactly the attributes that the allowlist names, or all without one. |
| Snapshot.SemanticAt | internal/tgbdiff/adapt.go:150-158 | Every node is in that graph under its own label, as the target materialised from it; no node overwrites another. |
| Shadow.ShadowCompare | internal/tgbdiff/adapt.go:116-180 | The whole shadow comparison: it fails only on different strides, and the materialised fast result and the reference result compare as equivalent if and only if every new or changed target some way off has a seed or a new or changed dependency one step nearer, as it does under Merkle closure. |
| Shadow.Materialize | internal/tgbdiff/adapt.go:116-143 | No lookup of a reported label fails, and each entry becomes the reference's targets of that label on the sides its change type names. |
| Shadow.NormalisedAlike | internal/tgbdiff/adapt.go:184-245 | Two changed targets are normalised alike if and only if they agree in change type, distance and, on either side, in every field, dependencies and tags up to order. |
| Shadow.ResultsEquivalent | internal/tgbdiff/adapt.go:167-180 | True exactly when the two results are equal once their targets' dependencies and tags, and then the targets by label, are sorted. |
| Shadow.FindNode | internal/tgb/reader.go:592-607 | The binary search returns the node with the key, and -1 exactly when no node has it. |
| EncodedSnapshot.MaterialisedIsEncoded | internal/tgbdiff/adapt.go:274-306 | What is materialised of a node of an encoded graph is the encoded target: label, stored part of the hash, rule type, flags, dependencies as a multiset of labels, non-empty tags as a multiset, and of the attributes one pair for every name. |
| EncodedSnapshot.EncodedIsWellFormed | internal/tgb/encode.go:160-186 | An encoded graph has what the comparison relies on, from ascending unique labels to blocks, if and only if no two labels split alike and none joins to the empty label. |
| EncodedSnapshot.EncodedDigestsAreHonest | internal/tgb/encode.go:602-610 | Two encoded graphs whose block streams do not collide have equal keys wherever digests are equal, and have blocks exactly when they have nodes. |
| ItgBatch.UpdateGraph | core/itg/graph/update.go:92-103 | After a batch that succeeds, the graph's content is the old content with the batch applied, and every target has a hash. If that content has no cycles the graph is up to date, each hash being the Merkle hash, if and only if every generated file still has its rule. A deleted source file that the query does not list is gone, and any other stored label //pkg:rest that is not in the query is gone if and only if pkg is reported changed or deleted. The batch succeeds, with all its targets applied, whenever the content it leads to is acyclic with every rule there and every dependency of the query is known. |
| ItgOutcome.EdgesAreKept | core/itg/graph/invalidate.go:120-136 | A target that the batch does not write keeps all its dependencies if and only if none of them is deleted, whether or not the query lists it again. |
| ItgOutcome.RelistedPackageLosesEdge | core/itg/graph/invalidate.go:127-133 | A package reported deleted that the query still lists: its target is stored again, and the dependent has lost the edge. |
| ItgOutcome.EveryTargetIsStored | core/itg/graph/invalidate.go:55-63 | The batch stores every target of the query if and only if each one that the topological order leaves out was stored, just so, before. |
| ItgOutcome.RootlessCycleIsDropped | core/itg/graph/invalidate.go:55-63 | A query of two rules that depend on each other: neither is stored. |
| ItgOutcome.DeletedRuleLeavesOrphan | core/itg/graph/update.go:241-251 | A whole graph without cycles and a batch that deletes the package of a rule, whose generated file is in another package and stays, so that the graph is not whole afterwards. |
| Recompute.UpdateAndRecompute | core/itg/graph/update.go:92-145 | A batch that describes the difference to a new target map, applied to the stored graph, beside hashing the new map from scratch: both succeed, the stored content is the one built from the new map, every target has one hash in both, and the stored graph is up to date, ready for the next batch. |
| RecomputeExample.StoreAndChange | core/itg/graph/update.go:92-145 | A rule, its source file and a generated file: every hypothesis of UpdateAndRecompute holds of them, first from an empty graph and then, when the source file changes, of the graph just stored. |
| Recompute.LeadsThere | core/itg/graph/invalidate.go:35-65 | A batch whose query lists what is new or differs, whose deletions cover what is gone, and which deletes nothing that stays unlisted or that such a target depends on, leads exactly to the new content. |
| ItgContent.IncrementalEqualsFromScratch | core/itg/graph/update.go:107-145 | Two graphs that are up to date and have the same acyclic content give each target the same hash, whatever IDs and history each has; so updating and computing from scratch agree. |
| ItgContent.HashesFollowContent | core/itg/graph/update.go:107-145 | In a graph that is up to date every stored hash is the Merkle hash of its name in the named content. |
| ItgContent.RemovalChangesContent | core/itg/graph/invalidate.go:67-93 | Removing a target takes its entry and every mention of it out of the content and changes nothing else. |
| ItgContent.UpsertChangesContent | core/itg/graph/invalidate.go:138-218 | Upserting a target writes its own entry and no other. |
| ItgBatch.UpdateInvalidateTargets | core/itg/graph/invalidate.go:35-65 | The three steps in order: the new content is the old one without the deleted files and the vanished targets, with the listed query targets written over it, and every cleared hash is on the list to recompute. On an acyclic query it succeeds if and only if every dependency is in the query or still stored. |
| ItgBatch.CheckDeletedTargets | core/itg/graph/invalidate.go:120-136 | Exactly the targets of deleted packages, and those of changed packages that the query does not list, leave the content, with every mention of them; it never fails. The package of a label //pkg:rest is pkg. |
| ItgBatch.PackageOfLabel | core/itg/graph/invalidate.go:220-223 | The package of //pkg:rest is pkg for every pkg without a colon, nested or empty; a name without the slashes keeps what stands before its first colon. |
| ItgBatch.RemoveNamed | core/itg/graph/invalidate.go:43-49 | Removing the deleted source files never fails and takes exactly those names out of the content. |
| ItgBatch.UpsertAll | core/itg/graph/invalidate.go:59-63 | Upserting in a given order succeeds if and only if every target's dependencies are stored or come earlier, and then the content is the old one with those entries written. |
| ItgHashing.ComputeHashes | core/itg/graph/update.go:218-275 | Fills in hashes and changes nothing else; it succeeds on a complete graph, cyclic or not, and on an acyclic one whose hashes below are right every hash it fills in is the Merkle hash. |
| ItgHashing.ComputeInvalidatedHashes | core/itg/graph/update.go:107-145 | Pinned targets, then roots, then the rest: on a complete graph it succeeds, every listed target ends with a hash, and on an acyclic one every hash it fills in is the Merkle hash. |
| ItgGraph.OptimizedGraph.InvalidateHashRecursively | core/itg/graph/invalidate.go:96-117 | The worklist terminates on every graph, cyclic ones included, clears the hashes that the specified clearing clears, adds exactly the newly cleared IDs to the list, and changes nothing else. |
| ItgState.ClearingIsReachability | core/itg/graph/invalidate.go:96-117 | With the cleared set closed under dependents, a hash is newly cleared if and only if its target is reachable from the given IDs through reverse dependencies. |
| ItgState.InvalidationRepairs | core/itg/graph/invalidate.go:96-117 | If every kept hash outside the given IDs was right, every hash that survives the clearing is right. |
| ItgState.InvalidationRestores | core/itg/graph/invalidate.go:96-117 | A graph that is wrong only at or above the given IDs is good again once they are cleared, the newly cleared ones pending. |
| ItgGraph.OptimizedGraph.RemoveTarget | core/itg/graph/invalidate.go:68-93 | It succeeds exactly when every neighbour is stored; then the new state and the list are those of the specified removal. |
| ItgGraph.OptimizedGraph.UpsertTarget | core/itg/graph/invalidate.go:139-218 | It succeeds exactly when every dependency is known; then the new state and the list are those of the specified upsert. |
| ItgUpdate.RemovalKeepsGood | core/itg/graph/invalidate.go:68-93 | Removal keeps the graph good: reverse dependencies the exact transpose, name and type tables mutually inverse with fresh next numbers, every kept hash right, every cleared hash pending. |
| ItgUpdate.UpsertKeepsGood | core/itg/graph/invalidate.go:139-218 | So does an upsert whose dependencies are known. |
| ItgRoots.RemovalKeepsRoots | core/itg/graph/invalidate.go:77-86 | Removal keeps the root marks exact: a target is marked if and only if nothing depends on it and its type can be a root. |
| ItgRoots.UpsertKeepsRoots | core/itg/graph/invalidate.go:176-209 | An upsert keeps them exact if and only if the target is new, or has dependents, or can be a root as its new type exactly when it could as its old one. |
| ItgRoots.LateRuleStaysUnmarked | core/itg/graph/invalidate.go:189-195 | A stored source file that nothing depends on, upserted as a rule of the same name: its mark stays false and the marks are no longer exact. |
| ItgOptimize.OptimizeGraph | core/itg/graph/graph.go:134-165 | From a dependency-closed target map it builds a graph with that content whose structure is good, whose root marks are exact if the map's were, and which is up to date if the map was fully hashed. |
| ItgOptimize.AddTarget | core/itg/graph/graph.go:197-240 | One more target is stored under its name's ID, the dependencies get IDs, and what was added before stays. |
| ItgOptimize.AddReverseDeps | core/itg/graph/graph.go:154-162 | The second pass adds exactly the reverse edge of every stored dependency. |
| FullGraph.HashGraph | core/targethasher/graph.go:513-650 | When it succeeds, every target has a hash, the list has no duplicates and holds every target of the map, and, if all dependencies are in the map, exactly the targets, even with rootless cycles; on an acyclic graph every hash is the Merkle hash and the list has dependencies first. A target of the map is marked a root if and only if it was before, or nothing depends on it and it is neither a source file nor a package group, or no path from a target that nothing depends on leads to it; those targets come last in the list, in name order. A rule's own hash is stored and nothing else changes. If the graph at hand holds no more than the map asks for, it succeeds if and only if every source file of the map can be read and every missing dependency is a readable file of this repository. |
| FullGraph.MarkRoots | core/targethasher/graph.go:513-543 | Exactly the chosen targets become marked: those that nothing depends on and whose type can be a root, or all leftovers. |
| FullHasher.Hasher.HashRecursively | core/targethasher/graph.go:713-890 | Terminates on cyclic graphs; fills in hashes, adds missing source files and changes nothing else. On success the target has the returned hash, everything newly hashed has its dependencies hashed, and on an acyclic graph each new hash is the Merkle hash. |
| Toposort.Sorter.Visit | core/targethasher/graph.go:659-690 | Visits each target once and lists exactly what is newly reached below the start; the order stays free of duplicates and grows at its end; on an acyclic table every dependency is listed before its dependent. It terminates on cycles. |
| Toposort.TopologicalRoots | core/targethasher/graph.go:513-543 | Exactly the targets nothing depends on, once each, in name order. |
| Toposort.TopologicalOrder | core/targethasher/graph.go:606-617 | From all roots: each target below a root once; on an acyclic table every target, dependencies first. |
| Toposort.OrderIsStable | core/targethasher/graph.go:655-690 | The list does not depend on the order in which the dependencies of a target are given, but on the table and the roots alone. |
| RuleEncoding.RuleEncodingIsExact | core/targethasher/sourcehasher.go:282-358 | Two rules with unique attribute names have equal encodings if and only if they agree up to the order of lists and attributes, absent entries and the excluded fields, of the attributes the one named generator_location alone. |
| RuleEncoding.RuleBytesTell | core/targethasher/sourcehasher.go:282-328 | Attribute by attribute: two rules are hashed from the same bytes if and only if their names, classes, environments and lists agree and every attribute of either but generator_location has one of the same content in the other. |
| RuleEncoding.AttributeContentIs | core/targethasher/sourcehasher.go:330-358 | Attributes have the same content if and only if they agree in every field but the location, lists and dictionaries up to order and without absent entries. |
| RuleEncoding.RuleBytesAreExact | core/targethasher/sourcehasher.go:282-290 | The same for the bytes that are hashed, a missing rule included. |
| RuleEncoding.AttributesInjective | core/targethasher/sourcehasher.go:330-358 | Sorted attribute encodings are equal exactly when the attributes are, as a multiset of contents. |
| Framing.MessageInjective | core/targethasher/sourcehasher.go:425-441 | A framed message tells its type name and its fields, in order, apart from every other. |
| HashAgreement.NodesAgree | core/itg/graph/update.go:256-269 | A target's Merkle node is the same for the full and the incremental hasher if and only if it is a leaf or its dependency list repeats nothing. |
| HashAgreement.RepeatedInputIsReadTwice | core/targethasher/graph.go:713-890 | A rule that lists one input twice: the full hasher reads its hash twice, the incremental one once. |
| HashAgreement.FullAndIncrementalAgree | core/itg/graph/update.go:105-106 | On an acyclic graph without repeated dependencies both hashers work on one Merkle graph and give one hash. |
| Merkle.RenamingKeepsHash | core/itg/graph/update.go:256-269 | Merkle hashes do not depend on how nodes are numbered, nor on which order proves the graph acyclic. |
| MerkleClosure.EqualHashesHaveEqualDeps | core/targethasher/graph.go:713-890 | Under a digest without collisions on what the two revisions feed it, a target with equal hashes in both has the same dependencies with the same hashes. |
| MerkleClosure.RevisionsAreMerkleClosed | core/targethasher/graph.go:713-890 | So every target that depends on a new or changed one is itself new or changed. |
| Affected.HashTells | core/targethasher/graph.go:713-890 | Under the same digest a target keeps its hash between two revisions if and only if it is the same in itself and each of its dependencies is in both and keeps its hash; for a source file its content counts, for a generated file its rule, for a rule every field but the locations. |
| Affected.AffectedExactly | core/targethasher/graph.go:713-890 | A target is new or has another hash if and only if some walk along dependencies leads from it to a target that is new or different in itself. |
| Affected.RuleTells | core/targethasher/sourcehasher.go:282-328 | A rule keeps its hash if and only if its name, class, environment, inputs, outputs, default settings and attributes, generator_location aside, are the same in any order and each of its dependencies keeps its hash. |
| GraphRoundTrip.DecodeUndoesEncode | internal/tgb/reader.go:16-199 | An encoded graph's file decodes if and only if it is within the reader's limits and dictionary budgets. Then every target comes back once: label, rule type, dependency and tag multisets, flags, file hashes, the stored part of its hash with the empty one kept empty, and of its attributes one pair for every name, all of them exactly when no name has two values. |
| GraphRoundTrip.Encode | internal/tgb/encode.go:55-69 | A file for exactly the graphs that are acceptable under valid options, and it is the file of an encoding of the graph, whatever the number of shards. |
| GraphRoundTrip.CanonicalIs | internal/tgb/encode.go:145-158 | A label comes back unchanged if and only if its last colon is not its first byte. |
| GraphRoundTrip.LeadingColonIsLost | internal/tgb/encode.go:145-158 | The label ":a" comes back as "a". |
| GraphRoundTrip.TwoForOneNameIsEncodable | internal/tgb/encode.go:449-468 | A graph with a target that carries two attribute numbers of one name and different values is accepted. |
| GraphRoundTrip.RepeatedNameLosesPair | internal/tgb/reader.go:158-162 | Any graph that the round trip restores of it lacks one of that target's two pairs. |
| GraphRoundTrip.HashesComeBack | internal/tgb/encode.go:386-397 | The empty hash comes back empty and a long enough hexadecimal hash comes back as its first bytes. |
| GraphEncode.EncodeColumns | internal/tgb/encode.go:127-138 | Columns for exactly the graphs whose numbers all stand for something and whose hashes can be stored, under valid options; the columns then hold every target at its sorted place. A missing stride is 8 and a missing block size 512. |
| GraphEncode.ResolveIs | internal/tgb/encode.go:267-304 | A dependency number is found if and only if some target carries it and it is not negative or the table is not the dense one. |
| GraphEncode.NegativeNumberIsRefused | internal/tgb/encode.go:295-304 | A graph whose one dependency carries a negative number is refused although the target exists, and is accepted once a large number elsewhere makes the table sparse. |
| GraphDecode.Decode | internal/tgb/reader.go:16-22 | Decodes exactly what the specification of the decoder reads from the bytes. |
| GraphDecode.DecodeGraph | internal/tgb/reader.go:27-199 | The method over a caching reader gives what its columns specify: every node's target and the numbered tables. |
| GraphDecode.BuildTargets | internal/tgb/reader.go:113-177 | Targets and label table for every node, or an error exactly when some package or name number has no string. |
| GraphFiles.WriteGraph | internal/tgb/encode.go:643-834 | The whole file, for every shard length. |
| GraphFiles.ReadGraph | internal/tgb/reader.go:1196-1224 | Everything an opened file holds: the dictionaries, number columns, lists, flags, hashes and file hashes. |
| LostAttribute.AttributeIsLost | internal/tgb/reader.go:158-162 | Under every lossless codec the file of that graph's columns is decoded, to one target whose pairs are a proper part of those encoded; PlainCodecDecodes gives such a codec. |
| SmallFiles.SmallIsAccepted | internal/tgb/reader.go:361-437 | Columns of few nodes and short lists and strings are within every limit and budget of the reader, under every codec. |
| GraphColumns.GraphFileRoundTrip | internal/tgb/reader.go:294-353 | The file of rectangular columns opens if and only if it is within the limits, and then decodes to the columns that decoding a graph reads, as written, if and only if the dictionaries are within budget; the header comes back. |
| GraphNodes.BuildNodes | internal/tgb/encode.go:160-186 | Fails exactly when a target has no label; otherwise the nodes are the targets with their split labels, in key order. |
| GraphNodes.NodesAreTargets | internal/tgb/encode.go:160-186 | No target is left out or listed twice among the nodes. |
| GraphNodes.BuildPkgDict | internal/tgb/encode.go:218-250 | The packages once each in order, and for every node the number of its own package. |
| GraphNodes.BuildNameDict | internal/tgb/encode.go:218-250 | Every name once, in order. |
| GraphRows.BuildIdIndex | internal/tgb/encode.go:267-304 | The dense table and the sparse one find what the specified lookup finds, negative numbers included. |
| GraphRows.ResolveRow | internal/tgb/encode.go:369-477 | A row exactly when every number of the target stands for something; the row then names the same dependencies, tags, rule type and attribute texts. |
| Interning.SortedUniqueStrings | internal/tgb/encode.go:188-195 | Every string of a table once, in order, whatever order the table is walked in. |
| Interning.RemapTable | internal/tgb/encode.go:202-208 | Every old number is mapped to the place of its own string. |
| ListColumns.ListsRoundTrip | internal/tgb/reader.go:1411-1455 | A list column written for given degrees is read back as the lists written, in each coding. |
| ListColumns.DecodeColumns | internal/tgb/reader.go:1411-1455 | The bulk reader: all lists, or an error exactly when the walk over the column fails. |
| ListColumns.CompressedRows | internal/tgb/reader.go:854-903 | The compressed-row reader: the same lists, end to end with their starts, failing on the same columns. |
| ListColumns.RowsHoldLists | internal/tgb/reader.go:854-903 | Between two starts the flat form holds exactly that list. |
| ListColumns.ListAt | internal/tgb/reader.go:821-845 | The reader of one node appends that same list, and nothing when the column is bad or the node is out of range. |
| ListColumns.ListOffsets | internal/tgb/reader.go:677-718 | The lazily built table has the byte offset of every list, failing on the same columns. |
| ListColumns.ValidateDegs | internal/tgb/reader.go:454-466 | Accepts exactly non-negative degrees that the column's bytes can back. |
| ListColumns.EncodeColumn | internal/tgb/encode.go:322-501 | The shards' streams, joined, are the one serial stream, for every shard length. |
| ListColumns.ShardsShareNoByte | internal/tgb/encode.go:322-331 | Nodes whose flags share a byte are in one shard, for every node and shard count. |
| FlagColumn.EncodeFlags | internal/tgb/encode.go:470-476 | The bitset filled by shards in any order is the one of a serial pass. |
| FlagColumn.FlagsRoundTrip | internal/tgb/reader.go:1548-1568 | Every node gets back its root, external and empty-hash flag. |
| AttrColumns.DecodeAttrColumns | internal/tgb/reader.go:1495-1545 | Reading names and values side by side is reading the two columns, failing exactly when either does. |
| HashColumn.HexDecodeInto | internal/tgb/encode.go:509-530 | Accepts exactly even-length hexadecimal of at least the stride, writes its leading bytes, and leaves every byte outside the slot alone. |
| HashColumn.EncodeHashes | internal/tgb/encode.go:386-397 | The hash column for exactly the lists in which every hash is empty or can be stored. |
| HashColumn.HexDigitAt | internal/tgb/reader.go:610-624 | A byte is written as two lower-case digits, the high half first. |
| IntColumns.DeltaRoundTrip | internal/tgb/reader.go:1320-1336 | Difference columns come back, 32-bit wrap-around of the differences included. |
| IntColumns.PlainRoundTrip | internal/tgb/reader.go:1339-1353 | Plain columns come back, negative numbers included. |
| IntColumns.NameRoundTrip | internal/tgb/reader.go:1357-1381 | Name numbers, coded from the last name of the same package, come back. |
| IntColumns.DecodeDeltaInts | internal/tgb/reader.go:1320-1336 | The loop reads what the round trip is stated over. |
| IntColumns.DecodeNameIDs | internal/tgb/reader.go:1357-1381 | The same for name numbers. |
| Dict.DictRoundTrip | internal/tgb/dict.go:72-130 | A front-coded dictionary expands to the strings written if and only if their total length is at most a megabyte or 32 times the encoded strings; otherwise to an error. |
| DictLimits.SharedStemIsRefused | internal/tgb/dict.go:90-126 | A dictionary of 256 strings in order that share a stem of 32768 bytes is written and then refused. |
| Dict.BuildFrontCodedDict | internal/tgb/dict.go:33-68 | The bytes the round trip is stated over, restart points and shared prefixes included. |
| Dict.DecodeDict | internal/tgb/dict.go:72-130 | The expansion the round trip is stated over, every error included. |
| Dict.RestartDecodes | internal/tgb/dict.go:135-153 | Decoding from the k-th restart offset with nothing before it gives exactly the entries from 1024 k on, if they are within the budget. |
| Dict.RestartTableRoundTrip | internal/tgb/dict.go:135-153 | The restart offsets and the string data come back. |
| StringMap.MapRoundTrip | internal/tgb/reader.go:1059-1084 | The file-hash table written is the table read. |
| StringMap.EncodeStringMap | internal/tgb/encode.go:839-855 | The bytes the round trip is stated over, for every walk of the map. |
| StringMap.DecodeStringMap | internal/tgb/reader.go:1059-1084 | The table the round trip is stated over, every error included. |
| Varint.UvarintRoundTrip | internal/tgb/varint.go:7-15 | An unsigned number is read back with its length, whatever follows. |
| Varint.ZigzagIsBijective | internal/tgb/varint.go:19-28 | The mapping of signed to unsigned numbers is a bijection of the 64-bit numbers; the last bit is the sign and the rest the magnitude. |
| Varint.ZigzagRoundTrip | internal/tgb/varint.go:19-28 | A signed number is read back with its length, whatever follows. |
| Blocks.BlocksPartition | internal/tgb/encode.go:556-579 | The blocks cut the nodes into consecutive, non-empty runs of at most 8 block sizes, each with the digest of its own labels. |
| Blocks.BlocksEndFirst | internal/tgb/encode.go:556-579 | Every block ends at its first label whose hash is a multiple of the block size, unless it has reached 8 block sizes or the end of the list before. |
| Blocks.Resynchronise | internal/tgb/encode.go:556-579 | Two label lists with a common suffix that contains a content-defined cut have the same block boundaries, shifted, and the same digests after that cut. |
| Blocks.BuildBlocks | internal/tgb/encode.go:556-579 | The loop gives the blocks that the two lemmas are stated over. |
| Blocks.BlockDigest | internal/tgb/encode.go:602-610 | The digest of the block's labels, each ended by a NUL. |
| Blocks.StreamsDiffer | internal/tgb/encode.go:602-610 | Label lists without NUL bytes have different streams unless they are equal. |
| Container.HeaderRoundTrip | internal/tgb/format.go:165-193 | A header is read back if and only if its stride is a known one. |
| Container.EncodeHeader | internal/tgb/format.go:149-163 | The array is the header's bytes, checksum included. |
| Container.FooterRoundTrip | internal/tgb/format.go:202-218 | The footer is read back. |
| Container.DirectoryRoundTrip | internal/tgb/format.go:231-293 | A directory is read back if and only if it has no more than 64 columns. |
| Container.DecodeDirectory | internal/tgb/format.go:245-293 | The record loop reads the specified directory, every error included. |
| FormatChecks.OpensExactly | internal/tgb/reader.go:294-437 | A file opens if and only if it begins and ends with the magic bytes, has the version and a known stride, both checksums are right, the directory can be read, and its columns lie between header and directory, keep to the limits on their sizes, each and together, and back the header's counts: all in bytes and numbers. |
| Blob.NewReader | internal/tgb/reader.go:294-353 | A reader for exactly the files that the specification opens, with their header and directory. |
| Blob.ValidateColumns | internal/tgb/reader.go:361-437 | Accepts exactly directories whose columns lie in the file, are within the limits and back the header's counts. |
| Blob.Reader.GetColumn | internal/tgb/reader.go:1025-1055 | The same bytes whether cached or not, and only that column enters the cache. |
| Blob.WriteFile | internal/tgb/encode.go:779-833 | The file put together from its columns is the specified one. |
| BlobRoundTrip.WrittenFileOpens | internal/tgb/reader.go:294-353 | A file put together by the writer opens if and only if it is within the limits. |
| BlobRoundTrip.ColumnsRoundTrip | internal/tgb/reader.go:1025-1055 | Every column comes back, and one that was not written is empty. |
| MergeSort.SortMerge | internal/tgb/psort.go:30-60 | Sorts the range, keeps its elements, and touches neither array outside it, at every recursion depth. |
| MergeSort.ParallelSortFunc | internal/tgb/psort.go:17-28 | Sorts the whole array and keeps its elements. |
| Splitting.SplitBySize | internal/streaming/streaming.go:21-45 | Never fails and never returns nothing; the groups make up the items in order, each within the limit or of one item, and empty input gives one empty group. |
| Splitting.GreedyIsFewest | internal/streaming/streaming.go:15-18 | No split into consecutive groups within the limit has fewer groups. |
| Streaming.SplitMetadata | internal/streaming/streaming.go:54-91 | Never fails; merging the messages restores all five maps, every message after the first holds a name or a text, and takes at most the limit on the wire in every order of its entries unless it holds one entry, and the first is a piece that a greedy cut of its large map may begin with plus the three small maps. |
| FirstMessages.FirstMessageWithin | internal/streaming/streaming.go:65-77 | The first message takes at most the limit on the wire, for every cut and every order of its entries, if and only if every piece that a greedy cut may begin with leaves room for the small maps: a condition on the maps and the limit. |
| FirstMessages.LeadersComeFirst | internal/streaming/streaming.go:93-114 | The pieces that a greedy cut may begin with are exactly those that come first for some order of the entries. |
| FirstMessages.SmallMapsOverfill | internal/streaming/streaming.go:75-77 | A rule type and a target name of 7 bytes each under a limit of 10: the first message takes 14 bytes on the wire in every order. |
| Streaming.SplitMapByBytes | internal/streaming/streaming.go:93-114 | The groups cut the map along a greedy split of its keys, whatever order they come in; none is empty, and every group of more than one entry takes at most the limit on the wire. |
| Wire.MapEntryWireSize | internal/streaming/streaming.go:116-119 | The size counted for a map entry is the length of its protobuf encoding, tags and lengths included, in every field below 16. |
| Wire.TargetSize | entity/optimized_target.go:21-57 | The size counted for a target is the length of its protobuf encoding, in whatever order its attributes are written. |
| Wire.SentSize | entity/changed_targets.go:14-31 | The size counted for a changed target is the length of its protobuf encoding, in whatever orders the attributes of its two sides are written. |
| Streaming.MergeChunks | internal/tgbdiff/adapt.go:42-91 | The merged graph has each target ID once, with the last target sent and at the place of the first, and the last text sent for every number. |
| MergedStream.MergedIsLastSent | internal/tgbdiff/adapt.go:42-91 | Over all chunks: every ID sent is there, every target kept is the last one sent for its ID, and they stand in the order in which their IDs first came. |
| MergedStream.MergedIsLastText | internal/tgbdiff/adapt.go:42-91 | In each of the five maps a number has a text exactly when some chunk gives one, and it is that of the last chunk that does. |
| Streaming.StreamRoundTrip | internal/tgbdiff/adapt.go:42-91 | Splitting targets and metadata, sending them and merging gives back the targets in order and the metadata, the file hashes left out. |
| WorkerPool.RunsAreSafe | core/repomanager/repo_manager.go:159-234 | After every run of steps each slot is in exactly one place: available, in one lease, or in one live workspace. |
| WorkerPool.ReturnsNeverBlock | core/repomanager/repo_manager.go:211-233 | In every run, giving back a slot, after a failed clone or by a release, finds room in the channel. |
| WorkerPool.HandedOutClean | core/repomanager/repo_manager.go:195-233 | In every run, a workspace is handed out only on a slot restored or freshly cloned in that same lease, which no other lease and no unreleased workspace holds. |
| WorkerPool.ReleaseCountsOnce | core/workspace/workspace.go:99-106 | Over every run a workspace's slot is given back once if its release is over and never before, however often it was released; a release after the first changes nothing. |
| WorkerPool.QuietPoolIsFull | core/repomanager/repo_manager.go:159-234 | Whenever no lease is in progress and every workspace is released, all slots are available. |
| RepoManager.Manager.PoolFor | core/repomanager/repo_manager.go:128-155 | A repository keeps its pool; one never seen gets a full one, and no other pool changes. |
| RepoManager.Manager.Step | core/repomanager/repo_manager.go:159-234 | A step of one repository's pool is the pool's own step, keeps every pool safe, and changes no other pool; one that cannot be taken changes nothing. |

## Left out

- TgbDiff.Compare: cancellation, the counters and phase times, and the internal readers' decode errors; the comparison is over snapshots whose columns have been read.
- TgbDiff.Compare: the distance is an unbounded integer, where the code keeps 32 bits; node counts are below 2^31.
- FullGraph.HashGraph: the value of a hash on a cyclic graph, which depends on where the walk enters the cycle; only that every hash is filled in is stated. The in-place sort of dependency lists during listing is not written back, the lists being sorted already.
- FullHasher.Hasher.HashRecursively: external targets, exclusions and repository collapsing; the hash of a source file is given, so reading files and directories is not modelled.
- ItgBatch.UpdateGraph: external rule targets and the conversion of query results; the batch starts from targets whose own hashes have been computed.
- ItgOptimize.OptimizeGraph: tags and attributes, which hashing never reads, and the copying of graphs.
- Streaming.SplitMetadata: the byte limit holds of the first message only under the condition of FirstMessages.FirstMessageWithin, since the code adds the three small maps without counting them.
- WorkerPool.RunsAreSafe: the origin clone that precedes a lease, and that a waiting lease is ever served; steps are the channel's and the workspace's, in any interleaving.
- GraphRoundTrip.DecodeUndoesEncode: targets come back numbered by their place in key order, so original numbers and list orders are not restored.
- GraphRoundTrip.Encode: the columns are built one at a time, where the code fills them all in one pass over the nodes; reading past the end of a column, which panics, is an absent result.
- ListColumns.ListAt: one list column; the tag and attribute accessors read theirs in the same way and are not repeated, nor are the fallbacks of accessors for nodes out of range.
- MergeSort.ParallelSortFunc: the two halves are sorted one after the other, and the order of elements that tie is not stated.
- Compression, CRC, xxhash and SHA-1 themselves: function parameters, with the hypotheses listed above.
- Git, Bazel, network and file access, configuration, storage, caching keys, logging, metrics, timing, contexts and locks around lazy fields.
- The request handlers, mappers and generated messages around the graphs, and the file hashes on their way through them.
- Output filters, column statistics, floor keys, hash truncation and the external accessors: correct but easy.
