# Skillsmith scripts and CLI shell, verified

This project models the parts of Skillsmith whose correctness does not show in any single function:
the sharded test run and its aggregator, the batched Git reader of the P17 catalog, the catalog's
dependency graph and lifecycle rules, the owned snapshot the CLI runtime takes of a command outcome,
the eager argument scanners, the generated regions of the README, and three printers with the readers
that undo them. `dafny verify dfyconfig.toml` checks all of it.

## How the files belong together

**Sharded tests.** `GreedyPacking` is list scheduling on sequences of weights; `ShardAssignment` is
`selectShardFiles` on top of it, with the loop over `loads` and `owner`. `SerialRun`, `ShardRun` and
`ShardAggregate` are the serial runner, one shard's run, and the aggregator. `ShardRefinement` puts the
three together: with a file for every shard, no empty path and no repository that changed under its run,
the distributed run accepts exactly when the serial one does, with the same totals, and any evidence that is accepted, wherever it came from, replays as an accepted serial run. `Sorting` holds
`toSorted` and the order of JavaScript strings.

**Git reads.** `ReceiptBatch` decodes `git cat-file --batch` output and proves the decoder inverse to the
framing; `ReceiptReader` is the memo with one prefetch, proved indistinguishable from plain reads.
`NameStatus` parses `git show --name-status -z`.

**Catalog.** `CatalogGraph` has the depth-first cycle check (it succeeds exactly on acyclic graphs and
leaves a topological order), the two closure routines (both compute reachability, on cyclic graphs too) and
the required-now/downstream split. `GateProgress` has the loops over lifecycle gates, `CatalogRules` the
records and the rules each of them is held to, `CatalogValidation` the loops of `validate` that decide these
rules, and `CatalogHistory` what the rules imply for the catalog as a whole. `CatalogReference` says what a
sound catalog is of its records alone, and `CatalogSoundness` proves that the rules accept exactly those;
`PhaseNames` is the order of phases as they are written.

**Snapshot.** `OwnedSnapshot` is the memoised deep copy on a heap of mutable objects: a fresh isomorphic
image of everything reachable, cycles and sharing included, or a failure exactly when something
unsupported is reachable. Maps are read through the public `entries()`.

**Arguments.** `OptionSpellings` collects the options that take values. `EagerScan` gives invocations one
recursive grammar; the two passes over `argv` and the presentation pass are proved to compute what that
grammar says. `EagerReference` gives the same answers in one pass, without grammar and scopes.

**Text.** `Utf16` is JavaScript's view of strings. `HumanText` and `StatusArgv` quote for people and for
POSIX shells, and `HumanForms` says unit by unit what they print; `CompletionProtocol` accepts completion
output; `ReadmeRegions` regenerates two regions of the README, and `ReadmeForms` says what that looks for,
writes and reports. `Utf8` and `Numerals` are shared forms of text and numbers.

Where the code does not do what one would hope for, the model keeps the code and says when it does:

- The README written by the generator passes the following check if and only if the capability matrix
  leaves the place of the command index alone (`ReadmeRegions.WrittenPassesCheck`). A README with the
  index inside the matrix is a counterexample (`ReadmeRegions.NestedIndexFails`).
- The split that `initialize` builds passes the checks in `validate` if and only if every impacted
  validation has an owner that is not the empty string (`CatalogGraph.BuiltSplitPasses`); an input without
  one fails (`CatalogGraph.OwnerlessSplitFails`). The other checks of `validate` keep that case out
  (`CatalogHistory.BuiltSplitAccepted`).
- The duplicate guard of the serial runner tests the repeated path for truth, so it lets a manifest through
  whose first repeated entry is the empty path (`SerialRun.RunFilesSerially`,
  `SerialRun.RepeatedEmptyPathAccepted`). Receipts with an empty path do not parse, so the aggregator never
  accepts such a manifest (`ShardRefinement.ShardedRefinesSerial`).
- The order check of the aggregator compares joined text, so it only fixes the order of files for paths
  without newlines (`ShardAggregate.AcceptedInOrder`). With them, evidence of a run in another order is
  accepted (`ShardRefinement.NewlinePathsDefeatOrderCheck`).
- The mask on a completion directive constrains it only modulo 2^32 (section 7.1.6 of ECMA-262,
  `CompletionProtocol.DirectiveMask`, `CompletionProtocol.DirectiveWraps`).
- Display text is not lossless (`HumanText.DisplayLosesTheDifference`); a printed argv gives back the
  arguments themselves if and only if none holds a control character (`StatusArgv.ArgvFaithful`).

## Model

| member | source | states |
|---|---|---|
| Sorting.SortSorted | scripts/run-test-files-shard.ts:132-134 | sorting under a strict total order gives a permutation in that order |
| Sorting.SortDependsOnElements | scripts/run-test-files-shard.ts:132-134 | two arrangements of the same elements sort to the same sequence |
| Sorting.TextBeforeTotal | scripts/run-test-files-shard.ts:133 | JavaScript's `<` on strings, by UTF-16 units, is a strict total order |
| Sorting.TextBeforeByUnits | scripts/run-test-files-shard.ts:133 | one string is before another if and only if its UTF-16 units are a proper prefix of the other's, or the first unit that differs is the smaller number |
| GreedyPacking.LeastLoaded | scripts/run-test-files-shard.ts:136 | the chosen bin is the first of the least loaded |
| GreedyPacking.GreedySnoc | scripts/run-test-files-shard.ts:135-139 | placing one more job extends the assignment by the least loaded bin and changes no earlier job |
| GreedyPacking.LoadsAddUp | scripts/run-test-files-shard.ts:130-139 | the loads of all bins add up to the weight of all jobs, whatever the assignment |
| GreedyPacking.BigJobsOptimal | scripts/run-test-files-shard.ts:129-139 | for jobs above a third of the optimum, longest-first fills no bin above the optimum |
| GreedyPacking.GreedyWithinGraham | scripts/run-test-files-shard.ts:129-139 | for weights in non-increasing order 3·n·load ≤ (4·n−1)·cap for every bin and every cap that any assignment fits |
| GreedyPacking.LoadSpread | scripts/run-test-files-shard.ts:135-139 | after every step two loads differ by at most the largest weight placed |
| GreedyPacking.AverageBound | scripts/run-test-files-shard.ts:135-139 | n times any load is at most the total weight plus (n−1) times the largest job |
| GreedyPacking.BinsOpenInOrder | scripts/run-test-files-shard.ts:135-139 | with positive weights the non-empty bins are the first min(n, jobs) ones |
| GreedyPacking.EqualWeightsRoundRobin | scripts/run-test-files-shard.ts:20-25 | with equal weights job k goes to bin k mod n |
| ShardAssignment.PlaceFiles | scripts/run-test-files-shard.ts:130-139 | the loop over the loads array and the owner map leaves exactly the greedy owners |
| ShardAssignment.SelectShardFiles | scripts/run-test-files-shard.ts:117-141 | an error exactly for totals below 1 and indices out of range, otherwise the files of that shard |
| ShardAssignment.PlacedHeaviestFirst | scripts/run-test-files-shard.ts:132-134 | files are placed by falling weight, and files of one weight by their UTF-16 units |
| ShardAssignment.GrahamBound | scripts/run-test-files-shard.ts:129-139 | every shard's load is within (4N−1)/(3N) of the largest load of any assignment whatever |
| ShardAssignment.ShardsBalanced | scripts/run-test-files-shard.ts:20-25 | no two shards differ by more than the heaviest file |
| ShardAssignment.ShardsNearAverage | scripts/run-test-files-shard.ts:129-139 | N times the weight of any shard is at most the weight of the manifest plus (N−1) times the heaviest file |
| ShardAssignment.OwnersIgnoreOrder | scripts/run-test-files-shard.ts:20-25 | any permutation of the manifest gives every file the same owner |
| ShardAssignment.OwnedKeepsOrder | scripts/run-test-files-shard.ts:140 | a shard's files stand in manifest order |
| ShardAssignment.SubsequenceAt | scripts/run-test-files-shard.ts:140 | of two files of a shard, the one in front stands further in front in the manifest |
| ShardAssignment.OwnedDistinct | scripts/run-test-files-shard.ts:140 | a shard of a duplicate-free manifest has exactly its own files, each once |
| ShardAssignment.ShardsConserveTotals | scripts/run-test-files-shard.ts:117-141 | for any quantity per file, the shards' totals add up to the manifest's |
| ShardAssignment.ShardsPartition | scripts/run-test-files-shard.ts:117-141 | all shards in a row are a permutation of the manifest |
| ShardAssignment.NonEmptyShards | scripts/run-test-files-shard.ts:190 | with positive weights shard i gets a file if and only if i ≤ min(N, number of files) |
| ShardAssignment.RoundRobin | scripts/run-test-files-shard.ts:20-25 | on a manifest in the order of UTF-16 units, with equal weights, file i goes to shard i mod N + 1 |
| SerialRun.ValidateTerminalManifest | scripts/run-test-files-serial.ts:263-299 | succeeds exactly if the allowlist has eleven entries with the pinned counts in place and every allowlisted file is in the manifest, and returns the sum of the skips |
| SerialRun.PinnedSkips | scripts/run-test-files-serial.ts:31-115 | the pinned allowlist fails a manifest only for a missing allowlisted file, and totals 42 skips |
| SerialRun.AllowlistTotal | scripts/run-test-files-serial.ts:263-299 | an allowlist in place skips between 42 and 49 tests |
| SerialRun.CheckFile | scripts/run-test-files-serial.ts:322-333 | a file passes exactly with exit 0, a parsable report, no failures and the expected skips, and then its summary is that of the report |
| SerialRun.FindRepeat | scripts/run-test-files-serial.ts:307-308 | finds the first repeated entry, which refuses the manifest exactly if it is not the empty string |
| SerialRun.RefusedWithoutEmptyPaths | scripts/run-test-files-serial.ts:307-308 | without empty paths the manifests refused are exactly those that repeat an entry |
| SerialRun.RunFilesSerially | scripts/run-test-files-serial.ts:301-356 | accepts exactly non-empty manifests whose first repeat, if any, is the empty path, with a valid allowlist, passing files and the promised skip total; the receipt holds all totals and the repeats; the final skip comparison fires only for manifests with repeats |
| SerialRun.ReceiptTells | scripts/run-test-files-serial.ts:346-355 | the receipt of an accepted run says that every discovered file was executed and passed, and counts repeats exactly when there are any |
| SerialRun.DistinctAccepted | scripts/run-test-files-serial.ts:301-356 | for a manifest without repeats nothing but its files and the allowlist decides |
| SerialRun.MembersOfDistinct | scripts/run-test-files-serial.ts:350 | the receipt reports no duplicates exactly for manifests without repeats |
| SerialRun.EmptyPathTwice | scripts/run-test-files-serial.ts:307-308 | an accepted manifest with the empty path is accepted with that path twice |
| SerialRun.RepeatedEmptyPathAccepted | scripts/run-test-files-serial.ts:307-308 | such an input: the pinned files and the empty path, twice |
| SerialRun.ExpectedTotal | scripts/run-test-files-serial.ts:294-298 | over a manifest with every allowlisted file once, the expected skips add up to the sum of the allowlist |
| SerialRun.PassingSkips | scripts/run-test-files-serial.ts:341-345 | if every file passes, the skips counted are the skips promised |
| SerialRun.AcceptedSkipTotal | scripts/run-test-files-serial.ts:341-345 | the receipt of an accepted run has as many skips as the allowlist promises, repeats or not |
| ShardRun.JunitFileNameInjective | scripts/run-test-files-shard.ts:85-87 | different positions have different report names, beyond four digits too |
| ShardRun.JunitFileNameMeaning | scripts/run-test-files-shard.ts:85-87 | the name is `junit-`, the position counted from 1 in decimal with at least four digits and no more zeros than that needs, and `.xml` |
| ShardRun.ReportAt | scripts/run-test-files-shard.ts:233-255 | after a run the report under each position's name is that file's report |
| ShardRun.EvidenceTells | scripts/run-test-files-shard.ts:211-290 | a passing shard's receipt has the schema, runner, status, shard, total, digest, size, duration and counts of that run |
| ShardRun.EntryTells | scripts/run-test-files-shard.ts:256-275 | an entry for a file that passes has its name, exit code, duration and the counts of its report |
| ShardRun.SelectRun | scripts/run-test-files-shard.ts:186-190 | goes on exactly with a manifest that is not refused, a valid allowlist, an index in range and a shard with files |
| ShardRun.RunAssigned | scripts/run-test-files-shard.ts:231-282 | succeeds exactly if every file passes; on failure the receipt and reports are those of the files before the first that fails |
| ShardRun.StoppedTells | scripts/run-test-files-shard.ts:231-282 | the evidence of a shard that stopped: status failed, the entries of exactly the files before, and the reports that those and the failing one left |
| ShardRun.RunShard | scripts/run-test-files-shard.ts:177-307 | no errors exactly if the manifest is valid, the shard has files, all pass and the repository did not change; the receipt has status passed exactly then; what is written otherwise tells of the files before the first that failed |
| ShardAggregate.CheckFileList | scripts/aggregate-shard-receipts.ts:224-237 | accepted exactly if the lists have the same files, none twice, and the same joined text |
| ShardAggregate.CheckEntry | scripts/aggregate-shard-receipts.ts:255-281 | accepted exactly if name, exit code, report, counts and skips agree |
| ShardAggregate.CheckShard | scripts/aggregate-shard-receipts.ts:214-313 | accepted exactly under the per-shard conditions, and then every file of the shard joins the union |
| ShardAggregate.CheckHeaders | scripts/aggregate-shard-receipts.ts:191-207 | accepted exactly if every receipt parses, names this total and an index in range, and no index comes twice |
| ShardAggregate.AggregateShardEvidence | scripts/aggregate-shard-receipts.ts:176-332 | accepts exactly if request, headers and every shard are accepted; the duplicate-across-shards, union and total-skip failures never occur |
| ShardAggregate.AcceptedRecords | scripts/aggregate-shard-receipts.ts:131-232 | every accepted receipt has schema 3, the shard runner, status passed, the requested total, an index in range, digest and size of the manifest, and assigned = executed = passed = its number of files |
| ShardAggregate.AcceptedEntryRecords | scripts/aggregate-shard-receipts.ts:240-281 | every entry of an accepted receipt has exit code 0, a file of the manifest, the name of its own report, and the counts of that report without failures and with the promised skips |
| ShardAggregate.ConcatDistinct | scripts/aggregate-shard-receipts.ts:282 | the files of accepted shards never repeat across shards |
| ShardAggregate.EveryShardReported | scripts/aggregate-shard-receipts.ts:195-207 | N receipts with distinct indices in range have exactly the indices 1 to N |
| ShardAggregate.AcceptedCoversManifest | scripts/aggregate-shard-receipts.ts:195-317 | accepted receipts list a permutation of the manifest |
| ShardAggregate.JunitDirectoryBijection | scripts/aggregate-shard-receipts.ts:248-294 | the reports of an accepted shard are in bijection with its files |
| ShardAggregate.AggregateSkips | scripts/aggregate-shard-receipts.ts:318-320 | accepted shards skip exactly what the allowlist promises |
| ShardAggregate.AcceptanceIgnoresOrder | scripts/aggregate-shard-receipts.ts:209-216 | evidence in another order is accepted or refused as a whole like before |
| ShardAggregate.JoinInjective | scripts/aggregate-shard-receipts.ts:237 | lists of newline-free paths with the same joined text are equal |
| ShardAggregate.AcceptedInOrder | scripts/aggregate-shard-receipts.ts:237 | for newline-free paths an accepted receipt lists its files in manifest order |
| ShardAggregate.SwapKeepsJoin | scripts/aggregate-shard-receipts.ts:237 | a path and that path twice around a newline can be swapped without changing the joined text |
| ShardRefinement.PassedEvidenceAccepted | scripts/run-test-files-shard.ts:211-290 | what a passing shard writes is accepted by the aggregator's checks of that shard |
| ShardRefinement.RanEvidenceAccepted | scripts/aggregate-shard-receipts.ts:218-300 | of files that pass, the evidence of a run in any order is accepted if and only if the file list check lets that order through |
| ShardRefinement.AcceptedHasNoEmptyPath | scripts/aggregate-shard-receipts.ts:149-150 | no manifest with an empty path is ever accepted |
| ShardRefinement.ShardedRefinesSerial | scripts/aggregate-shard-receipts.ts:176-332 | for any outcome of the files, and for shards collected in any order, the aggregator accepts if and only if the serial runner does, no shard is empty, no path is empty and no repository changed under its shard |
| ShardRefinement.ShardedTotalsAgree | scripts/aggregate-shard-receipts.ts:302-331 | and then tests, assertions, skips, executed and passed files are those of the serial receipt |
| ShardRefinement.AcceptedEvidenceReplays | scripts/aggregate-shard-receipts.ts:176-332 | any accepted evidence defines file outcomes, with the exit codes its entries record, that the serial runner accepts with the same totals |
| ShardRefinement.NewlinePathsDefeatOrderCheck | scripts/aggregate-shard-receipts.ts:237 | a manifest with a newline in a path, and evidence of a run in another order that the aggregator accepts |
| OwnedSnapshot.SnapshotReadonlyMap | packages/cli/src/runtime/adapter.ts:103-165 | copies a map's entries in order into a fresh facade that is entered in the memo first |
| OwnedSnapshot.SnapshotOwnedValue | packages/cli/src/runtime/adapter.ts:167-213 | keeps the memo a partial isomorphism between reached objects and fresh copies, changes no source object, and terminates on cycles |
| OwnedSnapshot.CopyObject | packages/cli/src/runtime/adapter.ts:178-213 | the copy of an array, record or error has the source's own properties in order, frozen |
| OwnedSnapshot.SnapshotOutcome | packages/cli/src/runtime/adapter.ts:369-381 | succeeds exactly if nothing reachable is another kind of object or a facade and nothing holds a function, and an error names what is there; then every reachable object has one fresh frozen image: errors become plain errors, maps facades, arrays and records keep their kind |
| OwnedSnapshot.ImageTells | packages/cli/src/runtime/adapter.ts:167-213 | an image has its source's kind, keys in order, enumerability, length and entries, with images for references, locked properties and itself frozen |
| OwnedSnapshot.SupportedTells | packages/cli/src/runtime/adapter.ts:167-189 | unsupported are exactly other prototypes, facades, and functions held or passed |
| OwnedSnapshot.SomethingReachable | packages/cli/src/runtime/adapter.ts:167-213 | within any closed set of objects around an outcome there is the set of what it reaches |
| OwnedSnapshot.CopiedIsClosed | packages/cli/src/runtime/adapter.ts:174-175 | everything reachable from the outcome has an image |
| OwnedSnapshot.ImageIsClosed | packages/cli/src/runtime/adapter.ts:190-212 | images refer to images only, never to a source object |
| OwnedSnapshot.ImageLooksTheSame | packages/cli/src/runtime/adapter.ts:190-212 | no observation of any depth tells an image from its source |
| OwnedSnapshot.WriteLater | packages/cli/src/runtime/adapter.ts:198-212 | no sequence of writes, to sources, images or other objects, changes any observation of an image |
| OwnedSnapshot.SnapshotThenWrites | packages/cli/src/runtime/adapter.ts:369-381 | after a snapshot and any writes every part looks, to every depth, as its source did when the snapshot was taken |
| OwnedSnapshot.FacadeGet | packages/cli/src/runtime/adapter.ts:123-128 | finds the value of the first entry with that key, or nothing exactly if no entry has it |
| OwnedSnapshot.FacadeGetMatches | packages/cli/src/runtime/adapter.ts:123-128 | looking an image up in a facade finds the image of what the source map holds |
| ReceiptBatch.SignedReceiptObject | scripts/p17-catalog.ts:247-255 | names the last argument exactly if the query has one of the two command forms and that argument is a full commit id followed by `^{commit}` or a path |
| ReceiptBatch.PinnedQueries | scripts/p17-catalog.ts:247-255 | the pinned queries are exactly `cat-file -e` and `show` with forty hexadecimal digits and `^{commit}`, or a colon and a single non-empty line |
| ReceiptBatch.BlankPoints | scripts/p17-catalog.ts:276-277 | a name is blank where the UTF-8 form of NUL or of ECMA-262 white space stands |
| ReceiptBatch.Requests | scripts/p17-catalog.ts:274-278 | the requests are exactly the eligible queries, each once |
| ReceiptBatch.RequestsInOrder | scripts/p17-catalog.ts:274-278 | the requests keep the order in which their queries first appear |
| ReceiptBatch.LinesText | scripts/p17-catalog.ts:281-284 | the batch asks for one name a line |
| ReceiptBatch.DecodeFrame | scripts/p17-catalog.ts:292-312 | a framed reply is read back with any body, newlines and header look-alikes included |
| ReceiptBatch.DecodedWasFramed | scripts/p17-catalog.ts:292-312 | whatever the loop reads was framed exactly so |
| ReceiptBatch.DecodeUndoesFraming | scripts/p17-catalog.ts:290-313 | decoding the framing of any valid replies returns them |
| ReceiptBatch.DecodedWasAllFramed | scripts/p17-catalog.ts:290-313 | output that decodes is the framing of what it decodes to |
| ReceiptBatch.CutOrExtendedOutputRefused | scripts/p17-catalog.ts:293-294 | no proper prefix and no proper extension of a framing decodes |
| ReceiptBatch.FrameText | scripts/p17-catalog.ts:296-304 | the framing, as text: a name and ` missing`, or id, kind and decimal size, then the body, each ended by a newline |
| ReceiptBatch.Bounds | scripts/p17-catalog.ts:245-289 | output is usable with exit code 0 and at most 33554432 bytes; bodies are below 2^53 bytes |
| ReceiptBatch.DecodeReplies | scripts/p17-catalog.ts:288-314 | the loop returns the usable reads of the one list of replies the output frames, or nothing |
| ReceiptBatch.ObservedExactly | scripts/p17-catalog.ts:307-312 | an existence query is answered by a commit, with empty output, a content query by a blob, with its body, and nothing else is |
| ReceiptBatch.ReadSignedReceiptBatch | scripts/p17-catalog.ts:270-314 | nothing for no request, a thrown or failed read, or oversized output; otherwise what the output frames |
| ReceiptReader.SignedReceiptGitReader.Query | scripts/p17-catalog.ts:322-345 | one query answers and changes the reader's state as the memo with prefetch prescribes |
| ReceiptReader.AnswerTransparent | scripts/p17-catalog.ts:322-345 | with a memo that agrees with the repository the answer is the repository's, and the memo keeps agreeing |
| ReceiptReader.RunTransparent | scripts/p17-catalog.ts:316-346 | over every sequence of queries the answers are those of individual reads |
| ReceiptReader.SuccessIsRemembered | scripts/p17-catalog.ts:338-343 | a pinned success is answered again without git, whatever git would say by then; a failure is asked again |
| ReceiptReader.PrefetchServes | scripts/p17-catalog.ts:326-340 | a prefetched success is answered without git |
| ReceiptReader.OthersPassThrough | scripts/p17-catalog.ts:322-325 | a query that is not pinned goes to git and leaves memo and prefetch as they were |
| ReceiptReader.PrefetchedOnce | scripts/p17-catalog.ts:326-328 | the prefetch runs once if a pinned object is asked for, and never otherwise |
| ReceiptReader.FailuresNeverCached | scripts/p17-catalog.ts:331-343 | only successful results are ever in the memo |
| ReceiptReader.BatchIsHonest | scripts/p17-catalog.ts:270-314 | a batch whose output frames what the object store holds observes what individual reads return |
| ReceiptReader.BatchedReaderTransparent | scripts/p17-catalog.ts:270-346 | the reader fed by the batch answers every sequence of queries like individual reads |
| NameStatus.ParseGitNameStatus | scripts/p17-catalog.ts:350-371 | returns the changes that print as the output, or nothing if no well-formed non-empty list does |
| NameStatus.PrintInjective | scripts/p17-catalog.ts:350-371 | an output prints at most one list of changes |
| NameStatus.StatusForms | scripts/p17-catalog.ts:356-364 | a status is one of seven letters with one path, or R or C with one to three digits and two paths |
| NameStatus.PrintForms | scripts/p17-catalog.ts:350-371 | a change is its status and its paths, each with a NUL behind it |
| NameStatus.ShowsExactDeletion | scripts/p17-catalog.ts:412-422 | true exactly if the output prints a list with one record that mentions the path, a plain deletion |
| NameStatus.MentionedOnce | scripts/p17-catalog.ts:412-422 | a list mentions a path in one change alone exactly if that is the only change with the path among its own |
| CatalogGraph.DependencyWalk.Visit | scripts/p17-catalog.ts:1854-1861 | fails only with a cycle in reach; otherwise adds to the finish order exactly what is newly reachable, in topological order |
| CatalogGraph.VisitAll | scripts/p17-catalog.ts:1852-1862 | succeeds if and only if nothing reachable from the groups lies on a cycle, and then the order is topological and holds exactly the reachable ids |
| CatalogGraph.TopologicalHasNoCycle | scripts/p17-catalog.ts:1852-1862 | a graph with a topological order of what is reachable has no cycle there |
| CatalogGraph.Closure.Collect | scripts/p17-catalog.ts:1466-1472 | adds exactly the ids reachable through ids that were not yet in the set, and terminates on cycles |
| CatalogGraph.AvailableByClosure | scripts/p17-catalog.ts:1464-1494 | the closure with the group itself is exactly what is reachable from the group |
| CatalogGraph.AvailableByCollection | scripts/p17-catalog.ts:2364-2372 | so is the set that validation collects |
| CatalogGraph.CheckSplit | scripts/p17-catalog.ts:2373-2388 | passes exactly if the two lists together are the impacted validations and owners are within and outside reach |
| CatalogGraph.BuiltSplitPasses | scripts/p17-catalog.ts:1495-1501 | the split that is built passes if and only if every impacted validation has a non-empty owner |
| CatalogGraph.OwnerlessSplitFails | scripts/p17-catalog.ts:1495-1501 | an impacted validation without an owner makes the built split fail |
| GateProgress.CheckGateOrder | scripts/p17-catalog.ts:1820-1825 | passes exactly if no gate passed behind one that did not |
| GateProgress.InOrderExactly | scripts/p17-catalog.ts:1820-1825 | gates are in order exactly if the first ones passed, up to some number, and none behind them |
| GateProgress.RequireExactProgress | scripts/p17-catalog.ts:2398-2405 | the two slice scans pass exactly if the first gates passed and the others are pending |
| GateProgress.RequireActive | scripts/p17-catalog.ts:2418-2429 | the scan from the first pending gate passes exactly if some number of gates within the bounds passed and the others are pending |
| GateProgress.RequireStop | scripts/p17-catalog.ts:2435-2447 | the scans around the first failed (or blocked) gate pass exactly if everything before some such gate passed and everything behind it is pending |
| GateProgress.RequireBlocked | scripts/p17-catalog.ts:2323-2336 | the same for the first gate that is either |
| CatalogValidation.CheckGroups | scripts/p17-catalog.ts:1782-1850 | passes exactly if every group keeps its plan, its gate order, its reviewer rule, depends on groups in no later phase and names validations that exist |
| CatalogValidation.CheckEntityRecord | scripts/p17-catalog.ts:1945-2011 | passes exactly if groups, status, tier, relations and traceability of the entity are in order |
| CatalogValidation.CheckEntityRecords | scripts/p17-catalog.ts:1873-2011 | passes exactly if every entity is and no identifier comes twice |
| CatalogValidation.CheckPhaseRecord | scripts/p17-catalog.ts:2248-2341 | the ordered checks on names, status, entry, review, approval, exit and gates decide the rules of a phase |
| CatalogValidation.CheckPhases | scripts/p17-catalog.ts:2234-2342 | passes exactly if every phase keeps its plan and its rules |
| CatalogValidation.CheckProgress | scripts/p17-catalog.ts:2397-2447 | the scans by status decide whether the gates match the status of a group and whether it has work |
| CatalogValidation.CheckGroupSplit | scripts/p17-catalog.ts:2364-2388 | the split checks decide whether the two lists part the impacted validations by whether the dependency graph reaches their owners |
| CatalogValidation.CheckClaims | scripts/p17-catalog.ts:2448-2472 | the loops decide reviewer, owned entities and required validations |
| CatalogValidation.CheckGroupState | scripts/p17-catalog.ts:2344-2473 | one turn decides all rules on the state of a group |
| CatalogValidation.CheckGroupStates | scripts/p17-catalog.ts:2344-2473 | passes exactly if every group keeps them, and otherwise names the first that does not |
| CatalogValidation.CheckKeepsUp | scripts/p17-catalog.ts:2505-2530 | failed, blocked and skipped entities need a group that stands still like them, the others a gate that passed |
| CatalogValidation.CheckEntityState | scripts/p17-catalog.ts:2488-2531 | one turn decides entry, dependencies and progress of the group of an entity that moved |
| CatalogValidation.CheckEntityStates | scripts/p17-catalog.ts:2488-2531 | passes exactly if no entity is ahead of its group, and otherwise names the first that is |
| CatalogValidation.CheckFinal | scripts/p17-catalog.ts:2552-2614 | the final checks decide the rules on final review, approval and sign-off |
| CatalogValidation.Validate | scripts/p17-catalog.ts:1741-2615 | no failure exactly if the catalog is sound: said of its records alone, and equally by all record rules, an acyclic dependency graph, splits by reach and the final rules |
| CatalogSoundness.AcceptedIsSound | scripts/p17-catalog.ts:1741-2615 | the rules accept exactly the sound catalogs, which are defined by membership, chains of groups and written-out gates, and without the checks that others imply |
| PhaseNames.PhaseOrder | scripts/p17-catalog.ts:1829-1840 | written phases compare by number, and among equal numbers the one without a letter comes first and then the letters |
| PhaseNames.RankedIsWritten | scripts/p17-catalog.ts:1829-1833 | a phase has a rank only if it is a number, with or without zeros in front, and at most one capital letter |
| PhaseNames.WrittenOnce | scripts/p17-catalog.ts:1829-1833 | a phase is read as one number and one letter only |
| CatalogHistory.ExitedPhaseClosed | scripts/p17-catalog.ts:2280-2306 | an exited and approved phase passed its four gates, its groups are signed off and their entities signed off or deferred |
| CatalogHistory.EnteredPhaseHistory | scripts/p17-catalog.ts:2274-2279 | once a phase is entered every earlier phase is closed |
| CatalogHistory.ClosureSignedOff | scripts/p17-catalog.ts:2389-2396 | if a group's direct dependencies are signed off, so is everything it depends on |
| CatalogHistory.ReachesNoLater | scripts/p17-catalog.ts:1829-1840 | however indirectly a group depends on another, that one exists and its phase has a smaller number, or the same and no later a letter |
| CatalogHistory.AdvancedGroupHistory | scripts/p17-catalog.ts:2389-2396 | a group past planned has its whole dependency closure signed off and all earlier phases closed |
| CatalogHistory.AdvancedEntityHistory | scripts/p17-catalog.ts:2488-2504 | so has the group of every entity past planned |
| CatalogHistory.RequiredNowExactly | scripts/p17-catalog.ts:2373-2388 | the validations a group must have green now are exactly the impacted ones owned within its reach, and the others are downstream |
| CatalogHistory.RequiredNowDone | scripts/p17-catalog.ts:2465-2472 | behind a passed impacted-green gate every such validation is green, and signed off with its group if that is another one |
| CatalogHistory.BuiltSplitAccepted | scripts/p17-catalog.ts:1495-1501 | in a catalog whose records are well-formed, and whose groups all have a name, the split built from it is always sound |
| CatalogHistory.PhaseSevenUntouched | scripts/p17-catalog.ts:2265-2267 | no group of phase 7 has moved |
| CatalogHistory.FinalSignoffMeansDone | scripts/p17-catalog.ts:2558-2607 | a passed final sign-off means every entity that is not deferred is signed off, every group outside phase 7 passed all gates, phases 0 to 6 are closed |
| OptionSpellings.Record | packages/cli/src/program.ts:129-143 | one more declaration is recorded, or conflicts with one recorded before |
| OptionSpellings.ValueOptionSpellings | packages/cli/src/program.ts:124-152 | the maps hold exactly the value options of consistent specs; an error names a spelling declared with both shapes |
| OptionSpellings.ConflictTells | packages/cli/src/program.ts:129-143 | a conflict is two declared options with one spelling, both long or both short, and the two shapes |
| OptionSpellings.CheckedTogether | packages/cli/src/program.ts:526 | once all specs passed together no single spec has a conflict |
| OptionSpellings.TablesAgree | packages/cli/src/program.ts:526 | a command's own table gives a spelling the shape that the table of all commands gives it |
| OptionSpellings.SpellingsTell | packages/cli/src/program.ts:124-152 | a spelling has a value shape exactly if an option of the specs declares it so |
| EagerScan.PathSplits | packages/cli/src/program.ts:195-198 | a path is its parent path, a space and its last word, which has no space |
| EagerScan.DirectChild | packages/cli/src/program.ts:188-200 | the first spec that is a child of the parent, by attachment or path, and is named by the token |
| EagerScan.ClosedStays | packages/cli/src/program.ts:238-244 | an operand that names no command freezes the active command |
| EagerReference.WalkLeads | packages/cli/src/program.ts:238-244 | a word leads to the first child of the active command that it names; without one the active command stays and the path closes |
| EagerReference.OwnOptionTakesNext | packages/cli/src/program.ts:202-224 | behind a command's word, a long option that only this command requires a value for takes the next token, whatever it is |
| EagerScan.FirstValued | packages/cli/src/program.ts:226-236 | the first flag of a cluster that takes a value |
| EagerScan.ReadingsCover | packages/cli/src/program.ts:205-246 | the items of an invocation are its tokens, all of them, in order |
| EagerScan.ClusterConsumes | packages/cli/src/program.ts:226-236 | the loop over a cluster takes the next token exactly if the grammar makes it the value |
| EagerScan.ScanToken | packages/cli/src/program.ts:214-246 | one turn accounts for exactly the tokens of the item in front |
| EagerScan.ScanScopes | packages/cli/src/program.ts:202-247 | the scopes are those of the grammar's items, with holes at values and behind the terminator |
| EagerScan.HolesAreValues | packages/cli/src/program.ts:205-220 | the holes are exactly the tokens that belong to an item without starting it |
| EagerScan.VerdictMeaning | packages/cli/src/program.ts:254-276 | the first deciding flag asks for the version if and only if a version flag has no help flag in front of it |
| EagerScan.ClusterVerdict | packages/cli/src/program.ts:267-275 | the loop over a cluster decides by its flags in front of the first that takes a value |
| EagerScan.RequestsEagerVersion | packages/cli/src/program.ts:250-278 | true exactly if, among the free flags in front of the terminator, a version flag comes before any help flag |
| EagerScan.EagerValueOptionScopes | packages/cli/src/program.ts:176-248 | the scopes of the grammar that the specs define, or a conflict within one spec |
| EagerReference.ScopesAreMarks | packages/cli/src/program.ts:176-248 | the scopes are those of one pass over the tokens that keeps only the active command and whether words still name commands |
| EagerScan.EagerVersionRequested | packages/cli/src/program.ts:530-540 | both passes together answer what the one grammar says |
| EagerScan.CheckedVersionRequested | packages/cli/src/program.ts:525-540 | after the check of all specs every parse gets an answer |
| EagerReference.AskedIsVersionRequested | packages/cli/src/program.ts:250-278 | the grammar's answer is that of one pass over the tokens, for all grammars and invocations |
| EagerReference.DoctorExamples | tests/ergonomics/phase/EWP-P1-TS07.test.ts:725-730 | `doctor --file --version` does not ask for the version when doctor's own option requires a value; `--file --version` without the command does |
| EagerScan.LookupOrderIrrelevant | packages/cli/src/program.ts:159-174 | for checked specs, looking in the active command first would give the same shapes |
| EagerScan.AttachedValueNeverCounts | packages/cli/src/program.ts:267-275 | what is attached to an option in a cluster never changes the flags |
| EagerScan.ValueNeverCounts | packages/cli/src/program.ts:250-278 | replacing a consumed value, or a token behind the terminator, leaves the free flags of the whole invocation the same |
| EagerScan.PresentedFlags | packages/cli/src/program.ts:323-350 | quiet, debug and verbose count flags anywhere in front of the terminator |
| EagerScan.PresentedColor | packages/cli/src/program.ts:331-335 | the last colour that is selected wins |
| EagerScan.EagerPresentationOptions | packages/cli/src/program.ts:310-357 | the pass finds exactly the quiet, debug and verbose flags and the last colour of the grammar's items |
| EagerReference.ShownIsPresented | packages/cli/src/program.ts:310-357 | quiet, debug, verbosity and colour are those of one pass over the tokens, spelling by spelling |
| Utf16.WellPairedMeansNoneUnpaired | packages/cli/src/completion/transport.ts:20-21 | text is well paired if and only if the surrogate pattern finds nothing |
| Utf16.SurrogateBits | packages/cli/src/completion/transport.ts:18-21 | surrogates are the units with the leading bits 110110 and 110111 |
| HumanText.DisplayByUnit | packages/cli/src/output/human-text.ts:2-16 | going through characters escapes the same as going through code units |
| HumanText.DisplayIsControlFree | packages/cli/src/output/human-text.ts:2-16 | displayed text has no control character and no line separator |
| HumanText.DisplayFixes | packages/cli/src/output/human-text.ts:2-16 | text is displayed as it is if and only if it has none of them |
| HumanText.DisplayIdempotent | packages/cli/src/output/human-text.ts:2-16 | displaying displayed text changes nothing |
| HumanText.DisplayLosesTheDifference | packages/cli/src/output/human-text.ts:2-16 | two different texts with the same display |
| HumanForms.DisplayExactly | packages/cli/src/output/human-text.ts:2-16 | unit by unit: controls, delete and line separators as a backslash, u and four hexadecimal digits, `null` for none, everything else as it is |
| HumanText.QuoteRoundTrip | packages/cli/src/output/human-text.ts:19-31 | a reader for the three escapes gets every text back, lone surrogates included, and what follows the closing quote |
| HumanText.QuoteInjective | packages/cli/src/output/human-text.ts:18-31 | quoted text in front of anything determines both the text and what follows |
| HumanText.QuotedIsClean | packages/cli/src/output/human-text.ts:18-31 | quoted text has no controls, no line separators and no unpaired surrogate |
| HumanForms.QuoteExactly | packages/cli/src/output/human-text.ts:18-31 | unit by unit: a backslash in front of quotes and backslashes, escapes for lone surrogates and what display escapes, pairs as they are |
| StatusArgv.QuotedArgRead | packages/cli/src/output/status-human.ts:42 | a quoted argument in front of any line is read as one word, its display form |
| StatusArgv.ArgvTokenizes | packages/cli/src/output/status-human.ts:43-44 | a printed argv is read by a POSIX shell as one word per argument, empty ones and quotes included |
| StatusArgv.ArgvFaithful | packages/cli/src/output/status-human.ts:42-44 | the words are the arguments if and only if no argument has a control character |
| StatusArgv.ArgvIsNotUnavailable | packages/cli/src/output/status-human.ts:43-44 | no list of arguments prints like an absent one |
| StatusArgv.ArgvIsControlFree | packages/cli/src/output/status-human.ts:42-44 | a printed argv stays on its line |
| HumanForms.ArgvForms | packages/cli/src/output/status-human.ts:43-44 | one quoted argument after the other with a space between two |
| HumanForms.QuoteArgForms | packages/cli/src/output/status-human.ts:42 | display text between apostrophes, in which each apostrophe closes the quotes, stands escaped and opens them again |
| CompletionProtocol.DirectiveMask | packages/cli/src/completion/transport.ts:58-62 | a directive is valid if and only if it is a safe integer whose residue modulo 2^32 is one of eight numbers |
| CompletionProtocol.DirectiveWraps | packages/cli/src/completion/transport.ts:58-62 | adding a multiple of 2^32 below the safe limit never changes validity |
| CompletionProtocol.PrintedLine | packages/cli/src/completion/transport.ts:64-72 | a printed candidate passes the checks of its line and is read back |
| CompletionProtocol.LineIsPrinted | packages/cli/src/completion/transport.ts:64-72 | a line that passes is the print of a well-formed candidate |
| CompletionProtocol.ListingUnique | packages/cli/src/completion/transport.ts:45-74 | a text prints at most one listing |
| CompletionProtocol.FailClosedIsNoListing | packages/cli/src/completion/transport.ts:5 | the fail-closed line is not a listing, so the two outcomes cannot be confused |
| CompletionProtocol.ScanCandidates | packages/cli/src/completion/transport.ts:64-73 | the scan succeeds exactly if every line is a candidate |
| CompletionProtocol.ListingsExactly | packages/cli/src/completion/transport.ts:40-72 | a listing has at most 256 candidates of clean text, and a directive below 2^53 with one of eight residues; a candidate without description does not look like a directive |
| CompletionProtocol.PrintForms | packages/cli/src/completion/transport.ts:64-72 | a candidate is a line with its value and, behind a tab, its description; the directive is the last line, behind a colon |
| CompletionProtocol.Utf8LengthExactly | packages/cli/src/completion/transport.ts:49-51 | the size is that of the UTF-8 form, with U+FFFD for a lone surrogate |
| CompletionProtocol.NumeralDenotes | packages/cli/src/completion/transport.ts:57-62 | the decimal form of every number is read as that number |
| CompletionProtocol.ValidateCompletionProtocol | packages/cli/src/completion/transport.ts:45-76 | returns its input if that prints a listing of at most 256 candidates and a valid directive within the size limit, and the fail-closed line otherwise |
| CompletionProtocol.ValidatedIdempotent | packages/cli/src/completion/transport.ts:45-76 | validating twice is validating once, and the fail-closed line comes out exactly for what is no listing |
| ReadmeRegions.RegionsAreSound | scripts/generate-command-reference.ts:12-17 | the four markers and two anchors are such that none can straddle the border of generated text |
| ReadmeForms.FoundFirst | scripts/generate-command-reference.ts:107-129 | a search finds the first place where the marker or anchor stands, or there is none |
| ReadmeForms.CountedPlaces | scripts/generate-command-reference.ts:19 | splitting at a marker counts the places where it stands |
| ReadmeForms.ValidExactly | scripts/generate-command-reference.ts:21-43 | accepted are no markers, or one start and one end behind it; one of each the other way round is reported as reversed, anything else as unpaired |
| ReadmeForms.RegionReplaced | scripts/generate-command-reference.ts:107-112 | the region from the first start marker to the end marker is replaced, markers included |
| ReadmeForms.RegionInserted | scripts/generate-command-reference.ts:113-116 | without such a region the text goes in front of the first anchor behind an empty line, and a missing anchor is an error |
| ReadmeRegions.Pieces | scripts/generate-command-reference.ts:107-129 | around generated text occurrences add up and the first one is the first in its part |
| ReadmeRegions.ValidEdit | scripts/generate-command-reference.ts:107-115 | valid text is edited at its only region, or in front of the anchor, with no markers outside |
| ReadmeRegions.Settled | scripts/generate-command-reference.ts:107-129 | a generated region with no other markers around it is valid and replaced by itself |
| ReadmeRegions.EditBesideStays | scripts/generate-command-reference.ts:149-152 | two regions written beside each other both stay, and all other text is unchanged |
| ReadmeRegions.FirstDropped | scripts/generate-command-reference.ts:149-152 | a second region that encloses the first drops it |
| ReadmeRegions.HalfRegionIsRefused | scripts/generate-command-reference.ts:149-152 | when one marker of the second region was overwritten, the result has that region's other marker twice |
| ReadmeRegions.CheckAgreesWithWrite | scripts/generate-command-reference.ts:131-162 | for all files, the check is silent if and only if writing succeeds and leaves them as they are |
| ReadmeForms.ReportedExactly | scripts/generate-command-reference.ts:131-145 | reported are the markers of the index, those of the matrix, a stale reference, and a stale README only if there is nothing else |
| ReadmeRegions.WrittenPassesCheck | scripts/generate-command-reference.ts:131-162 | what is written passes the check if and only if the matrix leaves the place of the index alone, and then only the two regions have changed |
| ReadmeRegions.WriteIdempotent | scripts/generate-command-reference.ts:147-162 | for such a README writing twice is writing once |
| ReadmeRegions.NestedIndexFails | scripts/generate-command-reference.ts:107-162 | a README with the index inside the matrix: writing succeeds and the check then complains |

## Left out

- File system, processes, Git invocation, temporary directories and the clock: test outcomes, Git replies, times and digests are parameters.
- JUnit XML: `parseJUnitSummary` is an abstract partial function of the report and the expected file.
- Receipts arrive typed: the key lists and type tests of `parseShardReceipt` are not modelled, its value tests are (`ShardAggregate.ReceiptParses`).
- The timing summary in the aggregate receipt, log output, and the checks on the repository before a shard run (`requireCleanRepository`, `captureRepositoryIdentity`); the verdict of `finalizeSuccessfulRun` is a parameter.
- Probing which environment-gated skips apply: the runners take the allowlist as a parameter, and `PINNED_CAPABILITY_SKIPS` is the one both sharded scripts use.
- Weights and sums are unbounded integers: totals beyond 2^53 are not modelled.
- Non-integer shard totals and indices: they are integers here, so the `Number.isInteger` tests hold.
- Accessors, proxies and symbol keys of snapshot sources; a thrown getter, and a map whose iterator writes to the map while it is copied.
- The `has`, `keys`, `values` and `forEach` methods of a map facade; they read the same frozen entries as `get` and `entries`.
- Git object names are UTF-8 bytes; names with unpaired surrogates and undecodable headers are not modelled.
- Git revision lookup, path canonicalisation and error handling of `gitRecordsExactDeletion` before its output is parsed.
- Of `validate`: key lists, counts, baselines of immutable entity fields, executable targets and signed receipts. The P14 handoff reference is a flag, and so is the presence of a target.
- CatalogValidation.CheckGroups: does not model evidence references and their binding to the group, or the state of owned paths, which are looked up in files.
- CatalogValidation.CheckEntityRecord: does not model evidence references, planned targets and receipts, which are looked up in files and by regular expressions.
- CatalogValidation.CheckPhases: does not model that gates which are not pending cite evidence that resolves.
- CatalogValidation.Validate: does not model what the three lines above leave out; failures carry the record and the rule, not the message.
- `terminalP17` and its package check, which require another approver.
- Commander, rendering, colour resolution, exit codes, interaction policy and the release gates: presentation and finite tables.
- `invocationFromParse`, which prepares the argument vector, and tokens that are `undefined`.
- A command spec occurs once in the list of specs, so positions stand for object identity.
- Option clusters are read by characters; a flag outside the basic plane counts as one and not as two units.
- `effectiveCwd` and `validInput` of the completion transport, and the parsing of the completion graph.
- What the generated README regions say: the renderers are any text between the right markers that has no other marker and not the other region's anchor inside.
- Shell rules beyond sections 2.2.1 and 2.2.2: the tokenizer refuses a line that would need them.
