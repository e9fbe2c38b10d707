# Verification of the build machinery

The scripts of this repository schedule gates, order builds, share a snapshot
cache and a host-wide lease between processes, read Lean and Markdown text, and
keep a registry of pinned references. This project models those parts in Dafny
and proves what they promise over every input, every interleaving and every run.

* `GateModel`, `GateScheduler`, `GateSequential`, `GateTable`, `GateRunner`: the
  gate runner. Its parallel loop is a step system with completions in any order;
  confluence, the invariant of all states, the exact agreement with the
  sequential branch, and the verdict for the shipped table are proved.
* `CacheLock`, `SnapshotFiles`, `SnapshotCache`: the incremental
  launcher. Launchers are threads of processes under a two-level lock; they may
  crash between any two file operations, inputs may change at any moment, and
  files may be damaged from outside. Contents are compared through a digest
  taken as injective.
* `ProcessLease`, `LeaseProtocol`: the lease. The waiting loop runs against an
  arbitrary environment with a clock that advances by at least a second per
  sleep; the protocol covers nested launchers and crashes.
* `Graphs`, `ImportWalks`, `BuildWaves`, `OwningLibrary`: one abstract import
  graph for the depth-first order, the level search and the worklist.
* `Comments`, `Declarations`, `Headings`, `ListItems`: text structure.
* `Reviewers`, `CachePaths`, `References`, `ReferenceStore`, `HeadingAnchors`,
  `Locators`: the reference registry, its cache and its locators.
* `LineEndings`, `BlobFraming`, `IndexRecords`, `SourceCensus`: the source census.
* `Fnv`: the 64-bit FNV-1a hash of draft-eastlake-fnv, section 2.
* `Options`, `Runs`, `Text`, `Decimal`: shared notions.

Loops and objects of the scripts are methods and classes here, proved against
functions and predicates; protocols are step systems.

Where the code does something other than its comments or documentation say, the
model follows the code:

* The sequential branch of the gate runner tolerates a dependency whose runner is
  unavailable and the parallel one does not (`GateSequential.BranchesAgreeIff`).
* The comment on the adaptive memory reserves says that they cannot exceed what
  the machine owns; that holds exactly from 4 GiB and 2 GiB on
  (`ProcessLease.DefaultsFitTheMachine`).
* A prune cut short after the first unlink leaves companions which, against the
  comment there, no later refresh removes (`SnapshotCache.LeftoverReached`, `SnapshotCache.PruneEmptiesIff`).
* The string-aware comment stripper does not always retain the line shape
  (`Comments.AwareKeepsLinesIff`).
* Heading anchors are not always unique (`HeadingAnchors.UniqueIffNoClash`).
* A review note of spaces is accepted by the command and refused by the schema
  (`References.AcknowledgedLoadsIff`, `References.BlankNoteSlips`).
* The schema asks nothing of a slug but that it is not blank, so that two of them
  can name one cache file (`References.PinsKeptIff`).
* The declaration pattern does not ask for the keyword to end, so that a line
  starting with `definition` or `classical` takes the occurrences below it from
  the declaration above (`Declarations.NotTakenIff`).

`dafny verify dfyconfig.toml` checks the whole project.

## Model

| member | source | states |
|---|---|---|
| `GateScheduler.InvKept` | scripts/run_gates.py:1474-1551 | every step (skip a blocked gate, start a ready one, record a completion) keeps: pending, in-flight and recorded gates partition the selection; every row is justified; no gate starts twice or before its dependencies passed; what was announced is what is recorded |
| `GateScheduler.RunKeepsInv` | scripts/run_gates.py:1474-1551 | the same in every reachable state, for every order of completions |
| `GateScheduler.RunsAreShort` | scripts/run_gates.py:1478-1520 | a run never has more steps than 2 · pending + in-flight at its start |
| `GateScheduler.Progress` | scripts/run_gates.py:1478-1516 | with acyclic dependencies a state that is not final always has a step |
| `GateScheduler.RunsConfluent` | scripts/run_gates.py:1477-1551 | any two complete runs, whatever order completions arrive in, record every gate and give each the same status class and exit code |
| `GateScheduler.OutcomeUnique` | scripts/run_gates.py:1481-1504 | the rule "skipped if a selected dependency did not pass, else the own outcome" has one solution on acyclic selections |
| `GateModel.OwnRowReports` | scripts/run_gates.py:1522-1536 | the row of a gate that ran is PASS exactly for exit 0, RUNNER UNAVAILABLE exactly for exit 2 where that is allowed, TIMEOUT, ERROR or FAIL exactly for the remaining outcomes, with the exit code recorded |
| `GateScheduler.ParallelExplained` | scripts/run_gates.py:1481-1543 | being a parallel result is exactly that, gate by gate, on commands and declared dependencies |
| `GateScheduler.PassIffClosureClean` | scripts/run_gates.py:1477-1551 | a gate ends as PASS exactly when its command and those of all gates it depends on, directly or not, exited 0, and is skipped exactly when one it depends on did not |
| `GateScheduler.FinishesIffAcyclic` | scripts/run_gates.py:1478-1517 | the loop can finish for every outcome exactly when the dependencies of the selection are acyclic; on a cycle it would wait forever |
| `GateScheduler.SkipBlockedAndCollectReady` | scripts/run_gates.py:1479-1504 | one scan skips and collects by the results as they stood when it began, and leaves exactly the gates that are neither blocked nor ready |
| `GateScheduler.StartReady` | scripts/run_gates.py:1506-1514 | the collected gates move from pending to in flight, keeping the invariant |
| `GateScheduler.RecordDone` | scripts/run_gates.py:1517-1543 | whatever non-empty set of futures completed, each of those gates gets its own row, and no other row appears or changes |
| `GateScheduler.RunParallel` | scripts/run_gates.py:1469-1551 | the loop ends with one row per selected gate and an announcement log that matches; a gate is skipped exactly when a selected dependency did not pass, and else its row says, status by status, how its command ended |
| `GateSequential.RunSequential` | scripts/run_gates.py:1552-1594 | the sequential loop skips a gate exactly when a selected dependency stands later or ended neither as PASS nor without a runner, and else its row says, status by status, how its command ended; it starts exactly the gates it does not skip |
| `GateSequential.SequentialExplained` | scripts/run_gates.py:1553-1594 | being a sequential result is exactly that, gate by gate |
| `GateSequential.StrictOrderIsParallel` | scripts/run_gates.py:1477-1594 | run in dependency order under the strict rule, the sequential result is a parallel result |
| `GateSequential.OrderedBranchesAgree` | scripts/run_gates.py:1471-1594 | both branches give every gate the same class on dependency-ordered selections where nothing depends on a gate that may exit 2 |
| `GateSequential.BranchesAgreeIff` | scripts/run_gates.py:1471-1594 | they agree for all outcomes exactly on those selections: the parallel branch counts a runner-unavailable dependency as failed, the sequential one does not |
| `GateSequential.DisorderDisagrees` | scripts/run_gates.py:1552-1563 | out of dependency order the sequential branch skips a gate whose dependencies all pass |
| `GateSequential.SkippableDependencyDisagrees` | scripts/run_gates.py:1481-1484 | a dependency whose runner is missing blocks in parallel and is tolerated in sequence |
| `GateTable.ShippedTableWellOrdered` | scripts/run_gates.py:501-811 | the shipped table has distinct keys, lists every dependency earlier, and lets nothing depend on a gate that may be skipped |
| `GateRunner.EverySelectionWellOrdered` | scripts/run_gates.py:1321-1342 | group, quick, gate and shard filters keep any such table well ordered and acyclic |
| `GateRunner.FilteredMeans` | scripts/run_gates.py:1321-1328 | without a shard exactly the gates that pass the group, quick and gate filters are selected |
| `GateRunner.ShardTakes` | scripts/run_gates.py:1329-1334 | a shard K/N takes the positions of the filtered table that are K-1 modulo N, in order |
| `GateRunner.ShardsPartition` | scripts/run_gates.py:1329-1334 | each gate of the filtered table is in exactly one of the N shards |
| `GateRunner.JobsMean` | scripts/run_gates.py:1347-1355 | gates run side by side only for a job count above one, or under --parallel on several processors with no proof gate selected |
| `GateRunner.VerdictMeans` | scripts/run_gates.py:1298-1631 | each of the four exit codes holds exactly for the options, tools, clean result and raw command results that call for it |
| `GateRunner.RowsDecide` | scripts/run_gates.py:1620-1621 | the verdict over recorded rows is the verdict over the gates' own outcomes |
| `GateRunner.FinalRows` | scripts/run_gates.py:1596-1618 | one row per gate of the table, with the recorded result or the filter that left it out |
| `GateRunner.AbortRows` | scripts/run_gates.py:1395-1417 | a missing tool gives every selected gate that needs it an ABORTED row and every other one NOT RUN |
| `GateRunner.RunSelected` | scripts/run_gates.py:1468-1594 | with any job count, both branches report one parallel outcome and start exactly the gates that are not blocked |
| `GateRunner.Run` | scripts/run_gates.py:1295-1631 | the exit code is the verdict; success means a non-empty selection in which every gate really ran; the gates started are those whose rows are not skips; an abort or a failed clean means nothing ran |
| `GateRunner.RunShipped` | scripts/run_gates.py:1238-1631 | for the shipped table exit 0 holds exactly for usable options without quick, found tools, a clean that exited 0 if asked for, and a non-empty selection in which every command was launched, ended in time and exited 0, or 2 where that is allowed; likewise for exits 1, 2 and 3 |
| `CacheLock.InvKept` | scripts/run_incremental_lean.py:249-289 | the in-memory lock is held by exactly the thread that is past it and the file lock by exactly the process with a thread in the body, across arrivals, timeouts, polls, body ends and crashes |
| `CacheLock.MutualExclusion` | scripts/run_incremental_lean.py:249-289 | no two contenders, of one process or of several, are in the body together |
| `CacheLock.LeavesNothingBehind` | scripts/run_incremental_lean.py:255-289 | every exit path gives back exactly what was taken and disturbs nobody else |
| `CacheLock.NothingLeaks` | scripts/run_incremental_lean.py:280-289 | with nobody waiting or inside, no lock is held |
| `CacheLock.RefinesAtomicLock` | scripts/run_incremental_lean.py:249-289 | seen by its users the two-level lock is one atomic lock, freed by the holder or by its crash |
| `CacheLock.FileLockAloneIsNotEnough` | scripts/run_incremental_lean.py:243-246 | the same protocol without the in-memory lock has a run with two threads of one process in the body |
| `SnapshotFiles.PublicationIsAtomic` | scripts/run_incremental_lean.py:356-369 | a finished publication validates from any earlier files; an interrupted one validates exactly when the manifest left in place authenticates the two files now there, so never over an absent entry and over a valid one only if it changed nothing |
| `SnapshotFiles.PrunedNeverValidates` | scripts/run_incremental_lean.py:379-389 | an entry pruned wholly or in part is absent or refused |
| `SnapshotFiles.CacheDirectory.ValidateSnapshotPair` | scripts/run_incremental_lean.py:329-353 | true exactly for a complete pair under its own manifest, false exactly for no files at all, an error otherwise |
| `SnapshotFiles.CacheDirectory.PublishSnapshotPair` | scripts/run_incremental_lean.py:356-369 | the three replacements leave exactly the published entry and touch no other |
| `SnapshotFiles.CacheDirectory.PruneObsoleteSnapshots` | scripts/run_incremental_lean.py:376-389 | each listed obsolete entry loses its files up to the first failing unlink; the kept entry and entries without a snapshot file are untouched |
| `SnapshotCache.InvKept` | scripts/run_incremental_lean.py:418-477 | every step of every launcher keeps: workers are inside the lock, every readable manifest authenticates a recorded save whose fingerprint was the same before and after, and no prune lists what it keeps |
| `SnapshotCache.ValidPairIsOneSave` | scripts/run_incremental_lean.py:329-353 | in every run, with crashes, changing inputs and damaged files, a validated pair is the output of one Lean run with that fingerprint before and after |
| `SnapshotCache.MixedPairRefused` | scripts/run_incremental_lean.py:334-352 | files no single save produced together are an error, never true and never absent |
| `SnapshotCache.LaunchersExclude` | scripts/run_incremental_lean.py:423-424 | at most one launcher works at a time, and it holds the lock |
| `SnapshotCache.LoadingFreezesFiles` | scripts/run_incremental_lean.py:423-452 | while one launcher loads, no step of any other changes any file |
| `SnapshotCache.ChoiceMeans` | scripts/run_incremental_lean.py:426-446 | without --refresh a launcher loads exactly a complete pair under its own manifest, and that pair; it saves exactly on --refresh or with no files at all, and is turned away otherwise |
| `SnapshotCache.SaveMeans` | scripts/run_incremental_lean.py:454-470 | a save counts exactly when Lean left two non-empty files, and is confirmed exactly when the fingerprint came out the same again |
| `SnapshotCache.LoadsWhatWasCommitted` | scripts/run_incremental_lean.py:424-434 | whoever computes the fingerprint of a committed pair before anyone publishes or prunes under it loads that very pair |
| `SnapshotCache.LoadReached` | scripts/run_incremental_lean.py:423-477 | a run in which one launcher commits and the next one loads its pair |
| `SnapshotCache.LoaderKeepsItsPair` | scripts/run_incremental_lean.py:424-452 | a loader has on disk until Lean exits the exact pair it validated, published under the fingerprint it computed |
| `SnapshotCache.CommitHeals` | scripts/run_incremental_lean.py:463-466 | from any damaged files, a launcher that confirmed its save and committed has its own pair on disk and it validates, all through its prune and until a publication or a prune under that fingerprint |
| `SnapshotCache.CutShortPruneLeaves` | scripts/run_incremental_lean.py:379-389 | a failing unlink or a stop after the snapshot was removed leaves its companions behind |
| `SnapshotCache.LeftoverReached` | scripts/run_incremental_lean.py:379-389 | a run of two undisturbed launchers, with one failing unlink, that leaves such companions |
| `SnapshotCache.LeftoverStays` | scripts/run_incremental_lean.py:379-389 | such companions are never pruned again: until a new publication under the same fingerprint every launcher with it is refused unless it refreshes |
| `SnapshotCache.PruneEmptiesIff` | scripts/run_incremental_lean.py:376-389 | a prune that keeps another fingerprint and whose unlinks all succeed empties an obsolete entry exactly when its snapshot file is still there |
| `ProcessLease.DefaultsFitTheMachine` | scripts/lean_process_lease.py:173-185 | the adaptive reserves ask for no more than the machine owns exactly from 4 GiB of commit and 2 GiB of physical memory on |
| `ProcessLease.ReservesMean` | scripts/lean_process_lease.py:168-181 | each reserve is the setting, or a share of 0.3 or 0.25 of what the machine owns kept within 4 to 32 or 2 to 12 GiB |
| `ProcessLease.AdmitsMeans` | scripts/lean_process_lease.py:160-200 | an attempt admits exactly when the lock is free and, where memory status is known, both reserves are available |
| `ProcessLease.SettingsMean` | scripts/lean_process_lease.py:118-148 | settings are refused exactly when one is no number or below its least value; the timeout defaults to 1800 seconds |
| `ProcessLease.WithLease` | scripts/lean_process_lease.py:138-217 | enters at the first attempt that finds the lock free and the reserves met (or no status), times out only past the deadline, makes at most ceil(timeout)+1 attempts, never sleeps under the lock and releases it |
| `ProcessLease.TimePasses` | scripts/lean_process_lease.py:210-217 | after k sleeps of at least a second the clock has advanced by at least k |
| `LeaseProtocol.InvKept` | scripts/lean_process_lease.py:138-223 | the lock is held by exactly the contender that checks or works, and a nested body's parent is alive in its body or crashed |
| `LeaseProtocol.OneRootInside` | scripts/lean_process_lease.py:160-191 | at most one contender without the marker is in its body |
| `LeaseProtocol.BodiesShareOneTree` | scripts/lean_process_lease.py:138-143 | any two bodies at one time belong to the tree of the current holder unless an ancestor crashed |
| `LeaseProtocol.WaitersHoldNothing` | scripts/lean_process_lease.py:201-217 | nobody holds the lock while waiting or asleep |
| `LeaseProtocol.OrphanOutlivesHolder` | scripts/lean_process_lease.py:220-223 | a run in which a holder crashes and its nested process works beside the next holder: the crash condition is needed |
| `ImportWalks.ImportWalk.Visit` | scripts/build_full.py:72-87 | one visit extends the order by the local closure of the module, each after its imports, or meets a reachable import cycle |
| `ImportWalks.LocalImportOrder` | scripts/build_full.py:66-89 | raises exactly when a local import cycle is reachable from the root; otherwise lists the reachable local modules once each, dependencies first |
| `BuildWaves.NormalizationBatches` | scripts/build_full.py:92-106 | fails exactly on a reachable cycle; otherwise the waves are a wave plan of the targets' closures |
| `BuildWaves.SlicedOrderIsWavePlan` | scripts/build_full.py:103-106 | slicing a settled order: every module once, imports in the same or an earlier wave, no wave over the size, only the last one shorter |
| `BuildWaves.ImportInEarlierWave` | scripts/build_full.py:92-106 | a local import of a scheduled module stands in its wave or an earlier one |
| `BuildWaves.SharedModuleRepeats` | scripts/build_full.py:92-106 | two waves share no module of a duplicate-free order |
| `BuildWaves.AuthorityBuildCoversRoots` | scripts/run_full_refs_coverage.py:111-117 | the commands pass every root once, in order, at most 32 each |
| `ImportWalks.ComputeDepths` | scripts/check_orphan_modules.py:418-434 | records exactly the modules with an import chain from a declared root, each with the length of the shortest |
| `ImportWalks.Orphans` | scripts/check_orphan_modules.py:436-449 | the orphans are exactly the tracked modules with no such chain, once each |
| `OwningLibrary.FindOwningLibrary` | scripts/check_orphan_modules.py:374-391 | the first library among those with the longest matching dotted prefix, none if there is none |
| `OwningLibrary.OwnsIffDottedPrefix` | scripts/check_orphan_modules.py:383-390 | matching components is being the module or a dotted prefix of it |
| `OwningLibrary.OwnersAgree` | scripts/check_orphan_modules.py:385-390 | owners with equally many components are the same module |
| `ImportWalks.Reachable` | scripts/check_instructions_umbrella.py:82-93 | the worklist finds what the umbrella names transitively; on disk modules that is the same closure as the other two walks |
| `ImportWalks.CheckUmbrella` | scripts/check_instructions_umbrella.py:82-106 | missing modules are those on disk outside the closure; with nothing missing or stale the umbrella names exactly the disk |
| `ImportWalks.CleanUmbrella` | scripts/check_instructions_umbrella.py:94-106 | a clean report means every mentioned module is on disk and every one on disk is reached |
| `Fnv.Fnv1a64` | scripts/run_full_refs_coverage.py:51-56 | the loop computes the hash of the bytes from the offset basis |
| `Fnv.XorBits` | scripts/run_full_refs_coverage.py:54-54 | a bit of the exclusive-or is set exactly when it is set in one of the two |
| `Fnv.KnownValues` | scripts/run_full_refs_coverage.py:51-56 | the published hashes of no bytes and of the letter a |
| `Fnv.StepBijective` | scripts/run_full_refs_coverage.py:53-55 | for each byte the xor-multiply step is a bijection on 64-bit states |
| `Fnv.StepInjectiveInByte` | scripts/run_full_refs_coverage.py:53-55 | from one state two bytes never lead to the same state |
| `Fnv.HashSplits` | scripts/run_full_refs_coverage.py:52-55 | hashing a concatenation is carrying the state over |
| `Fnv.HashFromBijective` | scripts/run_full_refs_coverage.py:52-55 | absorbing given bytes is undone by the backward hash |
| `Fnv.SingleByteChangeDetected` | scripts/run_full_refs_coverage.py:51-56 | byte strings that differ in at most one position hash alike exactly when they are equal |
| `Fnv.CommonSuffixNeutral` | scripts/run_full_refs_coverage.py:51-56 | a common suffix neither hides nor adds a difference |
| `Comments.StripComments` | scripts/check_gates.py:165-220 | the loop computes the stripped text |
| `Comments.StripShape` | scripts/check_gates.py:165-220 | length and every newline are kept, every other character is kept or blanked, and no `--` or `/-` is left |
| `Comments.StripFixes` | scripts/check_gates.py:165-220 | exactly the texts without markers are left alone, so stripping is idempotent |
| `Comments.CodeKept` | scripts/check_gates.py:207-218 | code without markers is copied as it stands, and by the string-aware stripper too if it has no quote |
| `Comments.LineCommentBlanked` | scripts/check_gates.py:186-211 | under both strippers a line comment is blanked to the end of its line and code goes on from the newline |
| `Comments.BlockCommentBlanked` | scripts/check_gates.py:194-216 | under both strippers a block comment, however deep comments nest in it, is blanked whole and code goes on after it |
| `Comments.UnclosedCommentBlanked` | scripts/check_gates.py:194-220 | a comment never closed is blanked to the end of the text |
| `Comments.StripCommentsAware` | scripts/check_verification_authority.py:60-99 | the loop computes the string-aware stripping |
| `Comments.AwareShape` | scripts/check_verification_authority.py:60-99 | length kept, everything kept or blanked, no quote and no marker left |
| `Comments.StringBlanked` | scripts/check_verification_authority.py:67-78 | a string literal is blanked whole, markers and escaped quotes in it included |
| `Comments.UnclosedStringBlanked` | scripts/check_verification_authority.py:67-78 | a literal the text ends in is blanked to the end, after a backslash too |
| `Comments.AwareKeepsLinesIff` | scripts/check_verification_authority.py:72-74 | the line shape survives exactly when no string escapes a newline |
| `Comments.EscapedNewlineLost` | scripts/check_verification_authority.py:72-74 | a string ending its line with a backslash loses the newline |
| `Comments.AgreeIff` | scripts/check_verification_authority.py:60-99 | the two strippers agree exactly on texts with no quote outside comments |
| `Declarations.StripConcat` | scripts/check_gates.py:237-248 | after lines of nothing but prefix clauses, stripping the gathered text is stripping the last line |
| `Declarations.SpelledIsHead` | scripts/check_gates.py:127-140 | every line of prefix clauses, attributes, modifiers, a word that begins with a keyword and anything after it is a head of that kind, named by the word that follows a whole keyword |
| `Declarations.HeadIsSpelled` | scripts/check_gates.py:127-140 | every head is a line of that form |
| `Declarations.ConsumedIffClauses` | scripts/check_gates.py:140-140 | nothing is left of a line exactly when it is prefix clauses and nothing else |
| `Declarations.DeclMeans` | scripts/check_gates.py:260-284 | a boundary has the kind of its head and the name behind the keyword or, when nothing follows it, the first word of the next line that is not blank |
| `Declarations.CollectDeclarations` | scripts/check_gates.py:287-336 | the scan with its bounded lookahead yields the boundaries |
| `Declarations.BoundariesIncrease` | scripts/check_gates.py:287-336 | boundaries come in strictly increasing line order |
| `Declarations.HeadsOpenBoundaries` | scripts/check_gates.py:304-335 | no line that matches the head pattern is skipped: each is opened by the nearest boundary at or above it, with only prefix clauses between |
| `Declarations.HeadOpenedFrom` | scripts/check_gates.py:304-327 | a head is opened at the first of the five lines above it from which there are only prefix clauses and blank lines down to it, else at its own line |
| `Declarations.StrayBoundary` | scripts/check_gates.py:324-327 | prefix clauses from which the lookahead finds no head open a boundary of their own |
| `Declarations.BoundariesJustified` | scripts/check_gates.py:304-335 | every boundary opens a line that matches the head pattern, be it a declaration or a word that only begins with a keyword, or stands at prefix clauses that lead to none within the lookahead |
| `Declarations.EnclosingDecl` | scripts/check_gates.py:339-347 | the early exit returns the nearest boundary at or above the line |
| `Declarations.HeadAttributedToItself` | scripts/check_gates.py:339-347 | an occurrence on a line that matches the head pattern is attributed to the boundary that opens that line |
| `Declarations.AttributedIff` | scripts/check_gates.py:304-347 | an occurrence is attributed to the nearest declaration at or above it exactly when no line after that one, up to its own, starts with a word that only begins with a keyword or holds prefix clauses alone |
| `Declarations.NotTakenIff` | scripts/check_gates.py:339-347 | it goes to that declaration or to the prefix clauses it follows exactly when every line that only looks like a head has prefix clauses after it: such a line takes it otherwise |
| `Declarations.UnattributedIff` | scripts/check_gates.py:339-347 | it has no boundary exactly when neither head nor prefix clauses stand at or above it |
| `Declarations.ClassicalTakesOccurrence` | scripts/check_gates.py:127-134 | the tactic `classical` in a proof takes what follows from its theorem |
| `Headings.OpenIffInSection` | scripts/check_doc_facade.py:685-692 | a forward stack pass holds exactly the headings whose section contains the line |
| `Headings.SectionEscapeWindows` | scripts/check_doc_facade.py:679-715 | the backward scan returns the intros of exactly those sections, innermost first, or the text before the first heading |
| `Headings.EscapeWindows` | scripts/check_doc_facade.py:663-715 | the same for the lines of a file, whose heading levels are at most six |
| `Headings.SpelledIsHeading` | scripts/check_doc_facade.py:579-579 | up to three spaces, one to six hashes and white space head a section of that level |
| `Headings.HeadingIsSpelled` | scripts/check_doc_facade.py:663-668 | every heading is spelled so, with its level the number of hashes |
| `Headings.WindowsCover` | scripts/check_doc_facade.py:679-715 | a line is searched exactly when the nearest heading above it heads a section that contains the block, so never for a sibling |
| `Headings.WindowsDisjoint` | scripts/check_doc_facade.py:679-715 | windows are pairwise disjoint and the first contains the line |
| `Headings.LeanFenceBlocks` | scripts/check_doc_facade.py:642-660 | the blocks are the maximal runs of lines inside a Lean fence |
| `ListItems.ItemBounds` | scripts/check_doc_facade.py:424-462 | the bounds of the nearest item start with no blank line between, up to a blank line or an item not nested in it |
| `ListItems.BoundsHoldLine` | scripts/check_doc_facade.py:440-462 | bounds are determined and hold the line unless it is blank |
| `ListItems.ItemsNest` | scripts/check_doc_facade.py:452-462 | bounds of two lines are disjoint or nested |
| `Reviewers.NormalizeIdempotent` | scripts/check_references.py:218-270 | canonicalising a canonical address changes nothing |
| `Reviewers.NormalizeMeans` | scripts/check_references.py:231-268 | an accepted address keeps its local part and gets its domain encoded, without a root dot |
| `Reviewers.CanonicalIff` | scripts/check_references.py:218-268 | exactly the addresses of an accepted local part and an accepted domain are stored as they are |
| `References.CachePathsDistinct` | scripts/check_references.py:557-559 | entries with different slugs and no slash in them never share a cache file |
| `References.DotSlashShares` | scripts/check_references.py:557-559 | the slugs `x` and `./x` are different slugs and share one |
| `References.RunKeepsPins` | scripts/check_references.py:660-760 | from a cold cache and a registry whose entries name different files, after any refreshes and acknowledgements, each cached file hashes to its recorded pin |
| `References.PinsKeptIff` | scripts/check_references.py:557-559 | exactly those registries, among the ones the schema accepts, keep their pins in every run |
| `References.RefreshVerifies` | scripts/check_references.py:682-702 | refresh changes no pin; after a successful one a selected entry verifies exactly when the last selected one that names its file has its pin, which is itself where entries name different files |
| `References.RefreshMeans` | scripts/check_references.py:660-702 | exit 8 exactly when some selected entry drifted, 0 exactly when all match, else 7; 1, 2 and 9 before anything is fetched |
| `References.RefreshWrites` | scripts/check_references.py:682-702 | a refresh writes the fetched bytes exactly for the selected entries they match, and leaves other files and the registry alone |
| `References.AcknowledgeMeans` | scripts/check_references.py:721-748 | each exit code of an acknowledgement with exactly the case that gives it |
| `References.AcknowledgeWrites` | scripts/check_references.py:705-760 | exit 0 re-pins exactly the entry of the slug in five fields and writes its file; any other leaves everything alone |
| `References.AcknowledgedLoadsIff` | scripts/check_references.py:705-760 | an acknowledged registry passes the schema exactly when the note is not blank; the command line asks only for a non-empty one |
| `References.BlankNoteSlips` | scripts/check_references.py:722-724 | a note of one no-break space is taken for any drifted entry, and the registry written does not load |
| `References.CrashReported` | scripts/check_references.py:746-757 | a crash inside an acknowledgement is reported as schema error, missing file or hash mismatch; other entries that name another file verify as before |
| `ReferenceStore.ReferenceIndex.RunRefresh` | scripts/check_references.py:660-702 | writes to the cache only bytes that match the pin and returns the worst code |
| `ReferenceStore.ReferenceIndex.AcknowledgeDrift` | scripts/check_references.py:721-760 | the command as a change of registry and cache with its exit codes |
| `ReferenceStore.SetRepinMetadata` | scripts/check_references.py:705-718 | rewrites exactly the entry of the slug |
| `ReferenceStore.ReferenceIndex.RunOffline` | scripts/check_references.py:584-647 | exit 0 exactly when every cited slug is that of an entry whose cache file is there, hashes to its pin and passes the checker, else the smallest code a citation answers with; the files hashed are those of the registered slugs cited, and one that matches is hashed once |
| `ReferenceStore.CitationCodeMeans` | scripts/check_references.py:608-630 | a citation answers 2 when its slug is registered nowhere, 3 when the cache file is absent, 4 when its bytes do not hash to the pin, else what the checker says |
| `ReferenceStore.ReferenceIndex.LoadRegistry` | scripts/check_references.py:283-341 | the loop over the entries returns them by slug exactly when each passes the schema and no slug repeats |
| `HeadingAnchors.DeriveHeadings` | scripts/check_references.py:449-464 | each anchor stands for the last heading given it |
| `HeadingAnchors.UniqueIffNoClash` | scripts/check_references.py:455-463 | anchors are unique exactly when no numbered repetition of one slug is the slug of another heading |
| `HeadingAnchors.AnchorsCollide` | scripts/check_references.py:455-463 | "Foo", "Foo", "Foo 1" share an anchor |
| `Locators.FieldsReadBack` | scripts/migrate_intel_sdm_refs.py:100-106 | written fields parse back one by one exactly when they are clean; a semicolon in one makes a sixth field |
| `Locators.CheckMeans` | scripts/check_references.py:392-414 | exactly the texts of locators whose pages, if any, are in order and within the document are accepted, and exactly the texts of no locator are malformed |
| `Locators.ParseIffSpelled` | scripts/check_references.py:392-396 | a text parses as a locator exactly when it is that locator spelled out, pages and manual pages or not |
| `Locators.EncodingMeans` | scripts/migrate_intel_sdm_refs.py:96-97 | manual pages are written as their words, one underscore apart |
| `Locators.VolTokenMeans` | scripts/migrate_intel_sdm_refs.py:87-93 | the volume is the digit after its name, or the index for a field that starts so or speaks of combined volumes |
| `Locators.LeadingSectionIsOne` | scripts/migrate_intel_sdm_refs.py:128-131 | what a chapter title gives is a section number it starts with |
| `Locators.LeadingSectionLongest` | scripts/migrate_intel_sdm_refs.py:128-131 | and the longest one |
| `Locators.LocatorReadsBack` | scripts/migrate_intel_sdm_refs.py:109-144 | the builder returns a locator exactly for clean components with pages in order within 5060, and check_pdf_locator then accepts it and reads the same components |
| `Locators.EncodingIdempotent` | scripts/migrate_intel_sdm_refs.py:96-97 | encoding manual pages again changes nothing |
| `BlobFraming.BatchBlobContents` | scripts/check_no_ignored_lean_sources.py:211-233 | the reader computes the framed read |
| `BlobFraming.BlobsReadBack` | scripts/check_no_ignored_lean_sources.py:222-233 | any list of objects, whatever bytes they hold, reads back from its framing |
| `BlobFraming.FrameMeans` | scripts/check_no_ignored_lean_sources.py:225-232 | whatever is read as an object stood framed in the stream, under a header that announces that object and its size |
| `BlobFraming.OtherObjectRefused` | scripts/check_no_ignored_lean_sources.py:226-228 | an answer for another object is refused |
| `BlobFraming.TruncatedRefused` | scripts/check_no_ignored_lean_sources.py:222-232 | every proper prefix of a response is refused |
| `LineEndings.RefusedIffLoneCr` | scripts/check_no_ignored_lean_sources.py:236-240 | normalisation fails exactly on a carriage return that ends no CRLF |
| `LineEndings.NormalizedIff` | scripts/check_no_ignored_lean_sources.py:236-240 | it yields exactly the text the bytes are a CRLF/LF variant of |
| `LineEndings.SameUpToLineEnds` | scripts/check_no_ignored_lean_sources.py:308-309 | two files compare equal exactly when they are variants of one text |
| `LineEndings.NormalizedIdempotent` | scripts/check_no_ignored_lean_sources.py:236-240 | the result has no carriage return and is its own normal form |
| `IndexRecords.RecordReadsBack` | scripts/check_no_ignored_lean_sources.py:157-166 | a record reads back as written, whatever the path holds |
| `IndexRecords.RecordMeans` | scripts/check_no_ignored_lean_sources.py:157-166 | a record names a file exactly when it is three fields, a tab and a Lean-like path, and is malformed exactly when it has another number of fields |
| `IndexRecords.IndexMeaning` | scripts/check_no_ignored_lean_sources.py:153-178 | the maps hold exactly the named Lean paths; clean exactly when each is a plain stage-0 file, exactly spelled, named once |
| `IndexRecords.IndexValues` | scripts/check_no_ignored_lean_sources.py:167-177 | the index gives each path the mode and object of the last record naming it |
| `IndexRecords.TreeMeaning` | scripts/check_no_ignored_lean_sources.py:180-208 | the tree is unusable exactly when a record names a Lean path that is no blob, else its maps hold exactly the named paths |
| `IndexRecords.TreeValues` | scripts/check_no_ignored_lean_sources.py:180-208 | and give each path the mode and object of the last record naming it |
| `SourceCensus.CleanIndexMeans` | scripts/check_no_ignored_lean_sources.py:153-178 | every path of a clean index is exactly spelled and printed as a plain file at stage 0 |
| `SourceCensus.Census` | scripts/check_no_ignored_lean_sources.py:532-576 | the verdict over index, tree, blobs and worktree |
| `SourceCensus.VerdictMeans` | scripts/check_no_ignored_lean_sources.py:532-576 | given that git answers from its objects, the census passes exactly when nothing was found by the other checks, ignored and stale sources included, every index record is plain and names its path once, disk, index and HEAD agree, and every file is a line-end variant of its blob; it cannot be derived exactly on a lone carriage return |
| `SourceCensus.PassMeansSameSources` | scripts/check_no_ignored_lean_sources.py:243-313 | a pass means disk, index and HEAD name one set of paths with the same modes and objects, and every file is its blob up to CRLF or LF |

## Left out

- Subprocesses, git, Lake, Lean, prerequisite detection, network fetches and printing: their results are inputs or arbitrary.
- Wall-clock times, tool descriptions, captured output and the clean phase of the gate runner beyond its exit code.
- GateScheduler.RunParallel: requires acyclic dependencies, because on a cycle the loop never ends (GateScheduler.FinishesIffAcyclic); the shipped table meets it for every selection.
- CacheLock.InvKept: assumes that unlocking and closing the lock file do not themselves fail; the source would then keep the in-memory lock.
- SnapshotCache.ValidPairIsOneSave: validation reads its three files in one step; damage from outside in the middle of it is not modelled.
- SnapshotCache.LoaderKeepsItsPair: speaks of launchers that live; a Lean process that outlives its crashed launcher reads without the lock.
- The launcher's check of forwarded Lean arguments and the header prefix of a source, which its fingerprint covers.
- The fingerprint of the incremental launcher is an arbitrary value at each computation; how its bytes are put together is not modelled.
- ProcessLease.WithLease: times and sizes are exact reals, so floating-point rounding and the special float values a setting could spell are not modelled.
- LeaseProtocol.BodiesShareOneTree: assumes that a body waits for the processes it started, as the launchers do.
- Declarations.CollectDeclarations: lines are token sequences; a word with a dot in it is one token, so a prefix keyword or `in` glued to a dotted name is not recognised, and a keyword glued to a character outside letters, digits, `_`, `.`, `<` and `>` counts as that keyword.
- Reviewers.NormalizeIdempotent: relies on IDNA leaving lower-case ASCII domains with valid labels alone; the reasons for refusal are not distinguished.
- References.CachePathsDistinct: assumes POSIX paths, on which different plain names are different files; links and case folding are covered only by References.PinsKeptIff, which takes the file each path names as given.
- References.RunKeepsPins: fetches may return anything, but hand edits of the registry or of cache files between commands are not modelled.
- Anchor checkers other than the PDF locator: an arbitrary answer per citation in `ReferenceStore.ReferenceIndex.RunOffline`.
- Locators.LocatorReadsBack: digits are ASCII; whether a path is an instruction page or a chapter page, and the headings of a chapter, are inputs.
- BlobFraming.BatchBlobContents: a size that is not plain decimal digits is refused, where the source would also take signs, spaces and underscores.
- SourceCensus.Census: the walk of the worktree, index flags, `git diff-files`, ignore rules and stale build products are inputs.
- The planted-defect self tests, the end-to-end tests, licence, publishability and exception-ledger scans, fuzzers and the generators of table rows.
- Lean sources and Lean tools.
