# Batchalign3 core algorithms in Dafny

This project models the algorithms of Batchalign3 that carry the most state, branching or arithmetic, and
proves what they promise. Each module follows one source file (or one half of it). Code that works by
loops and updates is a method or a class here; what it computes is a function or predicate, the method is
proved against that, and lemmas say what the function means.

- `UtsegTree`, `UtsegRanges`, `UtsegLabels`, `UtsegAssign`, `Utseg`: utterance segmentation from a
  constituency parse. The tree walk emits exactly the S nodes with a coordinator among their siblings, and
  these form a strictly laminar family. Largest-first subtraction therefore keeps exactly the maximal
  ranges and the uncovered words. The in-place gap fill equals a rule on the original labels. Grouping and
  merging give one group per run of at least three equal labels.
- `UtsegLeaves`: the walk's counts, offsets and ranges read off the tree's leaf paths alone.
- `UtteranceModel`: the token-classifier path to the same kind of assignment.
- `AffectedPackages`: which workspace packages a change affects (`xtask`). Reachability is stated with
  paths, and the results are independent of hash iteration order.
- `PackagePaths`: parents, prefixes and separators of paths in terms of their components.
- `AudioFile`: the lazy audio container against plain slicing, on every run of calls with any read failing.
- `AudioFrames`: which frame a time names, which samples a chunk holds, what one sample is.
- `Registry`, `RegistryRuns`, `RegistryHistory`: the worker registry file, alone and under every interleaving of
  open, lock, read, replace and unlock steps, and what the history of a run records.
- `RequestLoop`: the sequential request loop, and the concurrent one as a step relation over a reader, a
  thread pool, a lock and a flag; it refines the sequential loop, cannot deadlock and always finishes.
- `RequestOrder`: which replies of the concurrent loop can come before the reply to an earlier line.
- `RequestShutdown`: what the shutdown flag stops, and how many requests are worked on at a time.
- `Morphosyntax`, `Coref`: batching, inference and scattering back; when a batch equals the single runs.
- `MorphosyntaxItems`: what one item gets, spelled out from the request.
- `ForcedAlignment`: target tokens, spans back to words, frame arithmetic, the consumer's check, onsets.
- `AlignmentTimes`: the same times as whole-number inequalities, and a word's tokens read off its characters.
- `TagCleaner`, `ProviderProjection`: cleaning and projecting provider transcripts.
- `CleanerLaws`, `ProviderElements`: what the cleaner does around tags, brackets and punctuation; the projected
  elements read off the providers' records.
- `Common`, `Strip`, `StableSort`: shared datatypes, stripping, and the stable sort with the laws that determine it.

Where the code and its own description differ, or a promise holds only under a condition, the model follows
the code:

- `ASRAudioFile` says it keeps an LRU cache, but a hit does not reorder keys: it is first in, first out
  (`AudioFile.HitDoesNotRefresh`, `AudioFile.CacheHoldsLastInserted`). A call does to the cache what an LRU cache
  would do if and only if it does not hit, or hits the newest key (`AudioFile.RefreshesIff`); over a run the two
  keep the same order at every point if and only if every hit is on the key that is newest then
  (`AudioFile.RunRefreshesIff`).
- A begin time that rounds below frame 0 makes lazy and eager chunks differ; the exact cases in which they
  agree are in `AudioFile.NegativeBeginAgreement`.
- The registry lock is taken on the opened handle while updates replace the path, so an update can be lost
  (`RegistryRuns.LostUpdate`). A replacement is exact if and only if the version read and the file at the
  path agree on everything that is not the process's own (`RegistryRuns.ReplaceIsExactIff`).
- A manifest directly in the repository root has the parent `""`, so the `"."` fallback of the package lookup
  is not reached that way and such a package owns no path (`AffectedPackages.RootManifestOwnsNothing`). The
  repository's own root manifest is a virtual workspace without a package (Cargo.toml:1-11), so no package is in
  that position today. Ownership by directory is independent of hash order if and only if no two packages share a
  directory (`AffectedPackages.OwnersAreUniqueIff`).
- When the batched coreference call fails, every file is reported ok and unannotated, including files that
  failed pre-validation. This is what a file gets alone if and only if it passes through, or its own call succeeds
  and every note of the answer is empty or already there (`Coref.FailedBatchAgreement`); a batch in which no file
  gets what it gets alone is in `Coref.FailedBatchDiffers`.
- Cleaning is not idempotent. A text is a fixed point if and only if it has no bracket or punctuation, is squeezed,
  and has no opener or only one that is its last two characters (`TagCleaner.CleanedIsSameIff`,
  `TagCleaner.CleanAgainIff`): dropping a bracket can make an opener, and an unterminated opener keeps its own two
  characters and loses the rest of the text (`TagCleaner.BracketHidesOpener`).
- A target token can be the CTC blank, exactly when the wildcard itself is the blank and some word has only
  blank characters (`ForcedAlignment.BlankTargetIff`). The source names only `-` as blank in the live dictionary
  (batchalign/inference/fa.py:252-255), and the wildcard is another entry, so the case is not known to
  arise with it.

## Model

| member | source | states |
|---|---|---|
| `UtsegTree.LeafCount` | batchalign/inference/utseg.py:179-191 | counts the leaves of the subtree; a node without a children attribute has none |
| `UtsegTree.ParseTreeIndices` | batchalign/inference/utseg.py:194-226 | the recursive walk with its running offset emits, in order, the position lists of the phrases of the subtree |
| `UtsegTree.WalkEmitsExactlyThePhrases` | batchalign/inference/utseg.py:201-224 | a range is emitted if and only if it covers an S node, at some path, that has a cc or conj label among its siblings |
| `UtsegLeaves.LeavesAreCounted` | batchalign/inference/utseg.py:179-191 | the paths to the nodes without children, listed from left to right, are as many as the leaf count says |
| `UtsegLeaves.RangeIsLeaves` | batchalign/inference/utseg.py:212-224 | the leaves whose paths run through a node are those from its running offset on, as many as it is wide |
| `UtsegLeaves.CoordinatorLabels` | batchalign/inference/utseg.py:202-208 | a coordinator is a node labelled cc or conj in any mixture of cases; a node without a label is none |
| `UtsegLeaves.WalkEmitsClauseLeaves` | batchalign/inference/utseg.py:194-226 | a range is emitted if and only if it is the set of positions, among all leaves, of the leaves under an S node with a coordinator among its siblings |
| `UtsegLeaves.RangesAreOfTheWords` | batchalign/inference/utseg.py:194-226 | a tree with n leaves emits ranges inside 0 to n - 1 only |
| `UtsegTree.CoordinatedClauseIsNarrower` | batchalign/inference/utseg.py:202-220 | a coordinated S node is narrower than its parent, because the coordinator takes a leaf |
| `UtsegTree.PhraseBounds` | batchalign/inference/utseg.py:194-226 | every emitted range is nonempty, inside the subtree's leaf interval, and narrower than it |
| `UtsegTree.PhrasesLaminar` | batchalign/inference/utseg.py:194-226 | any two emitted ranges are properly nested or disjoint; no range is emitted twice |
| `UtsegRanges.GreedyPartitions` | batchalign/inference/utseg.py:247-252 | for any order of any sets, what successive subtraction keeps is nonempty, pairwise disjoint, and covers the same positions |
| `UtsegRanges.RestIsNeverSubsumed` | batchalign/inference/utseg.py:251-251 | the issubset test never changes the outcome: a nonempty remainder is a subset of nothing kept |
| `UtsegRanges.SubtractKept` | batchalign/inference/utseg.py:248-250 | subtracting the kept lists one by one leaves the range minus their union |
| `UtsegRanges.KeepRest` | batchalign/inference/utseg.py:251-252 | a remainder is appended exactly when it is nonempty |
| `UtsegRanges.SubtractLargestFirst` | batchalign/inference/utseg.py:243-252 | the loop over the reversed length-sorted ranges and the full word range keeps what the successive subtraction keeps |
| `UtsegRanges.GreedyKeepsMaximal` | batchalign/inference/utseg.py:247-252 | longest first, a laminar family keeps exactly its maximal members, each whole |
| `UtsegRanges.KeptSetsAreMaximalPlusLeftover` | batchalign/inference/utseg.py:243-253 | before the length filter the kept sets are exactly the maximal ranges and the uncovered words, pairwise disjoint, covering ranges and words |
| `UtsegRanges.BlockOfWord` | batchalign/inference/utseg.py:247-252 | every word lies in exactly one kept set: its maximal range, else the uncovered words |
| `StableSort.SortIsStable` | batchalign/inference/utseg.py:244-244 | the sort is ordered by key and keeps the order of equal keys |
| `StableSort.StableSortIsUnique` | batchalign/inference/utseg.py:244-244 | only one sequence is ordered by key and keeps every same-key subsequence |
| `Utseg.DropSingletons` | batchalign/inference/utseg.py:253-255 | reversing and filtering keeps exactly the kept sets with more than one word, still disjoint |
| `UtsegLabels.LabelWords` | batchalign/inference/utseg.py:260-264 | each word gets the number of a phrase that lists it, and -1 only if none does; indices outside the word range are ignored |
| `UtsegLabels.FillGaps` | batchalign/inference/utseg.py:266-277 | the in-place fill equals the rule on the labels it started from: nearest label to the right, else nearest to the left; earlier updates never change a later answer |
| `UtsegLabels.FillRule` | batchalign/inference/utseg.py:266-277 | a labelled word keeps its label, a gap takes the nearest label on its right, a gap reaching the end the nearest on its left, and only an unlabelled list stays blank |
| `UtsegLabels.FillLeavesBlankOnlyIfAllBlank` | batchalign/inference/utseg.py:279-280 | the final -1 guard fires if and only if no word was labelled |
| `UtsegLabels.FillRelabel` | batchalign/inference/utseg.py:266-277 | the fill depends only on which words share a label, not on phrase numbering |
| `UtsegAssign.GroupRuns` | batchalign/inference/utseg.py:282-285 | groupby cuts the positions into the maximal runs of equal labels |
| `UtsegAssign.CollectLongRuns` | batchalign/inference/utseg.py:287-294 | short runs wait for the next long run; every position before the last cut is in the group numbered by the long runs finished before it |
| `UtsegAssign.MergeShortRuns` | batchalign/inference/utseg.py:287-299 | trailing short runs join the last group, or are the only one; the groups tile all positions in order |
| `UtsegAssign.Scatter` | batchalign/inference/utseg.py:301-304 | every position is numbered by the group that lists it |
| `UtsegAssign.AssignGroups` | batchalign/inference/utseg.py:282-306 | grouping, merging and numbering compute, for each word, the number of long runs already finished, capped at the last group: no word lost or moved |
| `UtsegAssign.AssignmentsAreSteps` | batchalign/inference/utseg.py:301-306 | assignments start at 0, never decrease, rise by at most 1, and end in group max(1, long runs) - 1 |
| `UtsegAssign.BoundaryIffLongRunEnds` | batchalign/inference/utseg.py:287-304 | a boundary falls before word i exactly if the three labels before it are equal, its own differs, and another run of three ends after it |
| `UtsegAssign.GroupsHaveThreeWords` | batchalign/inference/utseg.py:289-299 | every group holds three consecutive words unless it is the only group |
| `UtsegAssign.AssignmentsRelabel` | batchalign/inference/utseg.py:282-306 | assignments depend only on the partition into equal labels |
| `Utseg.OneLabelOneGroup` | batchalign/inference/utseg.py:279-280 | one label for all words gives group 0 for all |
| `Utseg.AssignFromLabels` | batchalign/inference/utseg.py:266-306 | fill, guard and grouping compute the assignment of the filled blocks, the guard included |
| `Utseg.AssignFromPhrases` | batchalign/inference/utseg.py:257-306 | labelling included, and the early return when no phrase is left agrees with it |
| `Utseg.ComputeAssignments` | batchalign/inference/utseg.py:229-306 | for every parse the result is the assignment of the words' maximal clauses with gaps filled from the nearest; fails only when more than one word has no parsed sentence |
| `UtteranceModel.NormalizeWordMapping` | batchalign/models/utterance/infer.py:24-38 | the index map lists, in order, exactly the words that survive cleaning, with their cleaned forms |
| `UtteranceModel.MappingIsUnique` | batchalign/models/utterance/infer.py:24-38 | there is only one such mapping |
| `UtteranceModel.OnlyMarksGo` | batchalign/models/utterance/infer.py:34-34 | cleaning removes exactly the periods, question marks, exclamation marks and commas, and keeps all other characters in order |
| `Strip.StrippedIsCore` | batchalign/models/utterance/infer.py:31-31 | stripping takes away exactly the leading and trailing spaces |
| `Strip.EmptyIffAllSpace` | batchalign/models/utterance/infer.py:31-33 | nothing is left if and only if all characters are spaces |
| `UtteranceModel.RawActions` | batchalign/models/utterance/infer.py:75-81 | each word's raw action is the class of the last token that opens the word, and 0 if none does |
| `UtteranceModel.InOrderTokensOpenOnce` | batchalign/models/utterance/infer.py:75-81 | when tokens come in word order a word is read at its first token only |
| `UtteranceModel.Suppress` | batchalign/models/utterance/infer.py:83-86 | exactly the last action of each maximal run of positive actions survives |
| `UtteranceModel.Expand` | batchalign/models/utterance/infer.py:88-91 | actions return to their original positions, all other positions are 0 |
| `UtteranceModel.ExpansionKeepsActionsApart` | batchalign/models/utterance/infer.py:83-91 | after suppression and expansion no two adjacent words carry actions |
| `UtteranceModel.PredictActions` | batchalign/models/utterance/infer.py:61-91 | the whole path, with the early return for at most one surviving word, gives the required action list |
| `UtteranceModel.PredictionIsUnique` | batchalign/models/utterance/infer.py:61-91 | the required action list is unique |
| `UtteranceModel.NumberGroups` | batchalign/models/utterance/infer.py:98-104 | each word's group is the number of boundary actions strictly before it |
| `UtteranceModel.PredictAssignments` | batchalign/models/utterance/infer.py:93-104 | assignments number the predicted boundaries; at most one word gives group 0 |
| `UtteranceModel.GroupChangesAfterBoundary` | batchalign/models/utterance/infer.py:100-104 | the groups start at 0, and a new one starts exactly after a word with action 2, 3 or 4 |
| `UtteranceModel.InteriorGroupsHaveTwoWords` | batchalign/models/utterance/infer.py:83-104 | every group but the first and the last has at least two words |
| `UtteranceModel.GroupsAreBoundariesPlusOne` | batchalign/models/utterance/infer.py:98-104 | the groups are 0 up to the number of boundaries before the last word |
| `AffectedPackages.ReverseDependentClosure` | xtask/src/main.rs:332-352 | terminates with exactly the packages reachable along reverse edges, strictly sorted; each package is queued once |
| `AffectedPackages.AddDependents` | xtask/src/main.rs:339-346 | one turn of the worklist keeps every reached package either closed under dependents or still queued |
| `AffectedPackages.SortedListingIsUnique` | xtask/src/main.rs:349-351 | a set has one sorted listing, so hash order cannot show in the result |
| `AffectedPackages.PackageDirs` | xtask/src/main.rs:246-260 | each name maps to the directory of the last package of that name; fails exactly when a manifest lies outside the repository |
| `PackagePaths.ParentDropsLast` | xtask/src/main.rs:254-257 | the parent of a path has all its components but the last, and is empty for a bare name |
| `AffectedPackages.ManifestDirectory` | xtask/src/main.rs:254-258 | a manifest directory/file puts its package in that directory |
| `PackagePaths.TextSplitsAtSeparators` | xtask/src/main.rs:125-127 | after rewriting, both kinds of slash separate components |
| `PackagePaths.UnderIsPrefix` | xtask/src/main.rs:321-321 | the prefix test holds if and only if the directory's components begin the path's |
| `AffectedPackages.ClaimsIffPrefix` | xtask/src/main.rs:303-321 | a package directory other than "." claims exactly the paths whose components begin with its own |
| `AffectedPackages.ReverseGraph` | xtask/src/main.rs:259-271 | the reverse graph is exactly the transpose of the dependencies inside the workspace |
| `AffectedPackages.PackageForPath` | xtask/src/main.rs:298-330 | the owner has the longest directory around the path, or is the root fallback when no directory matches; none is returned only when none qualifies |
| `AffectedPackages.OwnerIsUnique` | xtask/src/main.rs:298-330 | with distinct directories the owner is the same for every iteration order |
| `AffectedPackages.OwnersAreUniqueIff` | xtask/src/main.rs:303-329 | ownership by directory is independent of iteration order if and only if no two packages share a directory |
| `AffectedPackages.HolderOwns` | xtask/src/main.rs:298-330 | when no package directory lies in another, the package whose directory holds the path owns it |
| `AffectedPackages.RootManifestOwnsNothing` | xtask/src/main.rs:254-258 | a manifest in the repository root gives the directory "", which claims no relative path and is not the fallback |
| `AffectedPackages.DocumentationPaths` | xtask/src/main.rs:276-279 | documentation is exactly what lies below book or docs |
| `AffectedPackages.WorkspacePaths` | xtask/src/main.rs:281-287 | the whole workspace is touched exactly by the two root files and what lies below .github |
| `AffectedPackages.SpecialPaths` | xtask/src/main.rs:289-296 | the extra target is needed by exactly what lies below pyo3 |
| `AffectedPackages.ReachesIffDepends` | xtask/src/main.rs:238-274 | reaching along reverse edges is transitively depending inside the workspace |
| `AffectedPackages.ScanPaths` | xtask/src/main.rs:359-385 | the loop over changed paths finds the workspace flag, exactly the owners of code changes, and the extra targets |
| `AffectedPackages.ImpactedBy` | xtask/src/main.rs:387-391 | without the flag the impacted packages are exactly those depending on an owner, sorted; with it none are listed |
| `AffectedPackages.InspectChanges` | xtask/src/main.rs:354-399 | without the flag a package is impacted if and only if it, or one it transitively depends on, owns a changed path that is not documentation; with no package nested in another, that includes every package below whose manifest's directory such a path changed |
| `AudioFile.ReadIsSlice` | batchalign/inference/audio.py:84-102 | reading a chunk and averaging its channels is slicing the averaged whole |
| `AudioFile.ChunksTile` | batchalign/inference/audio.py:215-221 | for 0 <= a <= b <= c, chunk(a,b) followed by chunk(b,c) is chunk(a,c) |
| `AudioFrames.FrameIsNearest` | batchalign/inference/audio.py:215-216 | a time names the frame nearest to it, the even one on a tie, and no other |
| `AudioFrames.WholeMillisAtSixteenKilohertz` | batchalign/inference/audio.py:215-216 | at 16 kHz m whole milliseconds are frame 16 m |
| `AudioFrames.ChunkSamples` | batchalign/inference/audio.py:215-221 | a chunk from time 0 on holds the samples from its begin frame up to, without, its end frame, as far as the waveform goes |
| `AudioFrames.MeanBalances` | batchalign/inference/audio.py:211-211 | a mono sample is the one value from which the channels' deviations sum to zero |
| `AudioFile.NegativeBeginAgreement` | batchalign/inference/audio.py:88-100 | for a begin frame below 0, chunk read and slice agree on all waveforms of a length exactly in the listed cases |
| `AudioFile.StepAgrees` | batchalign/inference/audio.py:213-295 | every call keeps the container consistent and answers as the eager container, whichever reads fail |
| `AudioFile.RunsStayConsistent` | batchalign/inference/audio.py:154-295 | after every run, cache map and order list hold the same keys without repeats, at most the limit, with true values |
| `AudioFile.LazyRunsMatchEager` | batchalign/inference/audio.py:213-295 | in every run, each call whose full load would succeed returns exactly the eager slice or the whole waveform |
| `AudioFile.CacheHoldsLastInserted` | batchalign/inference/audio.py:237-241 | the cache always holds the most recently inserted keys in insertion order |
| `AudioFile.HitDoesNotRefresh` | batchalign/inference/audio.py:227-241 | a run in which a key just hit is the one evicted |
| `AudioFile.RefreshesIff` | batchalign/inference/audio.py:227-241 | a call leaves the cache as a least-recently-used one would if and only if it does not hit or hits the newest key |
| `AudioFile.RunRefreshesIff` | batchalign/inference/audio.py:154-241 | over a run the key order is that of a least-recently-used cache at every point if and only if every hit is on the key newest then |
| `AudioFile.ASRAudioFile.Lazy` | batchalign/inference/audio.py:176-197 | a lazy container starts empty and consistent |
| `AudioFile.ASRAudioFile.FetchData` | batchalign/inference/audio.py:229-236 | the caller gets the slice of the averaged whole for frames from 0, whichever read served it; nothing exactly when both reads fail; the container stays consistent and stops being lazy exactly after a fallback load |
| `AudioFile.ASRAudioFile.Store` | batchalign/inference/audio.py:237-241 | afterwards the keys are the newest up to the limit, in insertion order, each with the value it had; map and order list still hold the same keys; tensor and laziness are untouched |
| `AudioFile.ASRAudioFile.ReadChunk` | batchalign/inference/audio.py:213-242 | the method performs the modelled step, keeps the invariant, and returns the eager slice |
| `AudioFile.ASRAudioFile.ReadAll` | batchalign/inference/audio.py:283-295 | returns the whole waveform, or empty when a lazy load fails |
| `Registry.AsMapMembers` | batchalign/worker/_registry.py:144-144 | a list with unique addresses is a map whose bindings are exactly its entries |
| `Registry.RewriteKeepsKeysUnique` | batchalign/worker/_registry.py:168-173 | no rewrite makes an address appear twice |
| `Registry.RewriteIsMapOperation` | batchalign/worker/_registry.py:168-224 | a rewrite is put, delete or delete-by-pid on the map; the file is left alone exactly when nothing is owned |
| `Registry.ReadsGoodItems` | batchalign/worker/_registry.py:112-119 | a read lists the well-formed objects in file order and nothing else |
| `Registry.KeepsTheOthers` | batchalign/worker/_registry.py:168-224 | a rewrite keeps exactly the entries it does not own, in order |
| `Registry.RegistryFile.Load` | batchalign/worker/_registry.py:155-166 | the strict read succeeds exactly on a list without an object of wrong fields; other items are skipped |
| `Registry.RegistryFile.RegisterWorker` | batchalign/worker/_registry.py:137-175 | the new content is the other entries followed by the new one |
| `Registry.RegistryFile.Remove` | batchalign/worker/_registry.py:186-226 | removes exactly the owned entries and returns true if and only if there was one |
| `Registry.RegistryFile.ListWorkers` | batchalign/worker/_registry.py:101-119 | the lenient read returns every well-formed entry |
| `RegistryRuns.EveryReachableFileHasUniqueKeys` | batchalign/worker/_registry.py:137-275 | for every interleaving every file version has unique addresses |
| `RegistryRuns.RunsKeepInv` | batchalign/worker/_registry.py:75-98 | no two processes ever hold the lock of one file version; what a process read is still that version |
| `RegistryRuns.ReplaceIsExactIff` | batchalign/worker/_registry.py:122-129 | a replacement changes exactly the process's own entries if and only if the version read and the current file agree on all others, as they do when the handle is current |
| `RegistryRuns.HandleIsCurrentIffNothingNew` | batchalign/worker/_registry.py:150-152 | a handle is still the file at the path exactly if no file was created since it was opened |
| `RegistryRuns.CleanRunsAreSerial` | batchalign/worker/_registry.py:137-275 | every interleaving in which each process commits on the current file equals the operations in commit order |
| `RegistryHistory.EachCommitsOnce` | batchalign/worker/_registry.py:137-275 | in every interleaving the commit order lists each operation past its commit exactly once, every finished one included |
| `RegistryHistory.CleanIff` | batchalign/worker/_registry.py:122-129 | a run counts as clean if and only if each commit was made while its handle was the file at the path |
| `RegistryRuns.AloneIsTheMapOperation` | batchalign/worker/_registry.py:137-275 | an operation running by itself finishes, performs its map operation and returns what it should |
| `RegistryRuns.SerialRunsImplementTheMap` | batchalign/worker/_registry.py:137-275 | serial runs implement a map with put, delete and delete-by-pid |
| `RegistryRuns.LostUpdate` | batchalign/worker/_registry.py:150-175 | a run of two registrations in which both succeed and only the second is registered |
| `RequestLoop.ServeStdio` | batchalign/worker/_protocol.py:101-117 | the sequential loop writes the replies through the first shutdown request, in order |
| `RequestLoop.ExecKeepsInv` | batchalign/worker/_protocol.py:120-156 | every schedule keeps: tasks are the accepted requests, the lock holder is the writer, the flag means a finished shutdown request, the output is the served lines and a partial one |
| `RequestLoop.SplitJoin` | batchalign/worker/_protocol.py:62-65 | splitting joined single-line replies gives the replies back |
| `RequestLoop.OutputIsWholeLines` | batchalign/worker/_protocol.py:133-151 | in every reachable state the output is whole lines followed by a prefix of the lock holder's one line |
| `RequestLoop.NothingAcceptedAfterLeaving` | batchalign/worker/_protocol.py:139-156 | once the reader has left its loop nothing more is read or submitted |
| `RequestShutdown.FlagStopsTheReader` | batchalign/worker/_protocol.py:133-154 | on every schedule, once the flag is set only the line already let past it can still be submitted, and at most one more line is read |
| `RequestShutdown.CheckedFlagEndsReading` | batchalign/worker/_protocol.py:139-141 | a look at the set flag discards the line and ends reading for the rest of the run |
| `RequestShutdown.ClearFlagAccepts` | batchalign/worker/_protocol.py:139-142 | a look at the flag lets the line past exactly if the flag is clear |
| `RequestShutdown.ThreadsAreLimited` | batchalign/worker/_protocol.py:130-154 | in every reachable state at most max_threads requests are being worked on |
| `RequestShutdown.FreeThreadTakesTheOldest` | batchalign/worker/_protocol.py:130-154 | with a free thread the oldest queued request, and no other, can start |
| `RequestLoop.ConcurrentAnswersAPrefix` | batchalign/worker/_protocol.py:120-156 | when the loop returns, every accepted request is answered and the lines are, up to order, those of a prefix that covers the sequential loop's |
| `RequestLoop.ConcurrentRefinesSequential` | batchalign/worker/_protocol.py:101-156 | without a shutdown request both loops write the same multiset of lines; with one the concurrent loop writes at least the sequential lines |
| `RequestLoop.SomeStepIsEnabled` | batchalign/worker/_protocol.py:130-156 | no reachable state short of the return is stuck |
| `RequestLoop.SchedulesAreBounded` | batchalign/worker/_protocol.py:130-156 | every schedule is bounded by the work in its input, so every run finishes |
| `RequestOrder.NothingOvertakesAnError` | batchalign/worker/_protocol.py:139-151 | on every schedule and with any number of threads, no reply comes before the error reply to an earlier line |
| `RequestOrder.OneThreadKeepsOrder` | batchalign/worker/_protocol.py:120-156 | with one thread a request starts only when all earlier ones are done, requests are answered in input order, and only error replies overtake |
| `Morphosyntax.CollectByLanguage` | batchalign/inference/morphosyntax.py:249-277 | initial responses are right and each language's group lists its items in order |
| `Morphosyntax.RunGroup` | batchalign/inference/morphosyntax.py:332-375 | the pipeline sees the group's words in the context, which is empty again afterwards, also on failure |
| `Morphosyntax.Scatter` | batchalign/inference/morphosyntax.py:357-375 | sentence k goes to the item of member k, up to a failing tag override; nothing else changes |
| `Morphosyntax.RunLanguage` | batchalign/inference/morphosyntax.py:282-383 | one language's turn gives its items their outcome, touches no other, and never lowers the progress count |
| `Morphosyntax.BatchInfer` | batchalign/inference/morphosyntax.py:201-393 | every item has exactly its outcome at its own index; progress never decreases or exceeds the total and ends at the number of finished items |
| `Morphosyntax.JoinIsInjective` | batchalign/inference/morphosyntax.py:322-325 | nonempty paragraphs without newlines can be recovered from the joined text |
| `Morphosyntax.BatchEqualsAlone` | batchalign/inference/morphosyntax.py:254-366 | with a sentence-wise pipeline an item gets in the batch what it gets alone |
| `Morphosyntax.OtherLanguagesDoNotMatter` | batchalign/inference/morphosyntax.py:282-375 | an item's outcome is the same whatever pipelines are present at languages other than its own, the request's language included |
| `MorphosyntaxItems.OutcomeSpelledOut` | batchalign/inference/morphosyntax.py:254-366 | an item with words is in one call with exactly the items of its language, in order, made to that language's pipeline (or the retokenizing one in a Mandarin job) on their texts, and gets the sentence at its place |
| `MorphosyntaxItems.NoPipelineNoResult` | batchalign/inference/morphosyntax.py:309-316 | an item whose language has no pipeline stays empty, whatever other languages have |
| `MorphosyntaxItems.OwnPipelineAnswers` | batchalign/inference/morphosyntax.py:309-366 | otherwise it stays empty or gets a sentence of its own language's pipeline |
| `MorphosyntaxItems.ParagraphsApart` | batchalign/inference/morphosyntax.py:322-325 | a blank line and nothing else stands between paragraphs |
| `MorphosyntaxItems.CompletedCounts` | batchalign/inference/morphosyntax.py:379-383 | progress is the number of items that are no longer empty, failed ones included |
| `Coref.CollectPayloads` | crates/batchalign-chat-ops/src/coref.rs:176-197 | the sentences and the strictly increasing line numbers of the utterances with words |
| `Coref.SentencesAreUtterances` | crates/batchalign-chat-ops/src/coref.rs:176-197 | sentence k is the words of the k-th utterance with words, and there is one for each such utterance |
| `Coref.ApplyResults` | crates/batchalign-chat-ops/src/coref.rs:247-265 | annotates exactly the mapped utterance lines with nonempty text, in any map order |
| `Coref.AddsNothingIff` | crates/batchalign-chat-ops/src/coref.rs:247-265 | applying notes leaves a file the same up to provenance if and only if every note on an utterance line is empty or already there |
| `Coref.BuildLineNotes` | crates/batchalign-app/src/coref.rs:169-182 | the loop builds the map in which the last annotation per sentence wins and sentence numbers out of range are dropped |
| `Coref.LastNoteWins` | crates/batchalign-app/src/coref.rs:169-182 | a line named by some annotation of a known sentence has the text of the last one naming it |
| `Coref.UnnamedLineHasNoNote` | crates/batchalign-app/src/coref.rs:169-182 | a line that no annotation of a known sentence names has no note |
| `Coref.InferBatch` | crates/batchalign-app/src/coref.rs:372-413 | succeeds exactly when the call does with one item per document; the answers are the items' annotations in order, none for an item error |
| `Coref.RunSingle` | crates/batchalign-app/src/coref.rs:112-197 | the single-file result, gate by gate |
| `Coref.GateCases` | crates/batchalign-app/src/coref.rs:112-160 | a file is rejected exactly if it is no dummy and fails validation, and takes part exactly if it is valid, has English and an utterance with words |
| `Coref.Prepare` | crates/batchalign-app/src/coref.rs:231-296 | item e of the batch is the document of the e-th eligible file, which knows its place e; rejections are recorded |
| `Coref.Distribute` | crates/batchalign-app/src/coref.rs:323-340 | each eligible file is annotated with the answer at its place, all others are as parsed |
| `Coref.RunBatch` | crates/batchalign-app/src/coref.rs:222-364 | one result per file in input order; all ok and unannotated when the batched call fails |
| `Coref.ProvenanceIsInvisible` | crates/batchalign-app/src/provenance.rs:74-117 | adding a provenance comment changes nothing but provenance |
| `Coref.OneProvenance` | crates/batchalign-app/src/provenance.rs:74-117 | afterwards there is one provenance comment, the new one, right behind the headers |
| `Coref.BatchMatchesSingle` | crates/batchalign-app/src/coref.rs:112-364 | after a successful batched call of a per-document worker, a file has the status and annotations of its own run if and only if it is not eligible or its own call succeeds |
| `Coref.FailedBatchAgreement` | crates/batchalign-app/src/coref.rs:307-319 | the result after a failed batched call is that of the file's own run if and only if the file passes through, or its own call succeeds and every note is empty or already there |
| `Coref.FailedBatchDiffers` | crates/batchalign-app/src/coref.rs:307-319 | a batch whose call fails and in which neither the good files nor the rejected one get what they get alone |
| `ForcedAlignment.BuildTargetTokens` | batchalign/inference/fa.py:248-273 | tokens of all words in order and their counts, each word with at least one; fails exactly without a wildcard |
| `ForcedAlignment.CharTokensNotBlank` | batchalign/inference/fa.py:262-267 | no character token is the blank, and none is left exactly when all characters map to it |
| `AlignmentTimes.TokensOfCharacters` | batchalign/inference/fa.py:262-267 | a word's character tokens are those of its characters in order, from the dictionary or else the wildcard, the blank ones left out |
| `AlignmentTimes.TokensOfWord` | batchalign/inference/fa.py:260-270 | a word is aligned by those tokens, or by the wildcard exactly when it has none |
| `ForcedAlignment.BlankTargetIff` | batchalign/inference/fa.py:256-271 | a target token is the blank if and only if the wildcard is and some word has only blank characters |
| `ForcedAlignment.Unflatten` | batchalign/inference/fa.py:289-295 | each word gets its consecutive slice of the list |
| `ForcedAlignment.UnflattenRoundTrip` | batchalign/inference/fa.py:289-297 | with one span per token, flattening gives the list back and every word has as many spans as tokens |
| `ForcedAlignment.MillisMonotone` | batchalign/inference/fa.py:298-302 | frame times are monotone and stay within the audio length |
| `AlignmentTimes.FrameMillisAre` | batchalign/inference/fa.py:296-302 | a frame's time is the whole number of milliseconds in frame * samples / (frames * rate) seconds |
| `AlignmentTimes.AudioMillisAre` | batchalign/inference/fa.py:296-302 | the audio length is the whole number of milliseconds in samples / rate seconds |
| `AlignmentTimes.EndOfAudio` | batchalign/inference/fa.py:296-302 | frame 0 is at 0 and the end of the last frame at the audio's end |
| `ForcedAlignment.TimingsAreOrdered` | batchalign/inference/fa.py:297-303 | each word ends no earlier than it starts, and the next word starts no earlier than that, so the consumer accepts them |
| `ForcedAlignment.TimeWords` | batchalign/inference/fa.py:297-303 | each word is timed from the first to the last span of its own tokens, whatever the token counts |
| `ForcedAlignment.InferTimings` | batchalign/inference/fa.py:238-304 | every word, in order, is timed by the spans of its own tokens, the timings are ordered within the audio, and the consumer accepts them; fails only without a wildcard or when the aligner refuses |
| `ForcedAlignment.ParseIndexedTimings` | pyo3/src/worker_fa_exec.rs:144-171 | accepts exactly non-negative numbers whose first spans do not run backwards, and yields one slot per word |
| `ForcedAlignment.OneOnsetPerToken` | batchalign/inference/fa.py:193-197 | a monotone unit-step path over N tokens has N jumps, the k-th at the first frame of token k, with non-decreasing times |
| `ForcedAlignment.JumpsAreFirstFrames` | batchalign/inference/audio.py:461-464 | on every prefix of such a path the jumps are the first frames of the tokens seen |
| `TagCleaner.SkipTag` | pyo3/src/hk_asr_bridge.rs:132-139 | the inner loop stops after the nearest closer, or at the end |
| `TagCleaner.Clean` | pyo3/src/hk_asr_bridge.rs:125-155 | the one-pass scanner equals the specification that cuts each leftmost opener through its nearest closer |
| `CleanerLaws.TagIsCut` | pyo3/src/hk_asr_bridge.rs:129-144 | the first opener and the nearest closer behind it are cut out with all between them, and nothing else |
| `CleanerLaws.OpenTagIsLost` | pyo3/src/hk_asr_bridge.rs:140-143 | an opener never closed stays as two characters and everything after it is lost |
| `CleanerLaws.BracketsVanish` | pyo3/src/hk_asr_bridge.rs:147-148 | quotation brackets vanish without a gap |
| `CleanerLaws.PunctuationSeparates` | pyo3/src/hk_asr_bridge.rs:149-149 | sentence punctuation separates words as a space does |
| `CleanerLaws.OthersStay` | pyo3/src/hk_asr_bridge.rs:150-150 | every other character stays as it is |
| `CleanerLaws.CleanedAroundPunctuation` | pyo3/src/hk_asr_bridge.rs:125-155 | in a text without tags the words on both sides of a punctuation mark are cleaned by themselves |
| `CleanerLaws.SqueezedIsSingleSpaced` | pyo3/src/hk_asr_bridge.rs:154-154 | squeezing keeps the words, with one space between two and none at the ends |
| `TagCleaner.SqueezeTwice` | pyo3/src/hk_asr_bridge.rs:154-154 | squeezing whitespace is idempotent |
| `TagCleaner.CleanedIsTidy` | pyo3/src/hk_asr_bridge.rs:147-154 | cleaned text has no brackets or punctuation and is already squeezed |
| `TagCleaner.CleanedIsSameIff` | pyo3/src/hk_asr_bridge.rs:125-155 | cleaning leaves a text as it is if and only if it has no bracket or punctuation, is squeezed, and has no opener or only one at its very end |
| `TagCleaner.CleanAgainIff` | pyo3/src/hk_asr_bridge.rs:125-155 | cleaning again changes nothing if and only if there is no opener, or the first one is the last two characters |
| `TagCleaner.BracketHidesOpener` | pyo3/src/hk_asr_bridge.rs:125-155 | a text whose cleaned form has an opener its brackets had hidden, and changes when cleaned again |
| `ProviderProjection.PushToken` | pyo3/src/hk_asr_bridge.rs:228-243 | an element per token, and a timed word exactly for both times with end after start, read back from the element's seconds |
| `ProviderProjection.PushSegment` | pyo3/src/hk_asr_bridge.rs:246-251 | a segment becomes a monologue unless it is empty, its timed words after those before |
| `ProviderProjection.FunaudioElements` | pyo3/src/hk_asr_bridge.rs:217-244 | element k of the cleaned text carries timestamp k |
| `ProviderElements.TokenTimes` | pyo3/src/hk_asr_bridge.rs:158-174 | token k is timed exactly if entry k exists and begins with two numbers, by their nearest whole milliseconds |
| `ProviderElements.RoundIsNearest` | pyo3/src/hk_asr_bridge.rs:173-173 | timestamps are rounded to the nearest millisecond, halves away from zero |
| `ProviderProjection.ProjectFunaudio` | pyo3/src/hk_asr_bridge.rs:212-259 | the FunASR projection: monologues in order and the stably sorted timed words |
| `ProviderProjection.ProjectTencent` | pyo3/src/hk_asr_bridge.rs:262-308 | the Tencent projection, with word times relative to the segment start |
| `ProviderElements.TencentTokens` | pyo3/src/hk_asr_bridge.rs:269-279 | a segment keeps its speaker, and its tokens are exactly its words with text, in order, trimmed, normalised for Cantonese, at segment start plus offset |
| `ProviderProjection.ProjectAliyun` | pyo3/src/hk_asr_bridge.rs:311-365 | the Aliyun projection, with untimed tokens when a sentence has no words |
| `ProviderElements.SentenceTokens` | pyo3/src/hk_asr_bridge.rs:318-351 | a sentence's tokens are its words with text at their own times, or the untimed pieces of its text when it has no words |
| `ProviderElements.MonologuesOfSegments` | pyo3/src/hk_asr_bridge.rs:224-251 | the segments with tokens, in order, give the monologues; each element is its token with the times in seconds |
| `ProviderElements.TimedWordsOfTokens` | pyo3/src/hk_asr_bridge.rs:235-243 | the tokens whose end is after their start, in order, give the timed words at the tokens' own milliseconds |
| `ProviderProjection.ProjectionIsStableSort` | pyo3/src/hk_asr_bridge.rs:254-258 | timed words are ordered, keep the order of equal starts, and are a permutation of exactly the timed elements; no monologue is empty |
| `ProviderProjection.TimedWordsAreDetermined` | pyo3/src/hk_asr_bridge.rs:254-258 | no other list is ordered by start and keeps the order of equal starts |

## Left out

- Models and libraries (Stanza, Whisper, wav2vec, BERT, the aligners, the sound file reader): parameters, with their contract where one is needed.
- JSON and schema validation, the Python-to-Rust conversion layer, sockets, subprocesses, git and cargo: parameters or inputs.
- Floating point: times and samples are real numbers, rounding follows the language's rule; seconds written by the projections are exact.
- Integer width: millisecond values are unbounded, so the i64 overflow of a Tencent start plus offset and the saturating cast of a rounded timestamp are not modelled.
- Text libraries: lower-casing is ASCII for tree labels and a parameter elsewhere; the utterance model's whitespace test is a parameter.
- `RequestLoop.ConcurrentRefinesSequential`: dispatch is total and a function of the message; an exception inside the pool would leave its message unanswered.
- `RequestLoop.ServeStdio`: progress events, which are written without the lock by one worker of the sequential loop, are not modelled; nor is the end of the input in the middle of a read.
- The TCP request loops: they have the shape of the stdio loops, with broken connections on top.
- `RegistryRuns.CleanRunsAreSerial`: writing the temporary file and renaming it is one step, so two writers sharing the temporary name are not modelled; lock failures are not either.
- `AudioFile.LazyRunsMatchEager`: resampling is left out, because lazy audio is only made when the rates agree; times below 0 are covered by `AudioFile.NegativeBeginAgreement` only; the file does not change during a run.
- `AudioFile.ASRAudioFile.ReadChunk`: hashing of chunks and the file identity are single expressions over it.
- `Morphosyntax.BatchInfer`: elapsed time, the lock around a pipeline call, and an exception while the Mandarin pipeline is being loaded.
- `Morphosyntax.BatchEqualsAlone`: assumes that the group's texts are nonempty and without newlines, which the blank-line separator needs.
- `ForcedAlignment.InferTimings`: an empty emission, for which the code divides by zero; batching of requests over a shared audio cache.
- `Coref.RunSingle`: bracket notation and CHAT parsing, validation, language headers and serialisation are parameters; post-validation only logs.
- `AffectedPackages.PackageForPath`: scores are character counts, the code's are byte counts; directories that claim one path are prefixes of it, so the order is the same.
- Small word-level checks of morphosyntax output, the mapping of executor errors, the Rust port of utterance segmentation, schema files, configuration, the frontend: branch per case.
