# Proofs about alt

`alt` is a version control system that reads and writes git's formats. This project models its
hardest logic in Dafny and proves what the code promises. `dafny verify dfyconfig.toml` checks
everything.

Each part has the same shape. A specification says what is meant: what an edit script does, what
a delta stands for, which object an entry denotes, what a pattern matches. The code is modelled in
its own form, loops as loops and objects as classes, and each method is proved equal to a
function or to move one state to the next. The theorems are about these functions and states, for
all inputs, all runs, or all reachable states.

## Parts

- **Line diff**: `EditScript` (valid scripts and what applying one does), `Histogram` (the
  recursive diff), `Relabel` (only equalities matter), `Lines`, `LineDiff` (interning and
  coalescing), `Hunks` (patches).
- **Three-way merge**: `Slide`, `MergeRegions` (the walk over two scripts), `Merge` (the diff3 rule
  and the merge of buffers).
- **Group commit**: `GroupCommit` (the fields and the protocol as a step relation),
  `GroupCommitHistory` (what callers are told, and why every run ends).
- **Packs**: `Delta` and `DeltaFormat` (delta decoder against the format), `PackResolve` (resolving
  all entries), `DeltaCache` and `PackRead` (reading one entry through a cache), `PackHeader` and
  `ChainedNumber` (entry headers), `PackIndex` and `PackIndexFile` (the index file),
  `IndexedReads` (an index file built over a resolved pack serves its reads).
- **Graphs, trees, patterns**: `CiLint`, `TreeDiff` and `TreeDiffProof`, `Glob`, `GlobPattern` and
  `GlobSegments` (what a pattern string means in path segments).
- **Object store**: `Flush` (durability across processes), `MapRecord`, `ObjectMap` and
  `MapHandles` (the append-only map and its handles).
- **Git index**: `GitIndex`, `GitIndexProof`, `GitIndexCode`.
- Shared: `Octets`, `Places`, `Endian`, `ByteOrder`, `Objects`.

## Where a promise does not hold

The code is modelled as it is. In these places it does less than its documentation or its callers
expect, and the exact condition is proved.

- The comment on `find_lcs` says that it finds nothing when the regions share no line. It also
  finds nothing when every shared line occurs more than 64 times (`Histogram.FindLcsIsBestAnchor`;
  an input: `Histogram.SharedLineIsMissed`).
- Sliding is meant to give one place to a change that two diffs placed differently. It does for
  the edit itself, but the edit before it may stop elsewhere (`Slide.SameScriptExactlyWhenStopped`;
  an input: `Slide.NeighbourStopsSliding`).
- The decoder of deltas compares declared sizes modulo 2^64, so it also accepts sizes that git's
  format would not (`DeltaFormat.AppliesExactlyTheFormat`; an input:
  `DeltaFormat.WrappedSizeIsAccepted`).
- A pack that stores an object twice can pass indexing and make a read go round forever: the lookup
  may come upon the copy that is a delta of itself (`PackRead.AcceptedButEndless`,
  `IndexedReads.LookupFindsSecondCopy`). Reads end everywhere exactly when the base links have no
  cycle, in particular when no object is stored twice. From a place on a cycle the walk goes on for
  ever, whatever the cache holds (`PackRead.IndexedPack.DescendSteps`).
- A flush that notes the length of the pack while another process is in the midst of a record, and
  has written its header, may publish a marker beyond what is left when that process is killed
  and its torn record cut off. Later flushes of shorter records are then acknowledged without
  being synced. `Flush.NoteIsSafeExactlyWhenShort` is the condition, `Flush.AcknowledgedCanBeLost`
  a run. Both maps have records of one length and are safe.
- A `*` after a `**` in a pattern is never retried, so `**/*.rs` rejects `src/a.rs`. The matcher is
  complete exactly for patterns in which no `*` comes after a `**`.
- Bytes of a glob literal are pushed as characters, so a literal with a byte of 128 or more does
  not match itself (`GlobPattern.LiteralMatchesItself`; an input: `GlobPattern.AccentRejectsItself`).
- The lockstep tree diff compares names byte by byte, which is not git's directory order, and modes
  as they are spelled. It always conserves leaves, but it can report an unchanged file. It never
  does exactly when each entry with a leaf comes behind smaller names only and no file has a mode
  with a needless zero in front (`TreeDiffProof.ExactExactlyInByteOrder`). Of
  trees in git's order, those are in byte order in which no directory with a leaf stands behind an
  entry that continues its name with a byte below the slash (`TreeDiffProof.GitOrderInBytes`; inputs:
  `TreeDiffProof.GitOrderReportsUnchanged`, `TreeDiffProof.OtherSpellingReportsUnchanged`).
- A rewind of the object map takes records away that another handle may have read. That handle does
  not notice: it still says that the dropped objects are recorded, and its next record stands behind
  a hole, so that the file cannot be opened any more. The checkpoint that the server takes before a
  rewind shows what others have appended, not what they have read. The other handles go on being
  right exactly if they have read nothing of what is dropped (`MapHandles.MapHandle.Rewind`,
  `MapRecord.AppendBehindHole`; a run: `MapHandles.RunWithRewind`).
- A `**` is said to stand for any number of path segments, its slashes included. The compiled parts
  forget these slashes, so `a/**/b` also accepts `ab`, and `src/**` accepts `srcx`
  (`GlobSegments.SlashIsForgotten`). Nothing that a pattern means is lost. Nothing else is matched if
  no `**` took a slash along, and something else always if a `**` stands between slashes
  (`GlobSegments.WhenPartsAgree`).
- A serialized index is not read back when a path of 4095 bytes or more holds a NUL. Shorter
  paths may hold one (`GitIndexProof.SerializedIsReadBack`; an input:
  `GitIndexProof.NulInLongPathIsLost`).

## Assumptions

- Hashes and checksums are parameters. `PackResolve` and `PackRead` assume only that no two
  different objects of the pack at hand have the same id. Compression is left out: an entry
  comes with its inflated payload.
- A tree does not contain itself, so the trees of a store have heights (`TreeDiff.Store`).
- Callers of a lock are modelled where they have it: a method that takes the write lock requires
  that nobody else holds it.

## Model

| member | source | states |
|---|---|---|
| EditScript.ApplyGivesNew | fuzz/fuzz_targets/diff_apply.rs:9-48 | Applying any valid edit script to the old sequence gives the new one. |
| Histogram.StripRemovesEqualRuns | crates/alt-diff/src/histogram.rs:30-39 | Trimming removes equal runs only, and what is left differs in its first and in its last line. |
| Histogram.RunThroughIsMaximal | crates/alt-diff/src/histogram.rs:97-107 | The run grown around a matching pair is equal on both sides and cannot be extended either way. |
| Histogram.OccurrencesComplete | crates/alt-diff/src/histogram.rs:77-81 | The position list of a token has all its positions in the region, ascending, and no others. |
| Histogram.RarityIsLeast | crates/alt-diff/src/histogram.rs:108-112 | The rarity of a run is the least number of occurrences of any of its tokens, and some token has it. |
| Histogram.FindLcsIsBestAnchor | crates/alt-diff/src/histogram.rs:69-129 | The search fails exactly when no common token occurs at most 64 times in the old region; otherwise it returns a run through such a token that no other such run beats in rarity and then length. |
| Histogram.SharedLineIsMissed | crates/alt-diff/src/histogram.rs:69-95 | An input on which nothing can be stripped, both sides share a line, and the search finds nothing: the old side has the line 65 times. |
| Histogram.BestIsFirstOptimum | crates/alt-diff/src/histogram.rs:113-123 | Of the best candidates the first in scan order wins. |
| Histogram.FindLcsIsCommonRun | crates/alt-diff/src/histogram.rs:53-57 | What the search finds is a nonempty common run inside the region, so both recursive calls are on smaller regions. |
| Histogram.HistIsScript | crates/alt-diff/src/histogram.rs:20-63 | For all sequences and regions the diff ends and is a valid script: ordered, disjoint, equal gaps on both sides. |
| Histogram.HistIsSeparated | crates/alt-diff/src/histogram.rs:20-63 | Between any two edits lies at least one equal line on both sides. |
| Histogram.HistIsTight | crates/alt-diff/src/histogram.rs:20-63 | No edit is empty, and a two-sided edit differs in its first and in its last line. |
| Histogram.HistOfEqual | crates/alt-diff/src/histogram.rs:30-51 | Equal sequences have an empty diff. |
| Histogram.CollectPositions | crates/alt-diff/src/histogram.rs:77-81 | The position map has, for every token, its positions in the region. |
| Histogram.GrowRun | crates/alt-diff/src/histogram.rs:97-113 | The loops around one pair compute the maximal run and its rarity. |
| Histogram.ScanForLcs | crates/alt-diff/src/histogram.rs:69-129 | The nested scan loops compute the optimum of all candidate runs. |
| Histogram.Diff | crates/alt-diff/src/histogram.rs:20-63 | The recursion over moving bounds pushes exactly the edits of the specified diff, in order. |
| Relabel.HistRelabels | crates/alt-diff/src/lib.rs:60-72 | The diff depends on the equalities between lines only, so diffing interned tokens is diffing lines. |
| Lines.LinesAreUnique | crates/alt-diff/src/lib.rs:27-42 | A buffer falls in only one way into lines that keep their newline. |
| Lines.LinesOfAreLines | crates/alt-diff/src/lib.rs:27-42 | The pieces are lines, only the last may lack its newline, and they concatenate to the buffer. |
| Lines.SplitLines | crates/alt-diff/src/lib.rs:29-42 | The scanning loop produces exactly these lines. |
| LineDiff.LineScriptIsGood | crates/alt-diff/src/lib.rs:50-73 | For all line sequences the diff is valid, separated and tight, and applying it to old gives new. |
| LineDiff.CoalesceKeepsMeaning | crates/alt-diff/src/lib.rs:75-94 | Coalescing any valid script gives a valid script for the same pair, without empty edits and with an equal line between any two. |
| LineDiff.CoalesceIsIdempotent | crates/alt-diff/src/lib.rs:79-94 | A script that is separated and has no empty edits is left alone. |
| LineDiff.Coalesce | crates/alt-diff/src/lib.rs:79-94 | The loop that extends the last edit in place computes the coalesced script. |
| LineDiff.InternLines | crates/alt-diff/src/lib.rs:61-68 | The tokens of lines are those of one table that, as long as it has at most 2^32 lines, gives different tokens to different lines. |
| LineDiff.TooManyLines | crates/alt-diff/src/lib.rs:61-68 | With more than 2^32 different lines, two of them get the same token. |
| LineDiff.DiffLines | crates/alt-diff/src/lib.rs:60-73 | Interning, diffing tokens and coalescing gives the diff of the lines themselves, if both sides together have at most 2^32 different lines; in any case a script for sequences of these lengths. |
| Slide.SlideKeepsScript | crates/alt-merge/src/lib.rs:62-89 | Sliding turns any valid script into a valid script for the same pair. |
| Slide.SingleChangeIsCanonical | crates/alt-merge/src/lib.rs:56-94 | All valid scripts that are one insertion or one deletion slide to the same edit, the lowest valid one. |
| Slide.PlacementIsSettled | crates/alt-merge/src/lib.rs:56-89 | Two valid scripts that differ in the place of one insertion or deletion slide to the same edit there, and to the same edits everywhere else but right before it. |
| Slide.SameScriptExactlyWhenStopped | crates/alt-merge/src/lib.rs:64-67 | They slide to the same script if and only if there is no edit before, or the edit before, slid towards the higher place, could not slide on towards the lower one. |
| Slide.NeighbourStopsSliding | crates/alt-merge/src/lib.rs:64-67 | An input on which the two placements do not slide to the same script, because limits are taken from edits that have not slid yet. |
| Slide.SlideDown | crates/alt-merge/src/lib.rs:62-94 | The loop that shifts edits of the array in place ends with exactly the slid script. |
| MergeRegions.RegionsCoverAll | crates/alt-merge/src/lib.rs:97-199 | The regions cut base, ours and theirs into the same list of consecutive pieces that miss nothing. |
| MergeRegions.NextAdvances | crates/alt-merge/src/lib.rs:113-193 | In every walk over two valid scripts the indices stay in range, the sides stay aligned and every round makes progress. |
| MergeRegions.RegionsAreGood | crates/alt-merge/src/lib.rs:129-166 | In every region the edits of a side are a script that rewrites the base piece into the side's piece. |
| MergeRegions.DivergentRegionIsLeast | crates/alt-merge/src/lib.rs:129-149 | Growing a region reaches the least bound that no edit of either script crosses, whichever side grows first. |
| MergeRegions.RegionsSwap | crates/alt-merge/src/lib.rs:97-199 | Swapping ours and theirs swaps the pieces of every region and changes nothing else. |
| Merge.ConflictNeedsBothSides | crates/alt-merge/src/lib.rs:168-186 | A conflict region has an edit of both scripts, and its three pieces all differ. |
| Merge.OneSidedRegionIsTaken | crates/alt-merge/src/lib.rs:168-176 | A region that only one script edits is taken from that side. |
| Merge.EmitCountsConflicts | crates/alt-merge/src/lib.rs:177-185 | The conflict counter is the number of regions in conflict. |
| Merge.DeltaLands | crates/alt-merge/src/lib.rs:151-162 | The signed line counts lead to the position that the side's edits end at, so it is never negative or out of range. |
| Merge.MergeIsSymmetric | crates/alt-merge/src/lib.rs:97-199 | For any two valid scripts, swapping the sides keeps the number of conflicts and, when clean, the content. |
| Merge.ThreeWayIsSymmetric | crates/alt-merge/src/lib.rs:44-54 | The same for the merge of any three buffers through the real diff. |
| Merge.MergeIdentities | fuzz/fuzz_targets/merge3.rs:29-38 | For all buffers, merge(base, X, base), merge(base, base, X) and merge(base, X, X) are clean and equal X byte for byte. |
| Merge.SingleChangeIsAppliedOnce | crates/alt-merge/src/lib.rs:56-61 | One insertion or deletion that the two diffs placed differently is applied once after sliding. |
| Merge.GrowRegion | crates/alt-merge/src/lib.rs:129-149 | The alternating loops compute the end of the region and the edits inside it. |
| Merge.MergeRegion | crates/alt-merge/src/lib.rs:129-192 | One divergent region is emitted by the diff3 rule and the cursors move behind it. |
| Merge.MergeEdits | crates/alt-merge/src/lib.rs:97-199 | The walk emits every region once, in order, by the diff3 rule. |
| Merge.MergeBuffers | crates/alt-merge/src/lib.rs:44-54 | Splitting, diffing, sliding and walking together compute the specified merge. |
| Hunks.HunksAreCorrectPatch | crates/alt-diff/src/lib.rs:108-171 | For every valid script and every context: header lengths are right, hunks neither overlap nor touch, and applying them at their stated positions to old gives new. |
| Hunks.DiffHunksAreCorrectPatch | crates/alt-diff/src/lib.rs:110-132 | The same for the hunks of the diff of any two buffers. |
| Hunks.GroupEdits | crates/alt-diff/src/lib.rs:118-126 | An edit joins the group of the one before it exactly when the gap is at most twice the context. |
| Hunks.BuildHunk | crates/alt-diff/src/lib.rs:134-171 | The loops compute the header and the tagged lines of a group. |
| Hunks.MakeHunks | crates/alt-diff/src/lib.rs:110-132 | Splitting, diffing, grouping and building give exactly the specified hunks, if both sides together have at most 2^32 different lines. |
| GroupCommit.GroupCommit.Assign | crates/alt-cli/src/group_commit.rs:76-80 | Hands out the next ticket and changes nothing else. |
| GroupCommit.GroupCommit.Look | crates/alt-cli/src/group_commit.rs:99-119 | One look at the fields decides between returning Ok, sleeping, returning the last error and leading a flush. |
| GroupCommit.GroupCommit.Complete | crates/alt-cli/src/group_commit.rs:121-131 | A finished flush clears the flag, counts, and raises durable or records the error. |
| GroupCommit.SafetyOfEveryRun | crates/alt-cli/src/group_commit.rs:92-133 | In every reachable state at most one flush runs, durable is at most next_ticket, and there were at most as many flushes as callers. |
| GroupCommit.DurableNeverFalls | crates/alt-cli/src/group_commit.rs:121-130 | No step lowers durable or takes a ticket back. |
| GroupCommit.FinishReturns | crates/alt-cli/src/group_commit.rs:115-131 | A leader returns right after its flush: Ok after a success, its own error after a failure. |
| GroupCommitHistory.WhatCallersAreTold | crates/alt-cli/src/group_commit.rs:76-133 | In every run Ok is returned for a ticket only if a flush that started after it was handed out succeeded, an error exactly when the caller's own flush failed and with that error, and each flush covers more than all that had succeeded before it started. |
| GroupCommitHistory.NoFlushAfterLast | crates/alt-cli/src/group_commit.rs:99-119 | Once a flush that covers every ticket has succeeded, no further flush starts. |
| GroupCommitHistory.NeverStuck | crates/alt-cli/src/group_commit.rs:103-105 | A caller asleep on the condition variable always has a running leader that will wake it. |
| GroupCommitHistory.StepLowersMeasure | crates/alt-cli/src/group_commit.rs:92-133 | Every step other than a spurious wake-up lowers a whole-run measure. |
| GroupCommitHistory.EveryRunEnds | crates/alt-cli/src/group_commit.rs:92-133 | With n callers and no spurious wake-ups, every run ends within n(n+1)+3n steps, with at most n flushes and a result for every caller. |
| DeltaFormat.AppliesExactlyTheFormat | crates/alt-git-pack/src/delta.rs:10-63 | For every base and byte string, the decoder returns a target if and only if the string spells a delta for the base whose meaning is that target. |
| DeltaFormat.WrappedSizeIsAccepted | crates/alt-git-pack/src/delta.rs:73-92 | A delta that declares a base of 2^64 bytes is accepted for the empty base. |
| DeltaFormat.VarintReads | crates/alt-git-pack/src/delta.rs:73-92 | A varint of at most ten bytes is read as its value modulo 2^64. |
| DeltaFormat.CopyIsSpelled | crates/alt-git-pack/src/delta.rs:30-47 | Whatever operands were read, some copy instruction spells exactly these bytes and has the offset and size that were read. |
| DeltaFormat.ExecuteAllSpelled | crates/alt-git-pack/src/delta.rs:25-59 | Executing a spelled instruction list yields what the list stands for, or fails as it does. |
| Delta.ReadVarint | crates/alt-git-pack/src/delta.rs:73-92 | The accumulating loop computes the specified varint, with its two error cases. |
| Delta.RunInstructions | crates/alt-git-pack/src/delta.rs:25-59 | The opcode loop grows the output by the chunks of the instructions. |
| Delta.Apply | crates/alt-git-pack/src/delta.rs:13-63 | The whole decoder, with the source and target size checks. |
| PackResolve.MeaningIsUnique | crates/alt-git-pack/src/index_pack.rs:29-36 | Without hash collisions inside the pack, an entry stands for at most one object. |
| PackResolve.LeftOverHasNoChain | crates/alt-git-pack/src/index_pack.rs:299-348 | When nothing more can be resolved, no entry left over has a finite chain to a plain entry. |
| PackResolve.BadDeltaMeansNothing | crates/alt-git-pack/src/index_pack.rs:334 | An entry whose delta does not apply to its base has no meaning. |
| PackResolve.Attack | crates/alt-git-pack/src/index_pack.rs:305-339 | One visit resolves an entry to its meaning, leaves it blocked, or shows that it has none. |
| PackResolve.ResolvePass | crates/alt-git-pack/src/index_pack.rs:303-340 | A pass keeps what is resolved right, and without progress every entry left is blocked. |
| PackResolve.ResolveAll | crates/alt-git-pack/src/index_pack.rs:280-355 | Resolving ends. On Ok every entry has its recursive meaning; it is Ok if and only if every entry has a meaning; when it is stuck, exactly the entries left over have none. |
| DeltaCache.YoungestEvicted | crates/alt-git-pack/src/cache.rs:44-67 | The most recently used entry is evicted only if it does not fit the target by itself, so an entry just put that passes the size gate survives. |
| DeltaCache.EvictionIsUnique | crates/alt-git-pack/src/cache.rs:69-83 | What an eviction keeps is determined: the most recent entries that fit, none too few and none too many. |
| DeltaCache.DeltaBaseCache.Get | crates/alt-git-pack/src/cache.rs:37-42 | A hit returns what was put and makes the entry the most recent one; contents do not change. |
| DeltaCache.DeltaBaseCache.Put | crates/alt-git-pack/src/cache.rs:44-67 | After every put the byte counter is the sum of the entries and at most the budget, and the entry just put is there unless it was larger than a quarter of it. |
| DeltaCache.DeltaBaseCache.EvictTo | crates/alt-git-pack/src/cache.rs:69-83 | Eviction drops the least recently used entries and stops as soon as the target is reached. |
| PackRead.GroundedWithoutCycles | crates/alt-git-pack/src/lib.rs:86-116 | In an accepted pack the walk down to a plain entry ends everywhere if and only if no entry comes back to itself over base offsets and the index. |
| PackRead.DistinctIdsAreGrounded | crates/alt-git-pack/src/lib.rs:86-116 | In an accepted pack that stores no object twice, the walk ends everywhere. |
| PackRead.AcceptedButEndless | crates/alt-git-pack/src/lib.rs:105-114 | Whatever the hash, a pack that holds an object twice can be accepted, with a right and complete index, and yet make a read go round forever. |
| PackRead.WalkGoesOnForever | crates/alt-git-pack/src/lib.rs:86-116 | Where the walk down does not end, it goes on for any number of steps, and it ends from no place on the way. |
| IndexedReads.LookupFindsSecondCopy | crates/alt-git-pack/src/idx.rs:116-137 | Whatever the hash: in the index file built over such a pack in pack order, the lookup comes upon the copy that is a delta of itself, and the walk from there has no end. |
| PackRead.ReadAgreesWithResolve | crates/alt-git-pack/src/lib.rs:84-125 | What is stored at an entry's offset, which is what a read returns, is the object that resolving the whole pack finds for that entry. |
| PackRead.ResolvedIsIndexed | crates/alt-git-pack/src/index_pack.rs:123-134 | An index that names exactly the resolved objects is right and complete for the pack, and the pack is one that reads may rely on. |
| IndexedReads.BuiltIndexNamesResolved | crates/alt-git-pack/src/index_pack.rs:123-134 | The index file built over the resolved objects, read back and searched, names exactly the resolved objects, each id at an entry that has it. |
| IndexedReads.BuiltIndexServesPack | crates/alt-git-pack/src/index_pack.rs:123-134 | So a pack that was resolved and indexed is accepted, and lookups in its index file are right and complete for it. |
| PackRead.IndexedPack.Descend | crates/alt-git-pack/src/lib.rs:87-116 | The walk down ends at a cached or plain object with the frames that lead back up. |
| PackRead.IndexedPack.DescendSteps | crates/alt-git-pack/src/lib.rs:87-116 | From an offset whose walk does not end, the loop of the walk down takes any number of steps: whatever earlier reads have cached, nothing is cached at a place that it comes to. |
| PackRead.IndexedPack.ReadAt | crates/alt-git-pack/src/lib.rs:84-125 | With any cache contents left by earlier reads, a read returns the meaning of the entry, keeps the cache right, and in an accepted pack does not fail. |
| PackRead.IndexedPack.ReadId | crates/alt-git-pack/src/lib.rs:76-82 | Reading by id finds exactly the ids in the index and returns an object with that id, if the walk from there ends. |
| PackHeader.HeaderIsReadBack | crates/alt-git-pack/src/write.rs:126-143 | The header written for an object is read back: kind, size and start of data. |
| PackHeader.OfsHeaderIsRead | crates/alt-git-pack/src/pack.rs:91-109 | A header with a spelled distance names the entry that far back. |
| PackHeader.WriteHeader | crates/alt-git-pack/src/write.rs:126-142 | The loop spells type and size. |
| PackHeader.ReadHeader | crates/alt-git-pack/src/pack.rs:66-128 | The loops of the header reader compute the specified header, with its error cases. |
| ChainedNumber.ChainedValue | crates/alt-git-index/src/lib.rs:273-290 | The spelling of a chained number stands for it. |
| ChainedNumber.ChainIsUnique | crates/alt-git-pack/src/pack.rs:92-104 | A chained number has no other spelling. |
| ChainedNumber.ChainIsRead | crates/alt-git-index/src/lib.rs:274-290 | A chain of at most 64 bits is read as its value. |
| ChainedNumber.CompressedPathIsRead | crates/alt-git-index/src/lib.rs:220-233 | A path written by version 4 prefix compression, against any shared prefix, is read as that path, and the reader stands behind it. |
| PackIndex.Parse | crates/alt-git-pack/src/idx.rs:38-79 | The fan-out loop and the size checks accept exactly the files whose tables fit. |
| PackIndex.FanSplits | crates/alt-git-pack/src/idx.rs:118-125 | Among sorted ids the fan-out count of a byte is where the ids with a greater first byte begin. |
| PackIndex.Lookup | crates/alt-git-pack/src/idx.rs:116-137 | The search loop in a bucket ends at the specified place: what is found has the id; in a consistent index, what is not found is not there; in any accepted file no read is out of range. |
| PackIndexFile.ImageIsRead | crates/alt-git-pack/src/idx.rs:93-113 | Every id and every offset is read back as written, including offsets from 2^31 on through the large table. |
| PackIndexFile.ImageIsConsistent | crates/alt-git-pack/src/write.rs:198-209 | What is written from sorted entries is sorted and its fan-out counts right. |
| PackIndexFile.BuildIdx | crates/alt-git-pack/src/write.rs:191-232 | The writer sorts the entries and appends header, fan-out, ids, checksums, offsets, large offsets, trailer and checksum. |
| PackIndexFile.BuiltIsReadBack | crates/alt-git-pack/src/index_pack.rs:383-438 | For all entries within the format's limits, the index read back has exactly the ids written, each with an offset recorded for it. |
| CiLint.BackEdge | crates/alt-cli/src/ci.rs:178-187 | An edge back to a gray step closes a cycle. |
| CiLint.TopologicalHasNoCycle | crates/alt-cli/src/ci.rs:153-198 | Where all steps stand in a topological order there is no cycle. |
| CiLint.Search.Visit | crates/alt-cli/src/ci.rs:165-194 | The coloured search keeps gray as the current path and, unless a cycle was reported, the finishing order topological; it ends because fewer steps are white. |
| CiLint.DuplicatesAreExact | crates/alt-cli/src/ci.rs:129-139 | A duplicate is reported if and only if two steps have the same name. |
| CiLint.UndefinedIsExact | crates/alt-cli/src/ci.rs:140-152 | An undefined need is reported if and only if some need is no step's name. |
| CiLint.GraphOfDistinct | crates/alt-cli/src/ci.rs:154-157 | Where names are distinct the graph has the needs of every step. |
| CiLint.Lint | crates/alt-cli/src/ci.rs:127-200 | A cycle is reported if and only if the needs graph has one; every reported edge lies on a cycle; without a report the finishing order is a topological order of all steps; lint is silent exactly for workflows with distinct names, defined needs and no cycle. |
| TreeDiffProof.DiffConserves | crates/alt-cli/src/log_cmd.rs:169-290 | For any order of entries: old leaves without those reported as old, and with those reported as new, are the new leaves, though shared subtrees are never read. |
| TreeDiffProof.DiffIsExact | crates/alt-cli/src/log_cmd.rs:160-168 | With every tree in order, no leaf is reported both as removed and as added. In order means: plain, distinct names, each entry with a leaf behind smaller names only, and files with modes as git spells them. |
| TreeDiffProof.DiffIsTheDifference | crates/alt-cli/src/log_cmd.rs:160-290 | Then what is reported is exactly the difference of the two leaf multisets. |
| TreeDiffProof.ExactExactlyInByteOrder | crates/alt-cli/src/log_cmd.rs:199-236 | Among trees in order: diffs of a tree against trees in order never report anything unchanged if and only if the tree is in order. |
| TreeDiffProof.StoreIsExactExactlyInByteOrder | crates/alt-cli/src/log_cmd.rs:169-290 | The same for all trees of a store at once. |
| TreeDiffProof.GitOrderInBytes | crates/alt-cli/src/log_cmd.rs:199-206 | A tree in git's order is in byte order if and only if no directory with a leaf stands behind an entry whose name continues the directory's with a byte below the slash. |
| TreeDiffProof.GitOrderedIsExactExactlyWhen | crates/alt-cli/src/log_cmd.rs:199-236 | So in a store of trees in git's order, no diff against a tree in byte order reports anything unchanged if and only if there is no such pair and no file has a mode spelled in another way. |
| TreeDiffProof.OtherSpellingReportsUnchanged | crates/alt-cli/src/log_cmd.rs:233-236 | A file with the mode `0644` on one side and `644` on the other is reported as changed from itself to itself. |
| TreeDiffProof.GitOrderReportsUnchanged | crates/alt-cli/src/log_cmd.rs:202-205 | In git's own directory order an unchanged file can be reported as deleted and as added. |
| TreeDiffProof.UnderOne | crates/alt-cli/src/log_cmd.rs:208-220 | No path lies below two entries of the same tree. |
| TreeDiff.Walker.Push | crates/alt-cli/src/log_cmd.rs:208-220 | Extends the shared path buffer by a separator and a name, and says how long it was. |
| TreeDiff.Walker.WalkEntries | crates/alt-cli/src/log_cmd.rs:199-289 | The lockstep loop reports exactly the specified changes in order, until something fails, and leaves the path buffer as it was. |
| TreeDiff.Walker.EmitBothSides | crates/alt-cli/src/log_cmd.rs:236-286 | Two entries of one name: skipped if equal, descended into, or reported as files. |
| TreeDiff.Walker.Diff | crates/alt-cli/src/log_cmd.rs:169-290 | The whole walk, with its errors for unreadable trees and for a callback that fails: in every case the callback has taken the specified changes up to the failure, and the path buffer is as before. |
| Glob.AcceptedMatches | crates/alt-cli/src/policy.rs:336-410 | Whatever the matcher accepts, the pattern means. |
| Glob.MissIsRight | crates/alt-cli/src/policy.rs:336-390 | Without `*`, retrying only the last `**` loses nothing: after a final miss no suffix of the input matches. |
| Glob.CompleteWhenStarsFirst | crates/alt-cli/src/policy.rs:336-410 | Where no `*` comes after a `**`, the matcher accepts exactly what the pattern means. |
| Glob.RejectedInput | crates/alt-cli/src/policy.rs:362-373 | Where a `*` comes after a `**`, some input that the pattern means is rejected. |
| Glob.CompleteExactlyWhenStarsFirst | crates/alt-cli/src/policy.rs:336-410 | The matcher is complete if and only if no `*` comes after a `**`. |
| Glob.SuffixInAnyDirectory | crates/alt-cli/src/policy.rs:362-373 | The pattern for a suffix in any directory misses a file one directory down. |
| Glob.MatchParts | crates/alt-cli/src/policy.rs:336-390 | The loop with its one backtrack point ends and computes the specified verdict. |
| Glob.MatchAnySegment | crates/alt-cli/src/policy.rs:392-410 | Tries every split of the segment from the longest on. |
| GlobPattern.CompileWritten | crates/alt-cli/src/policy.rs:288-328 | Every list of parts that can be written down is what its string compiles to. |
| GlobPattern.CompiledIsWritable | crates/alt-cli/src/policy.rs:288-328 | Every string compiles to parts that can be written down: no empty or adjacent literals, no two `*` in a row. |
| GlobPattern.LiteralMatchesItself | crates/alt-cli/src/policy.rs:319-320 | A pattern without wildcards matches itself if and only if it is ASCII. |
| GlobPattern.AccentRejectsItself | crates/alt-cli/src/policy.rs:319-320 | A pattern of one non-ASCII letter rejects the path it spells and accepts another one. |
| GlobPattern.New | crates/alt-cli/src/policy.rs:292-328 | The scanning loop computes the specified parts. |
| GlobSegments.SpansAreSegments | crates/alt-cli/src/policy.rs:288-291 | What a `**` may stand for are rows of path segments with the slashes that it took along. |
| GlobSegments.CompiledForgets | crates/alt-cli/src/policy.rs:292-328 | The compiled parts are the pieces of the string without the slashes that a `**` took along. |
| GlobSegments.MeantIsMatched | crates/alt-cli/src/policy.rs:288-328 | Whatever a pattern means in path segments, its parts match. |
| GlobSegments.BetweenMatchesMore | crates/alt-cli/src/policy.rs:300-316 | If a `**` stands between slashes, the parts also match an input that the pattern does not mean. |
| GlobSegments.WhenPartsAgree | crates/alt-cli/src/policy.rs:288-328 | For every pattern string: the parts match what it means, and nothing else if no `**` took a slash along, but more if a `**` stands between slashes; where every `**` has a slash beside it and there is no `*`, they agree if and only if there is no `**`. |
| GlobSegments.SlashIsForgotten | crates/alt-cli/src/policy.rs:300-316 | `a/**/b` accepts `ab` and `src/**` accepts `srcx`, which neither means. |
| Flush.StepKeeps | crates/alt-odb/src/lib.rs:264-275 | Every step of opening, catching up, writing, flushing, being killed or losing power keeps the invariant: of both maps always, and of the pack under the guard on noting its length. |
| Flush.AcknowledgedIsNeverLost | crates/alt-odb/src/lib.rs:642-662 | In every run, whatever any flush acknowledged of both maps, over the fast path or not, consists of whole records that are in the files and synced from then on, through kills, cut tails and power losses, and the marker covers synced records only. The same of the pack in runs in which no flush notes its length behind the header of a torn record. |
| Flush.NoteIsSafeExactlyWhenShort | crates/alt-odb/src/lib.rs:652-657 | When a flush notes the length of the pack: everything acknowledged from then on is safe if and only if the pack does not end behind the header of a torn record. |
| Flush.AcknowledgedCanBeLost | crates/alt-odb/src/lib.rs:642-657 | A run from new files in which a flush acknowledges a record of the pack that the next power loss takes. |
| Flush.RecordsStayCovered | crates/alt-odb/src/lib.rs:652-657 | Short of a power loss, no whole record is lost or unsynced, and every record that the marker covers stays covered, though the marker may fall. |
| Flush.MarkerStaysClose | crates/alt-odb/src/map.rs:222-225 | After a torn record was cut off, the marker may exceed the file, but by less than the shortest record, so no new record fits below it. |
| Flush.MarkerMayExceedTheFile | crates/alt-odb/src/lib.rs:652-657 | A run from new files that leaves the marker beyond the end of the pack by a shortest record. |
| Flush.FlushedIsNeverLost | crates/alt-odb/src/lib.rs:539-557 | Whatever a process has read or written when it calls a flush that returns Ok is in the files and synced from then on. |
| Flush.AppendedIsNeverLost | crates/alt-odb/src/lib.rs:302-329 | A record that a process completed at any time before a flush of its own that returns Ok is, with all that came before it in the file, in the file and synced from then on. |
| Flush.CoveredIsDurable | crates/alt-odb/src/lib.rs:643-646 | Records that the marker covers are synced, so the path without a lock may acknowledge them. |
| Flush.SnapshotIsFixed | crates/alt-odb/src/lib.rs:642-661 | What a flush acknowledges at its end is what it asked for at its start. |
| Flush.PublishKeeps | crates/alt-odb/src/lib.rs:652-657 | A published marker covers synced records only, and all that the marker before covered. |
| Flush.MarkerRoundTrip | crates/alt-odb/src/lib.rs:180-204 | The marker is read back as it was written; a missing or cut file never claims more than was written. |
| Flush.NeverStuck | crates/alt-odb/src/lib.rs:647-661 | A flush waits only for a process that can go on, and is over after at most 13 steps of its own. |
| MapRecord.EntryRoundTrip | crates/alt-odb/src/map.rs:70-100 | A record is parsed back as the entry encoded, and its checksum fits. |
| MapRecord.Encode | crates/alt-odb/src/map.rs:71-81 | Filling the fixed buffer field by field gives the specified record. |
| MapRecord.CutIsRecovered | crates/alt-odb/src/map.rs:115-176 | Wherever the file is cut off, opening recovers exactly the whole records before the cut. |
| MapRecord.HoleBreaksFile | crates/alt-odb/src/map.rs:148-164 | Behind whole records, a hole of missing records with something behind it: opening fails, and a handle that catches up reads up to the hole or fails. |
| MapRecord.AppendBehindHole | crates/alt-odb/src/map.rs:195-200 | A record written by a handle that takes the file to hold so many records leaves a file that can be opened if and only if it holds that many. |
| ObjectMap.GitIndexIsInverse | crates/alt-odb/src/map.rs:231-233 | With distinct ids, the git index is exactly the inverse of the entry list. |
| ObjectMap.SlotsAreInverse | crates/alt-odb/src/map.rs:235-241 | The content index lists exactly the entries with a content, in order. |
| ObjectMap.IndexGrows | crates/alt-odb/src/map.rs:188-193 | Inserting an entry keeps both indexes right. |
| ObjectMap.DroppedIsIndexed | crates/alt-odb/src/map.rs:295-307 | Dropping the last entries one by one leaves both indexes as they are for the entries kept. |
| ObjectMap.IndexIsUnique | crates/alt-odb/src/map.rs:280-283 | The indexes are determined by the entries, so going back restores them. |
| MapHandles.MapHandle.Insert | crates/alt-odb/src/map.rs:188-193 | Adds the entry at the end and to both indexes. |
| MapHandles.MapHandle.Open | crates/alt-odb/src/map.rs:115-176 | For any file contents: the error or the entries that recovery specifies, and the file cut back to them. |
| MapHandles.MapHandle.SyncFromDisk | crates/alt-odb/src/map.rs:202-229 | For any file: one that is no longer than the handle has read is left alone, and otherwise records are folded in up to the first that does not fit, where the file is cut. In a file of records the handle then has all of them, and a torn tail is gone. |
| MapHandles.MapHandle.Acquire | crates/alt-odb/src/lib.rs:264-275 | Takes the lock and catches up. A valid handle stays valid, and so does every other one. |
| MapHandles.MapHandle.Append | crates/alt-odb/src/map.rs:195-200 | Writes a record where the handle takes the end to be. If the handle is valid, has the lock and does not know the git id, the file has one record more and every other handle stays valid. |
| MapHandles.MapHandle.Put | crates/alt-odb/src/lib.rs:302-329 | Records an entry exactly if no record has its git id, so ids stay distinct over any interleaving of valid handles, and they stay valid. A handle that is not answers from its own index, and writes at its own end of the file. |
| MapHandles.MapHandle.Die | crates/alt-odb/src/map.rs:202-203 | A writer killed in mid-record leaves a file that all other handles can go on with. |
| MapHandles.MapHandle.Rewind | crates/alt-odb/src/map.rs:284-313 | With or without the lock, going back to an earlier cursor restores entries, indexes and file as they were at it, and a peer stays valid if and only if it has read nothing of what is dropped; the three wrong targets are refused and change nothing. |
| MapHandles.RewindBehindPeer | crates/alt-odb/src/lib.rs:598-608 | A rewind behind what a peer has read: the peer keeps entries that no record has any more. |
| MapHandles.PutDropped | crates/alt-odb/src/lib.rs:302-329 | Asked to record such an entry, the peer says that it is recorded, and the file stays as it is. |
| MapHandles.PutBehindHole | crates/alt-odb/src/map.rs:195-200 | Asked to record a new object, the peer leaves a file that cannot be opened any more. |
| MapHandles.RunWithRewind | crates/alt-cli/src/bin/altd_server.rs:1335-1336 | A run of two handles from an empty file in which both happen. |
| GitIndexProof.FlagsOf | crates/alt-git-index/src/lib.rs:155-162 | Recomputing the flags keeps stage and first bit and sets name length and extended bit to what is written. |
| GitIndexProof.EntryIsRead | crates/alt-git-index/src/lib.rs:188-271 | An entry is read back with its flags recomputed, across long names, extended flags and 1 to 8 bytes of padding. |
| GitIndexProof.ExtensionsAreRead | crates/alt-git-index/src/lib.rs:101-117 | Extensions are read back as they were. |
| GitIndexProof.SortSorts | crates/alt-git-index/src/lib.rs:138-139 | The entries written are sorted by path and stage and are the same entries. |
| GitIndexProof.SerializedIsReadBack | crates/alt-git-index/src/lib.rs:126-185 | For every index, what was serialized is read back, sorted and with flags recomputed, if and only if no path of 4095 bytes or more holds a NUL. |
| GitIndexProof.NulInLongPathIsLost | crates/alt-git-index/src/lib.rs:149-170 | An index with a path of 4095 bytes that holds a NUL is not read back. |
| GitIndexProof.SerializedTwice | crates/alt-git-index/src/lib.rs:126-130 | Serializing what was read back gives the same bytes. |
| GitIndexCode.AppendPadding | crates/alt-git-index/src/lib.rs:168-170 | 1 to 8 NULs bring an entry to a multiple of 8 bytes. |
| GitIndexCode.Serialize | crates/alt-git-index/src/lib.rs:131-185 | The loops write the specified bytes. |
| GitIndexCode.ParseEntry | crates/alt-git-index/src/lib.rs:188-271 | The steps of the entry parser compute the specified entry, with version 4 paths and all error cases. |
| GitIndexCode.ParseIndex | crates/alt-git-index/src/lib.rs:67-124 | The loops of the reader compute the specified index or error. |

## Left out

- Merge.MergeBuffers: requires that each side and the base together have at most 2^32 different lines, because interned tokens have 32 bits and wrap around beyond that; what a merge does with a script that is then wrong is not modelled. `LineDiff.DiffLines` and `Hunks.MakeHunks` take any input, and promise the diff of the lines within that number.
- Histogram.Diff: sums of positions and lengths are unbounded numbers, so overflow of a 64-bit `usize` (such as twice the context of a hunk) is not modelled.
- PackResolve.ResolveAll: which of several failures is reported first depends on the order of entries and is not stated.
- PackRead.IndexedPack.ReadAt: requires that the walk from the offset ends, because otherwise the call does not return; offsets at which no entry starts are answered as an error, not decoded as whatever bytes are there.
- PackHeader.ReadHeader: a size whose groups are shifted out of 64 bits is an error here; in the source the shift overflows.
- PackIndexFile.BuildIdx: the library's unstable sort is modelled as an insertion sort; only that the result is a sorted permutation is used.
- GitIndexCode.Serialize: the library's stable sort is modelled as an insertion sort.
- CiLint.Lint: the order in which steps are visited, and with it the order of the cycle reports, is left open; the theorems hold for every order.
- TreeDiffProof.ExactExactlyInByteOrder: of trees whose names are plain and distinct, as git demands, and whose subtrees can be read.
- Flush.AcknowledgedIsNeverLost: the tier1 file, which is synced without being in the marker, deferred and relaxed durability, `rewind`, pack rolls and writes that fail without the process dying are not modelled. A record counts as whole once all its bytes are written; what a power loss leaves of unsynced bytes is a prefix of them.
- MapHandles.MapHandle.Put: storing the content itself, and the check that the id is the hash of the content, come before the record and are not modelled.
- MapHandles.MapHandle.SyncFromDisk: requires that the indexes are those of the entries and the cursor is behind them. After a failed catch-up this need not hold; callers pass the error on, and what the handle would do next is not modelled.
- GlobSegments.WhenPartsAgree: for patterns with a `*`, or with a `**` that took no slash, besides one that took a slash on one side only, it is left open whether the parts match more.
- GroupCommit: threads are modelled as interleaved steps under the mutex; memory ordering and poisoning are not.
- Minimality of the diff: the histogram algorithm does not promise it.
- Rendering of unified diffs, binary and part-aware diffs, and perceptual diffs.
- Hashing, compression, memory maps, files, locks and sockets as such; the `alt-store`, `alt-refs`, `alt-repo`, `alt-wire`, `alt-worktree` and prism crates.
- Command plumbing, the workflow parser, policy lookup, the secret scan, content-defined chunking and the frontend.
