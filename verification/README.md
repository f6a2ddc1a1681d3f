# A verified model of PhilZ Touch recovery

This project models the parts of the recovery image that decide what ends up on a device's storage, and proves
properties of them. `dafny verify dfyconfig.toml` checks all of it (Dafny 4.11).

* **Binary patches** (`applypatch/bsdiff.c`, `applypatch/bspatch.c`). The suffix sort of bsdiff is proved to leave the
  sorted suffixes of every byte string in its index array; the differ built on it and the patcher are proved to be
  inverse to each other, and the greedy scan of the differ to leave no choice. Modules `Suffixes`, `GroupSplit`,
  `Doubling`, `Buckets`, `QSufSort`, `SuffixSearch`, `DiffScan`, `GreedyScan`, `BsDiff`, `Offsets`, `BsPatch`.
* **Image patches** (`applypatch/imgdiff.c`, `applypatch/imgpatch.c`, `applypatch/utils.c`). Cutting images into
  chunks, rewriting and merging the chunk lists in place, laying out the patch file, and applying it. Modules
  `ImgCodec`, `ImgChunks`, `ImgMerge`, `ImgDiff`, `ImgHeader`, `ImgPatch`.
* **Updates that survive power loss** (`applypatch/applypatch.c`, `applypatch/freecache.c`). A script of in-place
  patches that share one backup file is a state machine with one step for each filesystem action and a crash between
  any two of them; the program itself, with its retry loop, is proved to take only such steps. Modules `Digests`,
  `ApplyPatch`, `ApplyCode`, `ApplyRuns`, `Partitions`, `PartitionWrite`, `PartitionPatch`, `FreeCache`.
* **MD5** (`digest/md5.c`) against RFC 1321, sections 3.1 to 3.5, with a value of its section A.5. Modules `Md5`,
  `Md5Stream`, `Md5Words`, `Md5Bits`, `Md5Vectors`.
* **Deduplicated backups** (`dedupe/dedupe.c`). Manifests, blobs, extraction, garbage collection, and whole histories
  of a store. Modules `Numbers`, `Manifest`, `ManifestLines`, `ManifestText`, `Dedupe`, `DedupeExtract`, `DedupeGc`,
  `DedupeHistory`.
* **Restarting recovery, splitting archives, settings** (`recovery.c`, `nandroid_advanced.c`, `recovery_settings.c`).
  Modules `BootControl`, `ArchiveSplit`, `Settings`.

## How code that is not modelled appears

The compressors and hashes are function-valued parameters. `BsPatch.Bzip2` gives what a decompressor delivers and
whether the stream then ends or is cut off; its `Lossless` law says that expanding a compressed stream gives it back,
ended, whatever follows it. `ImgChunks.Zlib` may refuse to inflate data and to deflate with some parameters; its
`Sound` law is about the lengths inflate reports, and says that the two levels imgdiff tries are accepted. The hashes
are arbitrary functions; where a result needs that two contents do not share a hash, it says so (`NoCollision`). In
the update protocol the two patchers are parameters too (`ApplyPatch.Env`); `ApplyRuns.Patchers` says that they are
the modelled ones. `qsort` is a parameter that sorts. Reads and writes that may fail, free space, the storage medium
and directory listings are parameters or nondeterministic steps.

Results of patching are `Done`, `Failed` (the program reports an error), `Undefined` (the program may read outside its
buffers) or `Hangs` (it never returns). In the update protocol the last two leave a call that never returns. Files are
sequences of bytes; C integers are unbounded except where the width matters, and there it is written out: offsets
below 2^63, 32-bit fields, byte arithmetic modulo 256, the 64-bit count of MD5, array sizes.

## What turned out to be false

* bspatch does not fail on every malformed patch: it never returns if and only if a triple asks a stream that is cut
  off for more than it delivers (`HangsExactly`); a patch that is only a header is an input, since a decompressor
  delivers nothing from no input and waits for more (`HeaderAlone`). With streams that end it always returns
  (`WholeStreamsReturn`). An image patch never returns if and only if a record comes to such a bsdiff patch, or zlib
  refuses the parameters in a deflate record whose patch was applied (`ImageHangs`); for all such parameters, level
  100 for one, there is a patch (`RefusedParameters`).
* `search` does not always find the longest match: "aba" is searched for "ab" and 1 byte is found (`MissesLongest`).
  `SearchLength` gives the length found for all inputs; it is the longest if no suffix of the old file is a proper
  prefix of what is searched for (`SearchLongest`).
* A gzip trailer cut short at the end of a target image is filled up from imgdiff's padding, so the patch rebuilds up
  to four bytes too many, for every zlib that takes the empty deflate stream 03 00 (`TruncatedTrailer`). The patch is
  exact if and only if every gzip member that reading the target comes to has all of its trailer in it
  (`RebuiltExactly`), and, if one of the source has not, the last record does not refer to the source (`ImgDiff`).
* imgdiff never finishes an image if and only if reading comes to a place where it makes no progress: 1f 8b 08 and
  nothing more, or a gzip header with no deflate stream after it (`NeverEnds`); for a file without gzip magic that is
  one that ends in 1f 8b 08 (`PlainImage`). It reads outside the image if and only if it comes to a gzip member that
  runs over the end by more than the padding (`LeavesBuffer`); a file of the gzip magic alone is an input
  (`BareMagic`).
* `applypatch_check` says in its comment that a good backup is enough. The code returns -ENOENT for a missing file
  before it looks at the backup: it passes exactly if the promise holds and the file exists (`ApplyPatchCheck`), and
  the state right after the source has been deleted is one it rejects (`DeletedSourceFailsCheck`).
* The comment above `ParseSha1` allows text after a colon; the code does not (`NothingAfterDigest`).
* An in-place update of a partition that was interrupted while the partition was written cannot be completed: the next
  run truncates the backup before it uses it (`InterruptedWrite`). An undisturbed run that needs the backup succeeds
  exactly if the size field left by the failed load is zero (`Patch`), and it is not zero if the partition is as large
  as before (`StaleSize`).
* In a script of several files, a job that lists its own target hash among its source hashes can lose the backup of a
  later file after one failed read (`ListedTargetLosesCopy`). If no job but the last does so, nothing can be lost
  (`AlwaysRecoverable`).
* A link of more than 40 characters is stored by dedupe and overruns memory when it is extracted (`LongLinkCrashes`).
  A manifest that was written by the store is extracted completely if and only if no blob is missing and no link is
  longer (`ExtractExactly`, for lines that no stray tab or newline cuts); a single link is read back if and only if it
  has at most 40 characters and no tab (`LinkReadBack`).
* `dedupe gc` with a manifest of a newer version reports failure but still deletes, counting only the manifests before
  it (`Gc`); a manifest after it loses its blobs (`NewerLoses`). Every used blob survives if and only if a manifest
  cannot be opened, or what the manifests after a newer one use is used before it as well (`SurviveExactly`).
* A settings file created by a write has an entry for the key `#key` in its header (`ReadBack`, `OtherKeys`,
  `Superseded`). A last line that ends with the '=' of a key makes the reader look before its buffer, until a write of
  another key completes the line (`ReadConfigFile`, `BareKey`, `OtherKeys`).
* An argument list survives in the boot control block if and only if its text is at most 768 bytes long, which is one
  more than fits with its last newline (`RecordReadBack`).

## Model

| member | source | states |
|---|---|---|
| Suffixes.LexTotal | applypatch/bsdiff.c:121-157 | any two byte strings are equal or one comes before the other, never both |
| Suffixes.SameToDouble | applypatch/bsdiff.c:139-154 | suffixes that agree on h bytes and whose continuations agree on h bytes agree on 2h bytes: why doubling h works |
| GroupSplit.GatherCorrect | applypatch/bsdiff.c:64-77 | a round of the short-group loop permutes the group so that exactly the entries with the least key come first |
| GroupSplit.SplitShort | applypatch/bsdiff.c:64-81 | a group of fewer than 16 suffixes is split into groups ordered by 2h bytes; nothing outside the group changes |
| GroupSplit.Partition | applypatch/bsdiff.c:83-111 | the part left of jj sorts before the pivot group, that before the rest, and the pivot group agrees on 2h bytes |
| GroupSplit.Split | applypatch/bsdiff.c:60-119 | recursively, the whole group is split into groups ordered by 2h bytes with correct numbers, in bounds, everything else kept |
| Doubling.LevelDouble | applypatch/bsdiff.c:139-154 | what holds after the pass for h (groups sorted by 2h bytes, runs marked) is what the pass for 2h needs |
| Doubling.Pass | applypatch/bsdiff.c:139-154 | one pass over groups and runs takes the order by h bytes to the order by 2h bytes and makes progress to the end condition |
| Doubling.LevelSorted | applypatch/bsdiff.c:139-156 | when one run covers the index, the order is that of the whole suffixes and V is its inverse |
| Doubling.SortGroups | applypatch/bsdiff.c:139-156 | the doubling loop ends and I is the suffix array |
| Buckets.Distribute | applypatch/bsdiff.c:132-133 | the counting sort puts every suffix at its place, a bijection ordered by first bytes |
| Buckets.MarkSingles | applypatch/bsdiff.c:136-137 | exactly the one-element buckets above byte 0 and the empty suffix are marked; a single zero byte is not |
| Buckets.BucketLevel | applypatch/bsdiff.c:126-137 | the state after the counting sort is the first level (h = 1) of the doubling |
| QSufSort.QSufSort | applypatch/bsdiff.c:121-157 | for every byte string I becomes the list of all suffixes in strictly increasing order |
| SuffixSearch.MatchLen | applypatch/bsdiff.c:159-167 | the length of the longest common prefix |
| SuffixSearch.Search | applypatch/bsdiff.c:169-193 | the position is in bounds and the length is the true match length there |
| SuffixSearch.SearchZero | applypatch/bsdiff.c:169-193 | given a suffix array, the length is zero if and only if the first byte does not occur in the old file |
| SuffixSearch.SearchLength | applypatch/bsdiff.c:169-193 | given a suffix array and any input: the length is that of the longest match, or that of the last suffix that the comparison over the shorter length misjudges |
| SuffixSearch.SearchLongest | applypatch/bsdiff.c:169-193 | the match is the longest if no non-empty suffix of the old file is a proper prefix of the new one |
| SuffixSearch.MissesLongest | applypatch/bsdiff.c:169-193 | an input for which it is not |
| DiffScan.FindStop | applypatch/bsdiff.c:286-301 | the scan ends at the first position that meets the stop condition; oldscore is always the number of agreeing positions, never negative |
| DiffScan.ExtendForward | applypatch/bsdiff.c:304-309 | the forward extension maximises twice the matches minus the length, and is the shortest that does |
| DiffScan.ExtendBackward | applypatch/bsdiff.c:311-318 | the same for the backward extension |
| DiffScan.CutOverlap | applypatch/bsdiff.c:320-333 | the cut of an overlap is the first with the greatest lead of the forward over the backward extension |
| BsDiff.Extents | applypatch/bsdiff.c:304-333 | the new bytes between two matches are divided by the best extension of each, and where these overlap by the best cut |
| GreedyScan.GreedyOnce | applypatch/bsdiff.c:283-362 | the rounds of the scan leave no choice: with one suffix array of the old file, two files have one sequence of states and one sequence of triples |
| BsDiff.FollowsRebuild | applypatch/bspatch.c:198-248 | streams whose triples describe the growth of a file make the patcher rebuild that file |
| BsDiff.Emit | applypatch/bsdiff.c:335-361 | a triple and its pieces extend the streams to describe more of the new file, within both buffers |
| BsDiff.DiffStreams | applypatch/bsdiff.c:281-362 | the main loop describes all of the new file; diff and extra lengths add up to its size; its triples are those of the greedy scan: every round ends at the first stop, a triple is written unless the match only repeats the last offset, and its lengths are the best extensions or the best cut |
| BsDiff.PatchFileHeader | applypatch/bsdiff.c:259-275 | wherever the patch lies in a larger file, the header is read back and the three compressed streams are found |
| BsDiff.BsDiff | applypatch/bsdiff.c:225-410 | for all old and new: applying the patch to old gives new, at any offset in a larger file; the patch holds the streams of the greedy scan, and the index is left for reuse |
| BsDiff.OnePatch | applypatch/bsdiff.c:225-410 | with one suffix array there is one patch file that BsDiff may write for two files |
| Offsets.OffsetRoundTrip | applypatch/bsdiff.c:195-211 | every number below 2^63 in magnitude is read back |
| Offsets.OfftinDigits | applypatch/bspatch.c:66-82 | the number that eight bytes stand for, as a sum of bytes times powers of 256 with the sign in the last |
| Offsets.OffsetWriteBack | applypatch/bspatch.c:66-82 | writing back what was read gives the same bytes if and only if they were not a minus zero |
| BsPatch.FillBuffer | applypatch/bspatch.c:84-98 | delivers the next bytes of the stream, fails exactly if it ends before, and waits for ever exactly if it is cut off before |
| BsPatch.AddOldData | applypatch/bspatch.c:223-227 | where the position lies in the old file a byte becomes its sum with the old byte, less 256 if that is too large, and elsewhere it stays; nothing else is written |
| BsPatch.Rebuild | applypatch/bspatch.c:198-251 | for arbitrary control streams the fold of the triples gives exactly new_size bytes, fails, or never comes to an end |
| BsPatch.ApplyTriple | applypatch/bspatch.c:213-244 | a triple is rejected exactly if a length is negative, too long for a stream that ends or for the output, and never done if a stream is cut off before; otherwise the output grows by its two pieces |
| BsPatch.ApplyTriples | applypatch/bspatch.c:198-251 | the loop over arrays and streams computes the fold, for arbitrary, even malformed or cut-off streams |
| BsPatch.ApplyBSDiffPatchMem | applypatch/bspatch.c:123-257 | the whole program is that fold of the streams found by the header, with all error exits and the case that it never returns |
| BsPatch.AddedIs | applypatch/bspatch.c:223-227 | the same sum for the bytes that the fold makes |
| BsPatch.AppliesOne | applypatch/bspatch.c:123-257 | a patch of one triple, given by the bytes of its header and control stream, makes the differences plus the old bytes from the beginning on, and then the extra bytes |
| BsPatch.UnchangedFile | applypatch/bspatch.c:123-257 | a patch of one triple that adds zeros to the whole old file gives the old file |
| BsPatch.SeeksOn | applypatch/bspatch.c:198-251 | with two triples, the second takes the old bytes from where the first ended, moved by the seek of the first |
| BsPatch.HangsExactly | applypatch/bspatch.c:84-98 | the fold never comes to an end if and only if some triple it comes to asks a stream that is cut off for more than it delivers |
| BsPatch.WholeStreamsReturn | applypatch/bspatch.c:198-251 | with three streams that end, it always does |
| BsPatch.HeaderAlone | applypatch/bspatch.c:123-207 | a patch of a header and nothing else never returns |
| ImgCodec.RoundTrip4 | applypatch/utils.c:22-53 | 32-bit values, negative ones included, are read back |
| ImgCodec.RoundTrip8 | applypatch/utils.c:30-65 | the same for 64 bits |
| ImgCodec.Truncates4 | applypatch/utils.c:22-53 | a value is read back from 4 bytes if and only if it fits in 32 bits |
| ImgCodec.ReadDigits | applypatch/utils.c:47-65 | both read the lowest byte first and as two's complement, as a sum of bytes times powers of 256 |
| ImgChunks.Scan | applypatch/imgdiff.c:501-515 | the number of bytes before the next gzip magic |
| ImgChunks.ScanStuck | applypatch/imgdiff.c:404-515 | the scan finds nothing if and only if exactly 1f 8b 08 is left of the file |
| ImgChunks.PlainImage | applypatch/imgdiff.c:376-519 | a file without gzip magic is one normal chunk, or is never finished if it ends in 1f 8b 08 |
| ImgChunks.ReadHalts | applypatch/imgdiff.c:376-519 | reading halts in some way if and only if the loop comes to a place where it halts so |
| ImgChunks.NeverEnds | applypatch/imgdiff.c:404-515 | for every image: reading never ends if and only if the loop comes to a place where it makes no progress |
| ImgChunks.LeavesBuffer | applypatch/imgdiff.c:404-490 | for every image: reading leaves the buffer if and only if the loop comes to a gzip member that runs over the end of the padded image |
| ImgChunks.BareMagic | applypatch/imgdiff.c:404-430 | a file of the gzip magic alone makes reading leave the buffer |
| ImgChunks.EndsExactly | applypatch/imgdiff.c:404-490 | the chunks end where the file ends if and only if every gzip member that the loop comes to has all of its trailer |
| ImgChunks.ReadImage | applypatch/imgdiff.c:376-519 | the loop computes the chunk list, the footer error, or never returns, as the fold over pieces says |
| ImgChunks.ReadTiles | applypatch/imgdiff.c:376-519 | the chunks tile the image without gap or overlap and every chunk agrees with the bytes it stands for |
| ImgMerge.MergeAdjacentNormalChunks | applypatch/imgdiff.c:712-760 | the compaction in place gives the list of maximal runs |
| ImgMerge.MergedTiles | applypatch/imgdiff.c:712-760 | merging keeps the tiling |
| ImgMerge.MergeKeepsKinds | applypatch/imgdiff.c:712-760 | lists of equal kinds merge to lists of equal kinds, hence of equal length |
| ImgMerge.MergedAlternates | applypatch/imgdiff.c:712-760 | no two normal chunks are left next to each other |
| ImgMerge.MergeIdempotent | applypatch/imgdiff.c:712-760 | merging twice is merging once |
| ImgMerge.MergeKeepsContent | applypatch/imgdiff.c:712-760 | the bytes a list stands for are unchanged |
| ImgDiff.TryReconstruction | applypatch/imgdiff.c:529-565 | the comparison buffer by buffer succeeds if and only if compressing the content gives exactly the stream |
| ImgDiff.ReconstructDeflateChunk | applypatch/imgdiff.c:574-599 | finds the first compression level that reproduces the stream, if any does |
| ImgDiff.CompareKinds | applypatch/imgdiff.c:858-876 | accepts exactly lists of the same length and kinds |
| ImgDiff.RewriteKeeps | applypatch/imgdiff.c:879-920 | the rewrites keep both lists tiling and of equal kinds, and every deflate chunk left in the target can be reproduced |
| ImgDiff.MergeParallel | applypatch/imgdiff.c:932-938 | after the second merge the counts are equal: the "went awry" exit cannot be reached |
| ImgDiff.PrepareChunks | applypatch/imgdiff.c:879-939 | rewriting and merging both arrays in place leaves them parallel and reproducible, and the second chunk, which takes the bonus data, is a deflate chunk |
| ImgDiff.MakePatch | applypatch/imgdiff.c:607-669 | the record made for a pair of chunks makes the target piece when applied; small or badly compressible pieces become raw records |
| ImgDiff.MakePatches | applypatch/imgdiff.c:949-971 | every chunk gets a record that makes its piece, with the bonus data appended to chunk 1 only |
| ImgDiff.RecordsRebuild | applypatch/imgdiff.c:949-1046 | the records of parallel lists together rebuild the part of the target the list covers, unless one of them lies outside the source |
| ImgDiff.OverrunsLast | applypatch/imgdiff.c:949-1046 | a record refers to bytes outside the source if and only if the source chunks run over its end and the last record is a bsdiff patch of source bytes |
| ImgDiff.ImgDiff | applypatch/imgdiff.c:782-1051 | a patch is made if and only if both images can be read and have chunks of the same kinds; exactly when it never returns and when it leaves its buffers; applying the patch gives the target as read, unless a gzip trailer of the source is cut off and the last record is a bsdiff patch of source bytes; it is exactly the target if and only if besides no gzip trailer of the target is cut off |
| ImgDiff.RebuiltExactly | applypatch/imgdiff.c:404-490 | what is rebuilt is the target if and only if every gzip member that reading comes to has all of its trailer in it |
| ImgDiff.TruncatedTrailer | applypatch/imgdiff.c:404-490 | for every zlib that takes the stream 03 00: a target that ends one to four bytes early in a trailer is not rebuilt |
| ImgHeader.HeaderSize | applypatch/imgdiff.c:977-991 | the size computed up front is that of the records written |
| ImgHeader.WritePatch | applypatch/imgdiff.c:993-1046 | the file written with the running offset |
| ImgHeader.Locate | applypatch/imgdiff.c:977-1046 | every recorded offset is where that chunk's patch begins |
| ImgHeader.RecordEffect | applypatch/imgpatch.c:57-122 | the patcher finds the record and its data, wherever they lie, and makes its piece |
| ImgHeader.DeflateFields | applypatch/imgdiff.c:1003-1023 | every field of a deflate record is read back: positions, lengths, the target length, and the parameters, negative window bits included |
| ImgHeader.PatchRebuilds | applypatch/imgpatch.c:38-232 | applying a written patch gives the concatenation of the pieces its records make, or is undefined at the first record that lies outside the source |
| ImgPatch.ApplyImagePatch | applypatch/imgpatch.c:38-232 | the loop over records computes the fold of their effects, with all error exits and the cases that never end; a failed normal chunk contributes nothing |
| ImgPatch.ImageHangs | applypatch/imgpatch.c:38-232 | it never returns if and only if the loop comes to a record whose bsdiff patch never comes to an end, or whose parameters zlib refuses for what its patch has made |
| ImgHeader.RefusedHangs | applypatch/imgpatch.c:207-220 | a patch of one deflate record whose parameters are refused never returns, whatever else is in it |
| ImgHeader.BadMagicSkipped | applypatch/imgpatch.c:69-83 | a patch of one normal record whose bsdiff patch does not begin with BSDIFF40 succeeds and makes nothing |
| ImgDiff.RefusedParameters | applypatch/imgpatch.c:207-220 | for all refused parameters, such a patch of the empty stream |
| Digests.ParseSha1 | applypatch/applypatch.c:524-552 | succeeds exactly on 40 hexadecimal digits, with the bytes they stand for |
| Digests.HexRoundTrip | applypatch/applypatch.c:524-552 | every digest is the value of its hexadecimal text |
| Digests.NothingAfterDigest | applypatch/applypatch.c:524-552 | no text may follow the digest, unlike the comment says |
| Digests.FindMatchingPatch | applypatch/applypatch.c:554-568 | the first of the listed hashes that equals the digest, or none if none does |
| ApplyPatch.StepKeeps | applypatch/applypatch.c:709-1041 | every step of the script, a power loss included, keeps the invariant of the protocol |
| ApplyPatch.PatchedRecoverable | applypatch/applypatch.c:1028-1037 | the rename completes a file and takes away nothing that a later file depends on |
| ApplyPatch.AlwaysRecoverable | applypatch/applypatch.c:709-1041 | over every sequence of runs and crashes each file is patched, has an accepted source in place, or (one file at most) in the backup; reported success means all are patched |
| ApplyRuns.CleanRuns | applypatch/applypatch.c:709-1041 | an undisturbed run never fails and comes closer to its end with every step |
| ApplyRuns.CleanEnabled | applypatch/applypatch.c:709-1041 | an undisturbed run that is not over can take a step |
| ApplyRuns.Completes | applypatch/applypatch.c:709-1041 | from any state reached by interrupted runs, one more undisturbed run patches every file |
| ApplyRuns.DiffsAreGood | applypatch/applypatch.c:963-974 | jobs whose patches were made by bsdiff or imgdiff, told apart by their first eight bytes, satisfy the condition of Completes, unless hashes collide |
| ApplyRuns.ListedTargetLosesCopy | applypatch/applypatch.c:737-768 | a run from a fresh disk to a lost file, for every job that lists its own target before a file still to be patched |
| ApplyRuns.ApplyPatchCheck | applypatch/applypatch.c:570-616 | passes if and only if the comment's promise holds and the file exists |
| ApplyRuns.DeletedSourceFailsCheck | applypatch/applypatch.c:896-902 | after the source is deleted the promise holds and the disk is recoverable, yet the file is missing |
| ApplyCode.Device.ApplyPatchCall | applypatch/applypatch.c:709-804 | whatever fails, every state a call passes through continues the run of the protocol, which ends where the return value says |
| ApplyCode.Device.Prepare | applypatch/applypatch.c:861-922 | the space is enough exactly if it is more than 256k and more than one and a half times the target, and is looked at only before the last try; a backup is made exactly without enough space and from the file |
| ApplyCode.Device.BackUp | applypatch/applypatch.c:889-902 | the backup grows byte by byte from empty, and the source is deleted only after it is complete |
| ApplyCode.Device.WriteTarget | applypatch/applypatch.c:941-994 | the first eight bytes of the patch select the patcher; any other format ends the call at once, a patcher that fails leaves it to the retry |
| ApplyCode.Device.GenerateTarget | applypatch/applypatch.c:806-1041 | the same for the retry loop: no retry for an unknown format, one otherwise, hash check before the rename, or a patcher that never returns; a good patch succeeds if no call fails, whatever the space, and also if the output is cut short once while there is space; without faults the backup is left as it was with space, and is gone without |
| ApplyCode.Device.Script | applypatch/applypatch.c:709-1041 | the same for the script of calls |
| ApplyCode.RunOnce | applypatch/applypatch.c:709-1041 | started on any recoverable disk, so also after an interrupted run, and for every pattern of failing calls and of free space: every state the device passed through is recoverable, also if a patcher never returns, and success means that all files are patched; with good patches it succeeds if no call fails, whatever the space, with the backup gone or untouched, and if there is space and the output is cut short once |
| Partitions.LoadPartitionContents | applypatch/applypatch.c:140-322 | returns the shortest listed prefix with a hash listed for its size; fails only for a zero size, or if no pair holds whose smaller pairs all parse; the size field counts what was read, or is as it was before if a size is zero |
| Partitions.StaleSize | applypatch/applypatch.c:231-306 | a partition that holds no listed prefix, but is no shorter than one, fails to load with a size field that is not zero |
| Partitions.ReadUpTo | applypatch/applypatch.c:237-258 | hashing on from the previous prefix is hashing the longer prefix; fails exactly on a short read |
| PartitionWrite.WriteFrom | applypatch/applypatch.c:434-452 | writes only the range from start; if the device is faithful the range holds the data |
| PartitionWrite.Verify | applypatch/applypatch.c:463-496 | finds the first block that differs, with everything before it equal |
| PartitionWrite.WriteToPartition | applypatch/applypatch.c:423-516 | success means the device holds the data and nothing beyond it changed; if no call fails and the device stores what it is given on the first or on the second attempt, it succeeds |
| PartitionWrite.SecondSucceeds | applypatch/applypatch.c:432-512 | whatever the first attempt leaves on the device, a second one that is stored as given succeeds |
| PartitionWrite.SecondKeeps | applypatch/applypatch.c:432-512 | the second attempt begins at the first block that differs, and nothing before it is written |
| PartitionPatch.Storage.SaveFileContents | applypatch/applypatch.c:325-356 | what is left of the backup and the result, for every failure of open, write, chmod and chown; saving freed contents succeeds only if the size field is zero, and empties the backup in any case |
| PartitionPatch.Storage.Patch | applypatch/applypatch.c:840-1041 | from a recoverable state, with results that fit the partition, success if and only if the partition held target or source or the stale size is zero; otherwise the backup is emptied |
| PartitionPatch.InterruptedWrite | applypatch/applypatch.c:770-857 | for every job and every torn content of the same size that holds no listed prefix, an interrupted write followed by a run ends with neither source nor backup |
| FreeCache.EliminateOpenFiles | applypatch/freecache.c:14-72 | strikes exactly the open files off the list, in place |
| FreeCache.FindExpendableFiles | applypatch/freecache.c:74-126 | lists exactly the regular files that are not open and not the backup; fails if /proc cannot be opened |
| FreeCache.MakeFreeSpaceOnCache | applypatch/freecache.c:128-172 | the backup is never deleted; nothing is deleted once the space is at least what was asked for or cannot be told; failure means that /proc cannot be opened or everything deletable is gone |
| Md5.Multiplex | digest/md5.c:156-162 | the shortened form of the first auxiliary function is that of RFC 1321, bit by bit |
| Md5.StepIs | digest/md5.c:164-166 | one use of the macro is one operation of section 3.4 |
| Md5.Quad | digest/md5.c:182-248 | four uses with the registers in turn are four steps of the round table |
| Md5.Md5Transform | digest/md5.c:173-254 | the sixty-four unrolled lines are the four rounds of RFC 1321, with its table |
| Md5.StartBytes | digest/md5.c:47-57 | the four registers begin with the bytes of section 3.3, low-order bytes first |
| Md5.WordOrder | digest/md5.c:182-214 | the words of the block in the order of the steps of rounds 1 and 2, as section 3.4 prints them |
| Md5.WordOrderLast | digest/md5.c:216-248 | the same for rounds 3 and 4 |
| Md5.ShiftOrder | digest/md5.c:182-248 | the four shifts of every round, as section 3.4 prints them |
| Md5Stream.Carry | digest/md5.c:66-71 | the two words count the bits modulo 2^64 |
| Md5Stream.Md5Context.Update | digest/md5.c:62-102 | the context that has taken in msg takes in msg followed by data: registers, buffered tail and count |
| Md5Stream.Md5Context.Pad | digest/md5.c:112-147 | the one or two last blocks are the padding of sections 3.1 and 3.2 |
| Md5Stream.Md5Context.Final | digest/md5.c:110-151 | the digest of RFC 1321, and a context that is cleared |
| Md5Stream.Hash | digest/md5.c:47-151 | for every message and every way to cut it into pieces, the digest of RFC 1321 |
| Md5Words.WordTurn | digest/md5.c:164-166 | the circular shift of numbers is that of the machine on 32-bit words |
| Md5Bits.NextMeans | digest/md5.c:156-166 | a step on numbers is the step of the machine, where its sums are exact |
| Md5Vectors.EmptyDigest | digest/md5.c:47-151 | the digest of the empty message is d41d8cd98f00b204e9800998ecf8427e, as section A.5 says |
| Numbers.DecToOct | dedupe/dedupe.c:267-278 | the number whose octal digits are the decimal digits given, with its sign |
| Numbers.PrintedOctal | dedupe/dedupe.c:101-103 | a mode printed in octal, read as decimal and converted is the same mode |
| Manifest.Tokenize | dedupe/dedupe.c:251-265 | the text up to the first tab, or none if the line ends first |
| Manifest.TabbedFields | dedupe/dedupe.c:444-455 | fields without tabs are read back one by one if and only if each has room in its buffer |
| Manifest.ReadItem | dedupe/dedupe.c:431-514 | what the extract loop makes of any line of either version: an item, an unknown type, or an overrun |
| Manifest.ReadUse | dedupe/dedupe.c:561-600 | what the gc loop makes of any line: the key of a file, nothing, or an overrun; a name without its tab does not matter in lines of other types |
| Manifest.UseOfRow | dedupe/dedupe.c:431-600 | of every line that extraction reads, gc finds the same key; it skips unknown types |
| ManifestLines.LineRow | dedupe/dedupe.c:101-249 | in both versions a line without stray tabs is read back as its item if and only if it is no link of more than 40 characters; a longer one overruns its buffer |
| ManifestLines.LineUse | dedupe/dedupe.c:561-600 | of such a line gc finds the key if it is a file, and it does not look at links |
| ManifestLines.CutName | dedupe/dedupe.c:561-600 | a line that was cut off in its name is skipped by gc unless it is one of a file, and overruns extraction |
| ManifestLines.LinksAreShort | dedupe/dedupe.c:482-487 | no line whatever makes extraction create a link of more than 40 characters or with a tab |
| ManifestLines.LinkReadBack | dedupe/dedupe.c:209-220 | with all other fields in order, a link is read back if and only if it has at most 40 characters and no tab |
| ManifestText.OneLine | dedupe/dedupe.c:431 | fgets returns the lines of the items one by one as they were written |
| ManifestText.ReadOpening | dedupe/dedupe.c:421-430 | the version of any text, read as sscanf reads it, and where its lines start |
| ManifestText.HeaderOpens | dedupe/dedupe.c:385 | the header that is written for a version is recognised as that version |
| Dedupe.KeyInjective | dedupe/dedupe.c:118-139 | different digests have different blob names |
| Dedupe.Store.StoreFile | dedupe/dedupe.c:105-167 | no blob is lost, every blob still has the digest in its name, and the content is there afterwards |
| Dedupe.Store.StoreSt | dedupe/dedupe.c:222-249 | the lines of the whole subtree are written in order and the store covers it |
| Dedupe.Create | dedupe/dedupe.c:365-397 | the manifest of the tree, in a store that covers it; it fails only for unreadable files |
| Dedupe.MaskedBits | dedupe/dedupe.c:102 | the mode in a manifest keeps the nine permission bits and the two set-id bits and no other bit |
| DedupeExtract.SiblingsApart | dedupe/dedupe.c:185 | no path lies below two entries of a directory |
| DedupeExtract.EntriesDistinct | dedupe/dedupe.c:169-207 | the lines of a tree have distinct paths |
| DedupeExtract.Extract | dedupe/dedupe.c:398-519 | on any text, the lines are carried out one after the other up to the end, a newer version, an unknown type, a missing blob or an overrun |
| DedupeExtract.ExtractExactly | dedupe/dedupe.c:398-519 | a manifest of legible lines is extracted completely if and only if no blob is missing and no link has more than 40 characters; then every line has been carried out |
| DedupeExtract.LongLinkCrashes | dedupe/dedupe.c:482-487 | a tree with a longer link can be stored, and extracting its manifest overruns memory |
| DedupeExtract.ExtractRestores | dedupe/dedupe.c:398-519 | extracting the manifest that was written for a tree, from a store that covers it, gives back paths, contents, link targets, owners, and of the modes the permission and set-id bits and no others, if no link has more than 40 characters, and overruns memory otherwise |
| DedupeGc.StrCmp | dedupe/dedupe.c:319-321 | the sign of the lexicographic comparison |
| DedupeGc.FindUnused | dedupe/dedupe.c:609-624 | the scan of two sorted lists, the second with repetitions, is the set difference |
| DedupeGc.Gc | dedupe/dedupe.c:520-631 | reading ends at the first manifest that cannot be opened or is newer than version 2, and failure is reported exactly then; nothing is deleted if one cannot be opened, and otherwise exactly the blobs are kept that the manifests before that one use |
| DedupeGc.ReadSources | dedupe/dedupe.c:541-602 | the names used by the manifests before the first one that is not read, and why it is not |
| DedupeGc.StoredNames | dedupe/dedupe.c:561-600 | of a manifest that was written by the store, gc finds exactly the blobs of its files |
| DedupeGc.SurviveExactly | dedupe/dedupe.c:541-624 | every blob that a readable manifest uses survives if and only if a manifest cannot be opened, or what the manifests after a newer one use is used before it as well |
| DedupeGc.NewerLoses | dedupe/dedupe.c:555-560 | with a manifest of version 3 in front, every blob of the next manifest is deleted |
| DedupeHistory.StepKeeps | dedupe/dedupe.c:359-631 | stores, broken stores, collections and removals of manifests keep all remaining backups covered |
| DedupeHistory.HistoryRestores | dedupe/dedupe.c:359-631 | after any history, extracting with the manifest of a backup that still has it gives back its tree if no link of it has more than 40 characters, and overruns memory otherwise |
| DedupeHistory.StoreOne | dedupe/dedupe.c:365-397 | a run of create is a step of a history, whether it succeeds or not, and its manifest is the one of the backup |
| DedupeHistory.RoundTrip | dedupe/dedupe.c:365-519 | storing a tree and extracting the manifest just written gives back the tree, with the same condition |
| DedupeHistory.CollectAll | dedupe/dedupe.c:520-631 | gc with the live manifests succeeds, is such a step and leaves only blobs that a live manifest names |
| BootControl.RecordReadBack | recovery.c:195-245 | an argument list is read back from the control block if and only if its text is at most 768 bytes |
| BootControl.WriteBack | recovery.c:237-246 | appending with truncation writes the longest prefix of the text that fits |
| BootControl.ReadBoot | recovery.c:195-210 | the words after "recovery", at most 99 |
| BootControl.GetArgs | recovery.c:180-247 | arguments on the command line win over those in the control block, and these over the command file; the control block then holds them |
| BootControl.SameArguments | recovery.c:106-147 | from writing the control block until it is cleared every restart works on the same arguments, whatever is interrupted or erased; afterwards recovery never starts by itself |
| BootControl.CommandCarriedOut | recovery.c:106-147 | from the moment the main system has set the command and left arguments in the command file, recovery works on these and no others, whatever is interrupted or erased, until the block is cleared; afterwards it never starts by itself |
| ArchiveSplit.Lists.AddItem | nandroid_advanced.c:563-588 | the item is covered by the current list, whose size stays bounded; fails only after list 999 |
| ArchiveSplit.Lists.Generate | nandroid_advanced.c:590-647 | the walk adds exactly the wanted files and links below the directory, in order |
| ArchiveSplit.MakeFileList | nandroid_advanced.c:649-660 | the lists together cover every wanted file and link exactly once, and nothing on them has a path that is to be skipped; each list is within the limit or is one oversized file after items of no size |
| ArchiveSplit.SkippedLeaves | nandroid_advanced.c:596-602 | nothing below a skipped directory is wanted |
| Settings.ReadConfigFile | recovery_settings.c:337-368 | the text after the first equals sign of the first line for the key that has any, else the default; undefined if a line for the key ends with its equals sign |
| Settings.BareKey | recovery_settings.c:343-354 | a file that ends with the equals sign of a key makes a read of that key undefined |
| Settings.WriteConfigFile | recovery_settings.c:371-436 | the lines for other keys, each ended by a newline, and the new entry, if and only if each has room in its buffer |
| Settings.ReadBack | recovery_settings.c:337-442 | a written value is read back, if and only if the key is not that of the header of a new file, or the value is the one in the header |
| Settings.OtherKeys | recovery_settings.c:337-442 | reads of all other keys are unchanged, prefixes included, if and only if the file was there and did not end with the equals sign of the other key, or it was not there and the other key is not that of the header |
| Settings.Superseded | recovery_settings.c:371-442 | a second write of a key is as if the first had not happened, with the same exception |

## Left out

- zlib, bzip2, SHA-1, SHA-256 and RSA are parameters with laws, not models.
- Zip mode of imgdiff (`ReadZip`, chunks matched by name): the same ideas as image mode.
- Masking of retouched binaries when a file is loaded.
- Short writes of a sink in the middle of an image patch; malloc failures; error codes of single system calls.
- ImgDiff: images of 2 GB and more are excluded, because the length of a raw chunk and the number of chunks are written in 4 bytes.
- ApplyBSDiffPatchMem: lengths beyond the end of the patch are undefined as soon as there is anything to rebuild, also if bzip2 does not come to the bytes outside.
- PatchRebuilds: a record that lies outside the source is undefined, also if none of its triples touches the bytes outside.
- TryReconstruction: the comparison is with the stream; the original may pass memcmp a length that runs past the image, although the bytes differ before.
- ApplyPatch: the jobs of a script name different files, and none in the directories from which MakeFreeSpaceOnCache deletes.
- ApplyPatch: a patcher that reads outside its buffers is taken to never return, like one that waits for ever.
- Patch: for a partition, a patcher that never returns counts as one that fails.
- ApplyPatch: completed system calls are taken to survive a power loss in order; owner and mode of the output are not modelled.
- MTD partitions: only the EMMC branch of `WriteToPartition` is modelled.
- WriteToPartition: a device that transfers nothing for ever, and corruption outside the range being written, are not modelled.
- MD5 on big-endian machines (`byteReverse`).
- Times of files, SELinux labels that cannot be set, and the growing array of gc.
- ReadItem, ReadUse: what a program does that has overrun its buffers, or converts a number that is out of range.
- ReadOpening: an empty manifest, for which the original looks at memory that it has not written.
- HistoryRestores: names and labels with tabs or newlines, lines of 4096 characters and more, and numbers out of range, which cut the lines of a manifest in other places.
- Extract: an output directory that is not empty, and paths whose parents are missing.
- The stage field and the contents of the log and intent files of recovery.
- GetArgs: the arguments in the command file are taken as already split into lines.
- Generate: directories that cannot be opened, and the size of a dangling link.
- ReadConfigFile, WriteConfigFile: settings files with NUL characters.
- Menus, drawing, mounting, flashing tools, the edify interpreter and the package verifier.
