# bigsync in Dafny

bigsync copies a large source file onto a destination, rewriting only the blocks that
changed since the last run. It reads the source in fixed-size blocks (15 MiB by default).
For each block it computes an MD4 digest and renders it as 32 lowercase hex characters. It
then compares that text with the record at the same position in a checksum ledger
(`<dest>.bigsync`), which holds one record per block: the 32 hex characters and a newline.

- **SAME:** the texts match, and nothing is written.
- **DIFFERENT:** the stored record differs. The destination block is rewritten, then the
  record is replaced in place.
- **NEW:** the ledger is exhausted. The record is appended, then the destination block is
  written.

In sparse mode a block whose digest is that of a zero-filled block is left as a hole when it
had no record. After the loop:

- the ledger is cut at its cursor;
- sparse mode writes a `'Z'` at the final source offset;
- the destination is truncated to the number of bytes read (`ftello` of the source),
  unless truncation is off.

That number equals the source length for every positive block size. A block size of 0
(`-b 0`, or any `-b` text that `atoi` reads as 0) reads nothing. Such a run empties the
ledger. It empties the destination only when truncation is on; with truncation off the
destination keeps its contents, except that sparse mode writes its `'Z'` at offset 0. A
rebuild does not open the destination at all. The model does the same.

A rebuild run updates only the ledger. Two more things are modelled: the path and
block-size rules of `main`, and the human-readable time and size texts of `hr.c`.

The model is organised as follows.

- `bytes.dfy`: files as byte sequences.
  - `At` reads zero past the end.
  - `WriteAt` is `fseeko` + `fwrite`; writing past the end zero-fills the gap.
  - `Truncated` is `truncate`; it cuts the file or extends it with zeros.
- `block_source.dfy`: the source as an exact chunking into blocks (`Blocks`), plus the
  `SourceFile` class with `fread`.
- `digest.dfy`: the MD4 function is a parameter `md4: seq<byte> -> Md4Digest`. The hex
  rendering of `calcMD4` is modelled exactly, with its inverse.
- `ledger.dfy`: records, `fgets` as it really reads (it stops after a newline or after 33
  bytes), and the `LedgerFile` class (contents and cursor) with
  `updateMD4InChecksumsFile` and `truncateAndCloseChecksumsFile`.
- `destination.dfy`: the sparse-aware write decision of `updateBlockInFile` and the
  `DestFile` class.
- `sync_engine.dfy`: the run on values, in three layers.
  - `Step` is one block, `Process` is the loop, and `Run` is a whole invocation past option
    parsing, with its error exits.
  - The imperative `Sync` works over the file objects, one reused buffer and the
    `while (fread(...))` loop.
  - `Sync` is proved to compute `Run`.
- `sync_properties.dfy`: theorems about `Run`:
  - the ledger stays in step and ends as the records of the source's blocks;
  - the counters count the changed blocks;
  - a second run changes nothing;
  - the destination ends equal to the source, under stated assumptions.
- `options.dfy`: the block-size option, `isDirectory`'s mode test, the destination path
  inside a directory, and the default ledger path.
- `human_readable.dfy`: `makeHumanReadableTime`, and `makeHumanReadableSize` below a
  gigabyte.

Four points of the code's order and checks matter for what the model proves.

- **Order of writes.** For a DIFFERENT block the destination block is written
  (bigsync.c:546-548) before the record is replaced (bigsync.c:549). For a NEW block it is
  the reverse: the record is appended (bigsync.c:559) before the destination is written
  (bigsync.c:561-563). `SyncEngine.RecordedStep`, `SyncEngine.NewStep` and the methods
  `SyncRecordedBlock` and `SyncNewBlock` keep both orders.
- **What comes before the ledger check.** A missing destination is created
  (bigsync.c:487-494) and the source opened (bigsync.c:499) before the ledger size check
  (bigsync.c:506-516). So `SyncEngine.Run` reports `LedgerCorrupt` with the destination
  created empty when it was missing.
- **A trailer can stay inside the destination.** In sparse mode with truncation off, the
  'Z' written at the end of one run (bigsync.c:586-587) stays in place when the source later
  grows by a zero block. That block is NEW and zero, so it is left as a hole
  (bigsync.c:242-247). `SyncProperties.SparseTrailerSurvivesGrowth` shows this for any
  positive block size, such as the 100000 bytes of `-b _`.
- **The directory test never succeeds.** `isDirectory` (bigsync.c:293-306) tests
  `st_mode & S_IFBLK` before `st_mode & S_IFDIR`. The block-device code 0060000 contains
  the directory bit 0040000, so every directory answers 0. `main` (bigsync.c:466-468) thus
  never composes a path inside a directory. `Options.IsDirectoryAsWritten` models the test
  as written; `Options.IsDirectory` is the intended test on the file-type bits, and
  `Options.ResolveDest` uses it (see "## Findings").

## Model

| member | source | states |
|---|---|---|
| Bytes.WriteAt | bigsync.c:259-263 | defines the file after fseeko and fwrite at an offset: the length at least reaches the end of the write, and the gap past the old end is zero-filled |
| Bytes.Truncated | bigsync.c:595-599 | defines truncate to n bytes: the result is exactly n bytes long |
| Bytes.WriteAtReads | bigsync.c:259-263 | after seeking to an offset and writing, the written bytes read back there and every other byte reads as before (zero in a gap past the old end) |
| Bytes.TruncatedReads | bigsync.c:595-599 | truncating to n keeps every byte before n, reading zero where the file was shorter |
| Bytes.WriteAtTwice | bigsync.c:580-589 | writing the same bytes at the same offset twice is writing them once |
| Bytes.SameReads | bigsync.c:595-599 | two files of one length that read alike at every offset are equal |
| BlockSource.BlocksFrom | bigsync.c:529 | defines the blocks fread returns from byte `pos` on: full blocks, then a shorter last one, and none for a block size of 0 |
| BlockSource.Blocks | bigsync.c:529 | defines the blocks of the whole source |
| BlockSource.BlockAt | bigsync.c:529 | block k of the source starts at byte k * blockSize and runs blockSize bytes or to the end of the source |
| BlockSource.BlocksCount | bigsync.c:529 | the loop reads just enough blocks to cover the source, and none for an empty source |
| BlockSource.BlocksConcat | bigsync.c:529-531 | the blocks put back together are the source, and their lengths add up to its length |
| BlockSource.ReadTakesNextBlock | bigsync.c:529 | a read of zero bytes ends the loop; otherwise the bytes read are the next block |
| BlockSource.SourceFile.Open | bigsync.c:499 | the source is opened for reading at offset 0 |
| BlockSource.SourceFile.Read | bigsync.c:529 | fread fills a prefix of the buffer with the next min(buffer size, bytes left) bytes and moves the offset past them |
| Digest.HexByte | bigsync.c:340 | "%02x" of one byte is two lowercase hex digits |
| Digest.HexByteValues | bigsync.c:340 | the two digits read back as the byte: the first is its high nibble, the second its low nibble |
| Digest.HexOf | bigsync.c:338-341 | defines the "%02x" rendering, two characters per byte, in order |
| Digest.HexOfIsLowerHex | bigsync.c:338-341 | every character of a rendered digest is a lowercase hex digit |
| Digest.UnHexOfHex | bigsync.c:338-341 | reading the hex text back gives the digest bytes |
| Digest.HexOfUnHex | bigsync.c:338-341 | a text that reads as hex pairs is the rendering of the bytes it reads as |
| Digest.HexInjective | bigsync.c:537-539 | two digest texts are equal exactly when the digests are, so comparing texts compares digests |
| Digest.CalcMD4 | bigsync.c:328-344 | the loop renders the digest of the first `size` bytes of the buffer, two hex characters per byte, 32 in all |
| Ledger.Record | bigsync.c:270-272 | "%s\n" of a digest text: the text, then one newline |
| Ledger.LineLength | bigsync.c:536 | fgets consumes no more than its room and never reads past the end of the ledger |
| Ledger.ReadLine | bigsync.c:536 | defines fgets(storedMD4, 34, ...) at the cursor: nothing exactly at or past end of file, otherwise the line read |
| Ledger.Matches | bigsync.c:537-538 | defines the strncmp over 32 characters after `storedMD4[32] = 0` |
| Ledger.LineLengthShape | bigsync.c:536 | fgets into a 34-byte buffer consumes at most 33 bytes; it stops after the first newline, at the room limit or at end of file, and not before |
| Ledger.ReadLineShape | bigsync.c:536 | a line read is a non-empty stretch of at most 33 ledger bytes starting at the cursor |
| Ledger.FramedLength | bigsync.c:512-515 | a ledger made of whole records passes the size check |
| Ledger.FramedDrop | bigsync.c:536 | what follows whole records of a framed ledger is framed |
| Ledger.ReadFrame | bigsync.c:536 | on a ledger of whole records, fgets reads exactly the next 33-byte record |
| Ledger.RecordIsFrame | bigsync.c:271-272 | "%s\n" of a 32-character newline-free text is one whole record |
| Ledger.LedgerFile.Open | bigsync.c:518-521 | the ledger is opened with its cursor at the start |
| Ledger.LedgerFile.ReadRecord | bigsync.c:535-536 | fgets returns the line at the cursor and moves the cursor past it, or nothing at end of file |
| Ledger.LedgerFile.UpdateRecord | bigsync.c:270-283 | REPLACE seeks 33 bytes back from the cursor, failing when the cursor is before byte 33, and overwrites there; ADD writes at the cursor; either way the cursor ends right after the record |
| Ledger.LedgerFile.TruncateAtCursor | bigsync.c:285-291 | the ledger is cut at the cursor |
| Destination.ShouldWriteBlock | bigsync.c:228-257 | defines updateBlockInFile's write-or-skip decision table |
| Destination.UpdatedBlock | bigsync.c:221-268 | defines the destination after updateBlockInFile: the write at the offset, or unchanged for a hole |
| Destination.UpdatedBlockReads | bigsync.c:221-268 | a written block reads back at its offset and every other byte is unchanged; a skipped block changes nothing |
| Destination.SkipOnlyNewZeroBlocksInSparseMode | bigsync.c:228-257 | a block is skipped exactly when sparse mode is on, its digest is the zero block's and it had no stored record; with sparse off every block is written |
| Destination.DestFile.Open | bigsync.c:487-494 | the destination is opened with its existing contents (empty when it was just created) |
| Destination.DestFile.UpdateBlock | bigsync.c:221-268 | the destination after updateBlockInFile is the write at the offset, or unchanged for a sparse hole, following the decision table branch by branch |
| Destination.DestFile.WriteTrailer | bigsync.c:580-589 | the sparse fix-up writes one 'Z' at the final offset |
| Destination.DestFile.Truncate | bigsync.c:595-599 | the destination is truncated to the given length |
| SyncEngine.ZeroBlockHex | bigsync.c:523-527 | defines the zero-block digest: the text of the digest of a zeroed buffer of the block size |
| SyncEngine.RecordedStep | bigsync.c:536-553 | a block with a stored line: SAME moves only the cursor; DIFFERENT writes the destination block, then fails when the line ended before byte 33 or replaces the record and counts the block; either way the bytes read grow by the block |
| SyncEngine.NewStep | bigsync.c:555-566 | a block past the end of the ledger: the record is appended, then the destination block is written or left as a hole, and the block is counted |
| SyncEngine.Step | bigsync.c:529-531 | every block read adds its length to the bytes read, whatever its classification |
| SyncEngine.InitialState | bigsync.c:518-521 | defines the state the loop starts in: the ledger as opened with its cursor at 0, the destination as opened, all counters 0, not failed |
| SyncEngine.Process | bigsync.c:529-568 | defines the loop on values: the blocks in order, stopping at the first failed seek; its properties are the ProcessLedger, ProcessCounters, ProcessDest and ProcessFailed rows |
| SyncEngine.Continue | bigsync.c:529-568 | defines one pass of the loop on values: the step for the first block, then the rest |
| SyncEngine.StepTaken | bigsync.c:529-568 | the state reached by the branch for the line fgets read (or NEW when it read none) is the run over that one block, and the rest of the run goes on from it |
| SyncEngine.Run | bigsync.c:474-516 | a missing source fails first with nothing changed; a ledger whose size is not a multiple of 33 fails before any block, with the ledger as it was and a missing destination created; rebuild never changes the destination |
| SyncEngine.ProcessNext | bigsync.c:529-568 | a run that has not failed takes the next block of the source and goes on with the rest |
| SyncEngine.ProcessOne | bigsync.c:529-568 | the run over one block from a state that has not failed is that block's step |
| SyncEngine.Outcome | bigsync.c:573-599 | after the loop: a failed run exits with the ledger as it was at the failure; otherwise the run ends Synced, with the ledger cut to the cursor; rebuild leaves the destination as it was; the counters are the loop's |
| SyncEngine.Reconciled | bigsync.c:580-599 | defines the destination after the loop: the sparse 'Z' at the final offset, then truncation to it unless truncation is off |
| SyncEngine.ProcessFailed | bigsync.c:276-279 | after a failed seek the run goes no further |
| SyncEngine.SyncRecordedBlock | bigsync.c:536-553 | SAME leaves the files alone; DIFFERENT writes the destination block (unless rebuilding), then replaces the record and counts the block, or fails on the seek |
| SyncEngine.SyncNewBlock | bigsync.c:555-566 | NEW appends the record, then writes the destination block (unless rebuilding), and counts the block |
| SyncEngine.SyncReadBlock | bigsync.c:536-566 | after fgets, a line read leads to SAME or DIFFERENT and no line to NEW; the files hold the state of that branch, and the bytes read grow by the block |
| SyncEngine.SyncBlock | bigsync.c:529-568 | one loop iteration turns the files into the next state of the run, and the rest of the run leads on from there |
| SyncEngine.LoopBody | bigsync.c:529-568 | one pass handles the block in the buffer and reads the next one, or stops the run on a failure |
| SyncEngine.BlockLoop | bigsync.c:529-568 | the while loop leaves the files and counters exactly as the value model says |
| SyncEngine.Finish | bigsync.c:573-599 | cut the ledger, write the sparse trailer, truncate the destination, in that order |
| SyncEngine.Sync | bigsync.c:487-599 | the imperative run over the file objects computes Run |
| SyncProperties.RecordOfIsFrame | bigsync.c:270-272 | the record of a digest is 33 bytes with its only newline at the end |
| SyncProperties.RecordsOf | bigsync.c:270-283 | a ledger of the records of k blocks is 33 * k bytes |
| SyncProperties.StepSame | bigsync.c:537-539 | SAME moves the cursor over the matching record and changes nothing else |
| SyncProperties.StepDifferent | bigsync.c:540-553 | DIFFERENT overwrites the record just read with the block's, keeps the records after it, rewrites the destination block and counts the block |
| SyncProperties.StepNew | bigsync.c:555-566 | NEW appends the block's record at the end, writes or skips the destination block and counts the block |
| SyncProperties.StepInStep | bigsync.c:529-568 | on a ledger of whole records each block advances the cursor one record and leaves the written part as the records so far; the block counts as changed exactly when its record did not match; the destination changes only for a changed block, at the bytes read before it |
| SyncProperties.ProcessLedger | bigsync.c:529-568 | over a loop the cursor advances 33 bytes per block, the run never fails, and the ledger up to the cursor is the records of the blocks in order |
| SyncProperties.ProcessCounters | bigsync.c:531-566 | the counters add every block's length to the bytes read, and count exactly the blocks whose record did not match, with their lengths; without such a block the destination is unchanged |
| SyncProperties.InitialInStep | bigsync.c:506-521 | a missing ledger is created empty, and an existing one of whole records starts in step |
| SyncProperties.LedgerAfterRun | bigsync.c:285-291 | after a run the ledger is exactly the records of the source's blocks, in order, 33 bytes each; stale trailing records are dropped |
| SyncProperties.RunCounters | bigsync.c:529-567 | every source byte is read; blocks changed and bytes written count exactly the DIFFERENT and NEW blocks, sparse holes and rebuild runs included |
| SyncProperties.RecordsFramed | bigsync.c:270-283 | a ledger of records of digests is made of whole records |
| SyncProperties.OwnRecordsUnchanged | bigsync.c:537-539 | against its own records no block counts as changed |
| SyncProperties.OutcomeShape | bigsync.c:580-599 | with truncation the destination is as long as the bytes read, the sparse 'Z' being cut off again; sparse without truncation leaves the 'Z' at that offset; the bytes before it never change |
| SyncProperties.ReconciledTwice | bigsync.c:580-599 | reconciling twice at one offset is reconciling once |
| SyncProperties.SecondRunChangesNothing | bigsync.c:529-599 | rerunning over an unchanged source with the files the first run left changes no block, writes no byte and leaves destination and ledger as they were |
| SyncProperties.ZeroBlockSizeRun | bigsync.c:529-599 | with a block size of 0 nothing is read: the ledger is emptied; the destination is emptied with truncation on, kept with truncation off (but for a 'Z' at offset 0 in sparse mode) and not opened by a rebuild |
| SyncProperties.MissingLedgerIsEmpty | bigsync.c:506-510 | a missing ledger behaves as an empty one |
| SyncProperties.StepDest | bigsync.c:221-268 | a block the run leaves alone, when it is already in the original destination, and a block it writes both end up shown at their offset, with nothing else changed |
| SyncProperties.ProcessDest | bigsync.c:529-568 | over a loop of such blocks the destination shows each block at the sum of the lengths before it |
| SyncProperties.ReconciledReads | bigsync.c:580-599 | reconciliation keeps the synced bytes; with truncation the destination is exactly them; in sparse mode without truncation the 'Z' follows them |
| SyncProperties.OutcomeCopies | bigsync.c:573-599 | a loop that has shown the source ends in a destination equal to it (with truncation) or starting with it |
| SyncProperties.TrustedRunCopiesSource | bigsync.c:529-599 | if every block the run leaves alone is already in the destination, the destination ends showing the source byte for byte, and with truncation it is the source |
| SyncProperties.CollisionFreeApart | bigsync.c:537-539 | between collision-free blocks equal digests mean equal blocks |
| SyncProperties.CollisionFreePairwise | bigsync.c:537-539 | the recursive collision-freedom is exactly pairwise collision-freedom |
| SyncProperties.SameTextSameBlock | bigsync.c:537-539 | between collision-free blocks equal digest texts mean equal blocks |
| SyncProperties.CollisionFreeWithin | bigsync.c:537-539 | blocks from a collision-free pool are collision-free |
| SyncProperties.FreshTrusted | bigsync.c:555-566 | against an empty ledger only sparse holes rely on the destination, and a destination reading as zeros holds them |
| SyncProperties.FirstSyncCopiesSource | bigsync.c:506-599 | a first run without a ledger leaves a destination showing the source, equal to it with truncation; sparse mode needs a destination reading as zeros |
| SyncProperties.ResyncBlockTrusted | bigsync.c:536-553 | over a destination holding the previous source and its ledger, a block left alone as SAME or as a hole is already there |
| SyncProperties.ResyncTrusted | bigsync.c:529-568 | every block of the new source is such a block |
| SyncProperties.ResyncCopiesSource | bigsync.c:529-599 | resyncing a copy of the previous source with its ledger leaves a destination showing the new source, equal to it with truncation |
| SyncProperties.SuccessiveSyncsTrackSource | bigsync.c:529-599 | a first run from nothing and a second over its files leave copies of the two sources in turn and the second source's ledger |
| SyncProperties.MisframedLedgerFailsSeek | bigsync.c:275-279 | a 33-byte ledger starting with a newline passes the size check, and the REPLACE seek then fails after the first block was written to the destination |
| SyncProperties.SparseTrailerSurvivesGrowth | bigsync.c:580-589 | in sparse mode without truncation, at any block size, a first run over one non-zero block leaves the block and a 'Z' after it; after the source grows by a zero block the second run writes its 'Z' at the new end and keeps the first one, so the byte after the first block is 'Z' where the source has 0 |
| Options.BlockSize | bigsync.c:371 | without --blocksize the block size is 15 MiB |
| Options.BlockSizeInMebibytes | bigsync.c:415-421 | an option starting with '_' gives 100000 bytes; any other is the number given times 1 MiB, positive exactly when the number is |
| Options.WithoutTrailingSlash | bigsync.c:313-315 | one trailing '/' is dropped, and nothing else changes |
| Options.DestInDirectoryParts | bigsync.c:308-320 | the composed path is the directory with one trailing '/' removed, '/', then the source's basename; "d" and "d/" give the same path |
| Options.DestInDirectory | bigsync.c:308-320 | defines createDestFilenameFromSource: the directory without one trailing '/', then '/', then the basename |
| Options.IsDirectoryAsWritten | bigsync.c:293-306 | defines isDirectory as written: -1 when stat fails, 0 when the mode shares a bit with S_IFBLK, else 1 when it shares one with S_IFDIR, else 0 |
| Options.IsDirectoryAsWrittenNeverOne | bigsync.c:299-305 | the test as written never answers 1, and answers 0 for a directory |
| Options.IsDirectory | bigsync.c:293-306 | the intended test: -1 exactly when stat fails, 1 exactly when the file-type bits are those of a directory (the definition of S_ISDIR), else 0; unlike IsDirectoryAsWritten it answers 1 for a directory and, by BlockDeviceIsNotDirectory, 0 for a block device |
| Options.BlockDeviceIsNotDirectory | bigsync.c:299-300 | a block device, whose type code overlaps the directory bit, is not taken for a directory |
| Options.ResolveDest | bigsync.c:466-468 | defines the destination path: inside the directory when the destination is one, otherwise as given |
| Options.ResolveDestParts | bigsync.c:466-468 | for a directory the destination is a file named after the source directly inside it; otherwise it is the path given |
| Options.DefaultLedgerBesideDest | bigsync.c:501-504 | the default ledger path is the destination path followed by ".bigsync", so different destinations get different ledgers |
| Options.LedgerPath | bigsync.c:501-504 | defines the ledger path: the --checksum path when given, else the destination path and ".bigsync" |
| HumanReadable.Digits | hr.c:17-21 | "%d" of a non-negative number is decimal digits with no leading zero |
| HumanReadable.DigitsValueOfDigits | hr.c:17-21 | reading "%d" back gives the number |
| HumanReadable.Pad2Reads | hr.c:35 | "%02d" of 0..99 is two digits that read back as the number |
| HumanReadable.Decimal | hr.c:16-20 | "%d": a '-' exactly for a negative number, then digits that read back as its size |
| HumanReadable.Pad2 | hr.c:34-42 | "%02d" is at least two characters, and a non-negative number reads back from it |
| HumanReadable.Quot | hr.c:27-29 | C's int division by a positive divisor rounds toward zero: the remainder has the sign of the dividend and is smaller than the divisor |
| HumanReadable.ToInt32 | hr.c:26 | `int seconds = elapsedSeconds` keeps a value that fits an int and wraps others into the int range, differing from them by a multiple of 2^32 |
| HumanReadable.Split | hr.c:26-30 | hours * 3600 + minutes * 60 + seconds is the elapsed time, with minutes and seconds in 0..59, for every time from 0 to 2^31 - 1 (negative int times give non-positive parts; larger times wrap first) |
| HumanReadable.TimeText | hr.c:32-47 | defines the three sprintf branches of makeHumanReadableTime, chosen on the long value, with the fields from its int conversion |
| HumanReadable.FormatTime | hr.c:25-48 | defines makeHumanReadableTime as those branches over Split |
| HumanReadable.TimeTextShapes | hr.c:32-47 | "<n>s" below a minute, "<m>m" or "<m>m<ss>s" below an hour, "<h>h<mm>m" or "<h>h<mm>m<ss>s" from an hour on |
| HumanReadable.TimeShapes | hr.c:25-48 | makeHumanReadableTime has those three shapes for every time from 0 to 2^31 - 1 |
| HumanReadable.ReadFormattedTime | hr.c:25-48 | reading the time text back (numbers times their unit letters) gives the elapsed time |
| HumanReadable.FormatTimeInjective | hr.c:25-48 | distinct times give distinct texts |
| HumanReadable.TimeThresholds | hr.c:32-47 | 59 is "59s", 60 is "1m", and 3600 is "1h00m" |
| HumanReadable.FormatSize | hr.c:12-23 | defines makeHumanReadableSize: whole Mb from 1 MiB on, whole Kb from 1024 on, else bytes; nothing for the float gigabyte branch |
| HumanReadable.SizeTextIsFloor | hr.c:12-23 | below a gigabyte the size text is the floor in the largest unit not above the size (b, Kb, Mb), and the range it names holds the size |
| HumanReadable.SizeThresholds | hr.c:15-21 | 1023 is "1023 b", 1024 is "1 Kb", and 1 MiB is "1 Mb" |

## Left out

- MD4 itself (RFC 1320): `md4.c` is not part of this model. The digest is a parameter. The
  content theorems assume it has no collision among the blocks of the run and the zero
  block; they never assume it is injective on all inputs.
- I/O failures other than the REPLACE seek are not modelled. The model handles three
  failures: a missing source, the ledger size check, and the seek before byte 33. In the
  code the other failures go different ways:
  - `fopen` of the destination (bigsync.c:494) and of the source (bigsync.c:499) is never
    checked.
  - `checkForErrorAndExit` on the source (bigsync.c:530) runs only after a read that
    returned bytes. A read error that returns 0 ends the loop (bigsync.c:529) as if at end of
    file. The run then cuts the ledger at its cursor (bigsync.c:577) and the destination at
    the bytes read (bigsync.c:595-599): silently, not with an exit.
  - A failing `fgets` on the ledger exits through `checkForErrorAndExit` (bigsync.c:556).
  - The trailer's `fseeko` and `fwrite` (bigsync.c:586-587) are never checked.
  - A failed `truncate` exits through `printAndFail` (bigsync.c:596-597).
  - Other failing writes, seeks and `ftruncate` calls inside the helpers are not modelled.
  - `fsync` and stdio buffering are not modelled.
- Command-line parsing, help and version text, all progress, total and starting-info
  printing, and timing (`gettimeofday`).
- The `--zero` flag: it sets the source size to 0 before the missing-source test
  (bigsync.c:471-477), and so also switches that test off. With it, a missing source is not
  reported: the run creates the destination and the ledger, then reads from a NULL stream
  (bigsync.c:499, 529). `SyncEngine.Run` models only the run without the flag, in which a
  missing source exits with nothing changed.
- OS queries (`stat`, `fileSize`, `createEmptyFile`): their results are inputs. A missing
  file is `None`, and `stat`'s answer for the destination is its `st_mode` (`None` when
  `stat` fails), taken as a 32-bit value with the Linux type codes.
- Options.ResolveDest: uses the intended directory test `IsDirectory`, not the one
  bigsync.c:299-305 performs. As written that test never answers 1, so the source never
  reaches `createDestFilenameFromSource`; `IsDirectoryAsWritten` and
  `IsDirectoryAsWrittenNeverOne` model and state that.
- `basename` and `atoi` are given values. Options.BlockSize: does not model how `atoi`
  reads the text.
- Options.BlockSize: a negative number gives a negative block size in the source; the run
  model takes a `nat` block size, so runs with a negative block size are not modelled.
- The `realloc` sizing and the overlapping `sprintf` in `createDestFilenameFromSource`:
  these are memory issues in C. Only the string the code means to build is modelled.
- Counter width: `off_t` totals and the `uint64_t` offset arithmetic are unbounded integers
  here, so overflow is not modelled. The long to int conversion in
  `makeHumanReadableTime` is modelled (`ToInt32`).
- The float gigabyte branch of `makeHumanReadableSize` (`FormatSize` gives `None`) and
  `makeProgressBar`.
- HumanReadable.ReadFormattedTime: proved for times 0 to 2^31 - 1 only. Negative and larger
  times get texts with minus signs or wrapped fields, which the reader does not cover.
- HumanReadable.TimeShapes: stated for times 0 to 2^31 - 1 only, for the same reason.
- HumanReadable.FormatTimeInjective: stated for times 0 to 2^31 - 1 only, for the same reason.
- Concurrency between runs and crash-resumability: a run is treated as one sequential,
  uninterrupted computation.

## Findings

| source | as written | input that shows it | evidently intended | confidence | as-written member | corrected member |
|---|---|---|---|---|---|---|
| bigsync.c:299-305 | the mode is tested against S_IFBLK first, by any shared bit, and only then against S_IFDIR; S_IFBLK (0060000) contains S_IFDIR's bit (0040000), so a directory answers 0 | a destination directory, `st_mode` 0040755: isDirectory answers 0 and line 466 keeps the directory path as the file to open | compare the file-type bits: `(st_mode & S_IFMT) == S_IFDIR` answers 1 for a directory and 0 for a block device | not executed; high | Options.IsDirectoryAsWrittenNeverOne | Options.IsDirectory |
