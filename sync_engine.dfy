/**
 * The block loop of `main` and the reconciliation after it. `Step`, `Process` and `Run`
 * say on values what one block, all blocks and a whole invocation do to the ledger, the
 * destination and the counters; `Sync` is the imperative run over the file objects and is
 * proved to compute `Run`.
 */
module SyncEngine {
  import opened Wrappers
  import opened Bytes
  import opened BlockSource
  import opened Digest
  import opened Ledger
  import opened Destination

  /** The run's options: block size in bytes, --sparse, --rebuild, and truncation (off with --notruncate). */
  datatype Config = Config(blockSize: nat, sparse: bool, rebuild: bool, truncate: bool)

  /** totalBytesRead, totalBytesWritten, totalBlocksChanged. */
  datatype Stats = Stats(bytesRead: nat, bytesWritten: nat, blocksChanged: nat)

  const NoStats := Stats(0, 0, 0)

  /**
   * The state between two blocks: ledger bytes and cursor, destination bytes, counters,
   * and whether a fatal error has stopped the run.
   */
  datatype State = State(ledger: seq<byte>, cursor: nat, dest: seq<byte>, stats: Stats, failed: bool)

  /** How a run ends: exit 0, or one of the fatal errors the model covers. */
  datatype Status = Synced | SourceMissing | LedgerCorrupt | LedgerSeekFailed

  /** The files after a run (None: the file does not exist) and the counters. */
  datatype RunResult = RunResult(status: Status, dest: Option<seq<byte>>, ledger: Option<seq<byte>>, stats: Stats)

  /** The digest text of a zero-filled buffer of the configured block size. */
  function ZeroBlockHex(md4: seq<byte> -> Md4Digest, blockSize: nat): seq<byte>
  {
    HexOf(md4(Zeros(blockSize)))
  }

  /**
   * A block whose record fgets did read: SAME when the stored text matches (only the
   * cursor moves), otherwise DIFFERENT: the destination block is rewritten and then the
   * record is replaced by seeking 33 bytes back from the end of the line read, which fails
   * when that line ended before byte 33 of the ledger.
   */
  function RecordedStep(cfg: Config, st: State, block: seq<byte>, hex: seq<byte>, isZero: bool, line: seq<byte>): (r: State)
    ensures r.stats.bytesRead == st.stats.bytesRead + |block|
  {
    var read := st.stats.bytesRead + |block|;
    var cursor := st.cursor + |line|;
    if Matches(line, hex) then
      st.(cursor := cursor, stats := st.stats.(bytesRead := read))
    else
      var dest := if cfg.rebuild then st.dest else UpdatedBlock(st.dest, st.stats.bytesRead, block, cfg.sparse, isZero, true);
      if cursor < RecordSize then
        State(st.ledger, cursor, dest, st.stats.(bytesRead := read), true)
      else
        State(WriteAt(st.ledger, cursor - RecordSize, Record(hex)), cursor, dest,
              Stats(read, st.stats.bytesWritten + |block|, st.stats.blocksChanged + 1), false)
  }

  /**
   * NEW, a block past the end of the ledger: the record is appended at the cursor first,
   * then the destination block is written (or left as a hole).
   */
  function NewStep(cfg: Config, st: State, block: seq<byte>, hex: seq<byte>, isZero: bool): (r: State)
    ensures r.stats.bytesRead == st.stats.bytesRead + |block|
  {
    var dest := if cfg.rebuild then st.dest else UpdatedBlock(st.dest, st.stats.bytesRead, block, cfg.sparse, isZero, false);
    State(WriteAt(st.ledger, st.cursor, Record(hex)), st.cursor + RecordSize, dest,
          Stats(st.stats.bytesRead + |block|, st.stats.bytesWritten + |block|, st.stats.blocksChanged + 1), false)
  }

  /**
   * One iteration of the block loop: the block's digest text, the ledger line fgets reads,
   * then SAME, DIFFERENT or NEW. The destination offset is the number of bytes read
   * before this block. Rebuild mode never touches the destination.
   */
  function Step(md4: seq<byte> -> Md4Digest, cfg: Config, st: State, block: seq<byte>): (r: State)
    ensures r.stats.bytesRead == st.stats.bytesRead + |block|
  {
    var hex := HexOf(md4(block));
    var isZero := hex == ZeroBlockHex(md4, cfg.blockSize);
    match ReadLine(st.ledger, st.cursor)
    case Some(line) => RecordedStep(cfg, st, block, hex, isZero, line)
    case None => NewStep(cfg, st, block, hex, isZero)
  }

  /** The state after the remaining blocks, in order; a failed run stops where it is. */
  function Process(md4: seq<byte> -> Md4Digest, cfg: Config, st: State, blocks: seq<seq<byte>>): State
    decreases |blocks|, 1
  {
    if blocks == [] || st.failed then st
    else Continue(md4, cfg, st, blocks)
  }

  /** One pass of the loop: the first block, then the rest. */
  function Continue(md4: seq<byte> -> Md4Digest, cfg: Config, st: State, blocks: seq<seq<byte>>): State
    requires blocks != []
    decreases |blocks|, 0
  {
    Process(md4, cfg, Step(md4, cfg, st, blocks[0]), blocks[1..])
  }

  /** From `st`, the rest of the run over the source from byte `pos` on ends in `final`. */
  ghost predicate LeadsTo(md4: seq<byte> -> Md4Digest, cfg: Config, st: State, src: seq<byte>, pos: nat, final: State)
  {
    Process(md4, cfg, st, BlocksFrom(src, cfg.blockSize, pos)) == final
  }

  /** A run that has not failed takes the next block and goes on with the rest. */
  lemma ProcessNext(md4: seq<byte> -> Md4Digest, cfg: Config, st: State, src: seq<byte>, pos: nat, n: nat,
                    block: seq<byte>, final: State, next: State)
    requires next == Step(md4, cfg, st, block)
    requires !st.failed && pos <= |src| && n == Min(cfg.blockSize, |src| - pos) && n > 0
    requires block == src[pos..pos + n]
    requires LeadsTo(md4, cfg, st, src, pos, final)
    ensures LeadsTo(md4, cfg, next, src, pos + n, final)
  {
    ReadTakesNextBlock(src, pos, cfg.blockSize, n);
    var blocks := BlocksFrom(src, cfg.blockSize, pos);
    assert blocks[0] == block && blocks[1..] == BlocksFrom(src, cfg.blockSize, pos + n);
    assert Process(md4, cfg, st, blocks) == Continue(md4, cfg, st, blocks);
  }

  /**
   * The state the loop body reaches, by the branch for the line fgets read, is the run's
   * step for the block, and the rest of the run goes on from it.
   */
  lemma StepTaken(md4: seq<byte> -> Md4Digest, cfg: Config, st: State, src: seq<byte>, pos: nat, n: nat,
                  block: seq<byte>, hex: seq<byte>, zeroHex: seq<byte>, stored: Option<seq<byte>>,
                  final: State, next: State)
    requires !st.failed && pos <= |src| && n == Min(cfg.blockSize, |src| - pos) && n > 0
    requires block == src[pos..pos + n] && stored == ReadLine(st.ledger, st.cursor)
    requires hex == HexOf(md4(block)) && zeroHex == ZeroBlockHex(md4, cfg.blockSize)
    requires next == if stored.Some? then RecordedStep(cfg, st, block, hex, hex == zeroHex, stored.value)
                     else NewStep(cfg, st, block, hex, hex == zeroHex)
    requires LeadsTo(md4, cfg, st, src, pos, final)
    ensures next == Process(md4, cfg, st, [src[pos..pos + n]])
    ensures LeadsTo(md4, cfg, next, src, pos + n, final)
  {
    assert next == Step(md4, cfg, st, block);
    ProcessNext(md4, cfg, st, src, pos, n, block, final, next);
    ProcessOne(md4, cfg, st, block);
  }

  /** A run that has not failed, over one block, takes the step for that block. */
  lemma ProcessOne(md4: seq<byte> -> Md4Digest, cfg: Config, st: State, block: seq<byte>)
    requires !st.failed
    ensures Process(md4, cfg, st, [block]) == Step(md4, cfg, st, block)
  {
    var next := Step(md4, cfg, st, block);
    assert [block][0] == block && [block][1..] == [];
    assert Continue(md4, cfg, st, [block]) == Process(md4, cfg, next, []);
    assert Process(md4, cfg, st, [block]) == Continue(md4, cfg, st, [block]);
  }

  /** A failed run goes no further. */
  lemma ProcessFailed(md4: seq<byte> -> Md4Digest, cfg: Config, st: State, blocks: seq<seq<byte>>)
    requires st.failed
    ensures Process(md4, cfg, st, blocks) == st
  {
  }

  /** The state a run starts its block loop in. */
  function InitialState(ledger: seq<byte>, dest: seq<byte>): State
  {
    State(ledger, 0, dest, NoStats, false)
  }

  /**
   * After the block loop: a failed run has exited with the files as they were at the
   * failure; otherwise the ledger is cut at its cursor, the sparse trailer written at the
   * final source offset and the destination truncated to it.
   */
  function Outcome(cfg: Config, dest0: Option<seq<byte>>, st: State): (r: RunResult)
    ensures r.status == (if st.failed then LedgerSeekFailed else Synced) && r.stats == st.stats
    ensures cfg.rebuild ==> r.dest == dest0
    ensures !st.failed ==> r.ledger.Some? && |r.ledger.value| == st.cursor
    ensures st.failed ==> r.ledger == Some(st.ledger)
  {
    if st.failed then
      RunResult(LedgerSeekFailed, if cfg.rebuild then dest0 else Some(st.dest), Some(st.ledger), st.stats)
    else
      RunResult(Synced, if cfg.rebuild then dest0 else Some(Reconciled(cfg, st.dest, st.stats.bytesRead)),
                Some(Truncated(st.ledger, st.cursor)), st.stats)
  }

  /**
   * The destination the reconciliation leaves (not rebuilding): in sparse mode a 'Z' written
   * at the final offset `last`, then, unless truncation is off, truncation to `last`.
   */
  function Reconciled(cfg: Config, dest: seq<byte>, last: nat): seq<byte>
  {
    var withTrailer := if cfg.sparse then WriteAt(dest, last, [Trailer]) else dest;
    if cfg.truncate then Truncated(withTrailer, last) else withTrailer
  }

  /**
   * A whole invocation of `main` past option parsing: the source must exist; a missing
   * destination is created empty (unless rebuilding); an existing ledger whose size is
   * not a multiple of 33 is fatal, and a missing one is created empty; then the block loop
   * and the reconciliation after it.
   */
  function Run(md4: seq<byte> -> Md4Digest, cfg: Config, source: Option<seq<byte>>,
               dest0: Option<seq<byte>>, ledger0: Option<seq<byte>>): (r: RunResult)
    ensures r.status == SourceMissing <==> source.None?
    ensures r.status == SourceMissing ==> r.dest == dest0 && r.ledger == ledger0 && r.stats == NoStats
    ensures r.status == LedgerCorrupt <==>
      source.Some? && ledger0.Some? && |ledger0.value| % RecordSize != 0
    ensures r.status == LedgerCorrupt ==>
      r.ledger == ledger0 && r.stats == NoStats &&
      r.dest == (if cfg.rebuild then dest0 else Some(dest0.GetOr([])))
    ensures cfg.rebuild ==> r.dest == dest0
    ensures !cfg.rebuild && source.Some? ==> r.dest.Some?
    ensures r.status != SourceMissing && r.status != LedgerCorrupt ==> r.ledger.Some?
  {
    if source.None? then RunResult(SourceMissing, dest0, ledger0, NoStats)
    else
      var openedDest := if cfg.rebuild then dest0 else Some(dest0.GetOr([]));
      if ledger0.Some? && |ledger0.value| % RecordSize != 0 then
        RunResult(LedgerCorrupt, openedDest, ledger0, NoStats)
      else
        Outcome(cfg, dest0, Process(md4, cfg, InitialState(ledger0.GetOr([]), openedDest.GetOr([])),
                                    Blocks(source.value, cfg.blockSize)))
  }

  /** The file objects and the counters are those of state `st`. */
  ghost predicate Mirrors(st: State, ledger: LedgerFile, dest: DestFile?, stats: Stats)
    reads ledger, dest
  {
    ledger.contents == st.ledger && ledger.cursor == st.cursor && stats == st.stats &&
    (dest != null ==> dest.contents == st.dest)
  }

  /** The file objects and the counters hold the state `st` of a run still going. */
  ghost predicate Holds(st: State, ledger: LedgerFile, dest: DestFile?, stats: Stats)
    reads ledger, dest
  {
    Mirrors(st, ledger, dest, stats) && !st.failed
  }

  /** SAME or DIFFERENT, on the files, after fgets has read `line`. */
  method SyncRecordedBlock(cfg: Config, buffer: array<byte>, readBytes: nat, ghost block: seq<byte>, readingHex: seq<byte>,
                           zeroBlockHex: seq<byte>, line: seq<byte>, ledger: LedgerFile, dest: DestFile?,
                           ghost st: State, stats: Stats)
    returns (newStats: Stats, ok: bool)
    requires readBytes <= buffer.Length && block == buffer[..readBytes] && |readingHex| == 2 * DigestLength
    requires cfg.rebuild <==> dest == null
    requires ledger.contents == st.ledger && ledger.cursor == st.cursor + |line|
    requires stats == st.stats && !st.failed && (dest != null ==> dest.contents == st.dest)
    modifies ledger, dest
    ensures
      var after := RecordedStep(cfg, st, block, readingHex, readingHex == zeroBlockHex, line);
      ledger.contents == after.ledger && ledger.cursor == after.cursor && newStats == after.stats &&
      ok == !after.failed && (dest != null ==> dest.contents == after.dest)
  {
    newStats := stats.(bytesRead := stats.bytesRead + readBytes);
    ok := true;
    if !Matches(line, readingHex) {
      if dest != null {
        dest.UpdateBlock(buffer, readBytes, stats.bytesRead, cfg.sparse, readingHex, true, zeroBlockHex);
      }
      ok := ledger.UpdateRecord(readingHex, true);
      if ok {
        newStats := Stats(newStats.bytesRead, newStats.bytesWritten + readBytes, newStats.blocksChanged + 1);
      }
    }
  }

  /** NEW, on the files: append the record, then write the destination block. */
  method SyncNewBlock(cfg: Config, buffer: array<byte>, readBytes: nat, ghost block: seq<byte>, readingHex: seq<byte>,
                      zeroBlockHex: seq<byte>, ledger: LedgerFile, dest: DestFile?,
                      ghost st: State, stats: Stats)
    returns (newStats: Stats)
    requires readBytes <= buffer.Length && block == buffer[..readBytes] && |readingHex| == 2 * DigestLength
    requires cfg.rebuild <==> dest == null
    requires ledger.contents == st.ledger && ledger.cursor == st.cursor
    requires stats == st.stats && !st.failed && (dest != null ==> dest.contents == st.dest)
    modifies ledger, dest
    ensures
      var after := NewStep(cfg, st, block, readingHex, readingHex == zeroBlockHex);
      ledger.contents == after.ledger && ledger.cursor == after.cursor && newStats == after.stats &&
      (dest != null ==> dest.contents == after.dest)
  {
    var _ := ledger.UpdateRecord(readingHex, false);
    if dest != null {
      dest.UpdateBlock(buffer, readBytes, stats.bytesRead, cfg.sparse, readingHex, false, zeroBlockHex);
    }
    newStats := Stats(stats.bytesRead + readBytes, stats.bytesWritten + readBytes, stats.blocksChanged + 1);
  }

  /** SAME or DIFFERENT when fgets read a line, NEW when it read nothing. */
  method SyncReadBlock(cfg: Config, buffer: array<byte>, readBytes: nat, ghost block: seq<byte>, readingHex: seq<byte>,
                       zeroBlockHex: seq<byte>, stored: Option<seq<byte>>, ledger: LedgerFile, dest: DestFile?,
                       ghost st: State, stats: Stats)
    returns (newStats: Stats, ok: bool, ghost next: State)
    requires readBytes <= buffer.Length && block == buffer[..readBytes] && |readingHex| == 2 * DigestLength
    requires cfg.rebuild <==> dest == null
    requires ledger.contents == st.ledger && ledger.cursor == st.cursor + (if stored.Some? then |stored.value| else 0)
    requires stats == st.stats && !st.failed && (dest != null ==> dest.contents == st.dest)
    modifies ledger, dest
    ensures next == if stored.Some? then RecordedStep(cfg, st, block, readingHex, readingHex == zeroBlockHex, stored.value)
                    else NewStep(cfg, st, block, readingHex, readingHex == zeroBlockHex)
    ensures Mirrors(next, ledger, dest, newStats) && ok == !next.failed
    ensures newStats.bytesRead == stats.bytesRead + readBytes
  {
    if stored.Some? {
      newStats, ok := SyncRecordedBlock(cfg, buffer, readBytes, block, readingHex, zeroBlockHex, stored.value,
                                        ledger, dest, st, stats);
      next := RecordedStep(cfg, st, block, readingHex, readingHex == zeroBlockHex, stored.value);
    } else {
      newStats := SyncNewBlock(cfg, buffer, readBytes, block, readingHex, zeroBlockHex, ledger, dest, st, stats);
      ok := true;
      next := NewStep(cfg, st, block, readingHex, readingHex == zeroBlockHex);
    }
  }

  /**
   * The loop's view of the run: `pos` bytes of the source handled into state `st`, the
   * next block (if any) in the buffer, the files holding `st`, and the rest of the run
   * leading to `final`.
   */
  ghost predicate OnTrack(md4: seq<byte> -> Md4Digest, cfg: Config, sourceFile: SourceFile, buffer: array<byte>,
                          readBytes: nat, ledger: LedgerFile, dest: DestFile?, stats: Stats, st: State, final: State)
    reads sourceFile, buffer, ledger, dest
  {
    sourceFile.Valid() && buffer.Length == cfg.blockSize &&
    stats.bytesRead + readBytes == sourceFile.offset &&
    readBytes == Min(cfg.blockSize, |sourceFile.contents| - stats.bytesRead) &&
    buffer[..readBytes] == sourceFile.contents[stats.bytesRead..sourceFile.offset] &&
    Holds(st, ledger, dest, stats) &&
    LeadsTo(md4, cfg, st, sourceFile.contents, stats.bytesRead, final)
  }

  /**
   * The body of the block loop for the block in the first `readBytes` bytes of the buffer:
   * its digest, the ledger line read, then SAME, DIFFERENT or NEW in the program's order.
   * The files end up holding the next state, the run over this one block (which is Step, by
   * StepTaken), from which the rest of the run leads to `final`.
   */
  method SyncBlock(md4: seq<byte> -> Md4Digest, cfg: Config, buffer: array<byte>, readBytes: nat,
                   zeroBlockHex: seq<byte>, ledger: LedgerFile, dest: DestFile?, stats: Stats,
                   ghost src: seq<byte>, ghost st: State, ghost final: State)
    returns (newStats: Stats, ok: bool, ghost next: State)
    requires zeroBlockHex == ZeroBlockHex(md4, cfg.blockSize)
    requires cfg.rebuild <==> dest == null
    requires 0 < readBytes == Min(cfg.blockSize, |src| - stats.bytesRead) && readBytes <= buffer.Length
    requires buffer[..readBytes] == src[stats.bytesRead..stats.bytesRead + readBytes]
    requires Holds(st, ledger, dest, stats)
    requires LeadsTo(md4, cfg, st, src, stats.bytesRead, final)
    modifies ledger, dest
    ensures next == Process(md4, cfg, st, [src[stats.bytesRead..stats.bytesRead + readBytes]])
    ensures Mirrors(next, ledger, dest, newStats) && ok == !next.failed
    ensures newStats.bytesRead == stats.bytesRead + readBytes
    ensures LeadsTo(md4, cfg, next, src, stats.bytesRead + readBytes, final)
  {
    ghost var block := buffer[..readBytes];
    var readingHex := CalcMD4(md4, buffer, readBytes);
    var stored := ledger.ReadRecord();
    newStats, ok, next := SyncReadBlock(cfg, buffer, readBytes, block, readingHex, zeroBlockHex, stored,
                                        ledger, dest, st, stats);
    StepTaken(md4, cfg, st, src, stats.bytesRead, readBytes, block, readingHex, zeroBlockHex, stored, final, next);
  }

  /**
   * One pass of the block loop: handle the block in the buffer, moving the files to the run's
   * state after that one block, then read the next one.
   */
  method LoopBody(md4: seq<byte> -> Md4Digest, cfg: Config, sourceFile: SourceFile, buffer: array<byte>,
                  zeroBlockHex: seq<byte>, ledger: LedgerFile, dest: DestFile?, readBytes: nat, stats: Stats,
                  ghost st: State, ghost final: State)
    returns (newStats: Stats, ok: bool, nextBytes: nat, ghost next: State)
    requires zeroBlockHex == ZeroBlockHex(md4, cfg.blockSize)
    requires cfg.rebuild <==> dest == null
    requires 0 < readBytes && OnTrack(md4, cfg, sourceFile, buffer, readBytes, ledger, dest, stats, st, final)
    modifies sourceFile, buffer, ledger, dest
    ensures next == Process(md4, cfg, st, [sourceFile.contents[stats.bytesRead..stats.bytesRead + readBytes]])
    ensures !ok ==> next == final && ledger.contents == final.ledger && ledger.cursor == final.cursor &&
                    newStats == final.stats && final.failed && (dest != null ==> dest.contents == final.dest)
    ensures ok ==> OnTrack(md4, cfg, sourceFile, buffer, nextBytes, ledger, dest, newStats, next, final) &&
                   sourceFile.offset - nextBytes > old(sourceFile.offset) - readBytes
  {
    newStats, ok, next := SyncBlock(md4, cfg, buffer, readBytes, zeroBlockHex, ledger, dest, stats, sourceFile.contents, st, final);
    nextBytes := 0;
    if !ok {
      ProcessFailed(md4, cfg, next, BlocksFrom(sourceFile.contents, cfg.blockSize, newStats.bytesRead));
    } else {
      nextBytes := sourceFile.Read(buffer);
    }
  }

  /**
   * `while ((readBytes = fread(block, 1, blockSize, sourceFile)))`: each block read is
   * handled by the loop body until the source is exhausted or a REPLACE seek fails.
   */
  method BlockLoop(md4: seq<byte> -> Md4Digest, cfg: Config, sourceFile: SourceFile, buffer: array<byte>,
                   zeroBlockHex: seq<byte>, ledger: LedgerFile, dest: DestFile?, ghost st0: State)
    returns (stats: Stats, ok: bool)
    requires sourceFile.Valid() && sourceFile.offset == 0 && buffer.Length == cfg.blockSize
    requires zeroBlockHex == ZeroBlockHex(md4, cfg.blockSize)
    requires cfg.rebuild <==> dest == null
    requires Holds(st0, ledger, dest, NoStats)
    modifies sourceFile, buffer, ledger, dest
    ensures
      var final := Process(md4, cfg, st0, Blocks(sourceFile.contents, cfg.blockSize));
      ledger.contents == final.ledger && ledger.cursor == final.cursor && stats == final.stats &&
      ok == !final.failed && (dest != null ==> dest.contents == final.dest) &&
      (ok ==> sourceFile.offset == stats.bytesRead)
  {
    ghost var final := Process(md4, cfg, st0, Blocks(sourceFile.contents, cfg.blockSize));
    ghost var st := st0;
    stats := NoStats;
    var readBytes := sourceFile.Read(buffer);
    ok := true;
    while readBytes > 0
      invariant OnTrack(md4, cfg, sourceFile, buffer, readBytes, ledger, dest, stats, st, final)
      decreases |sourceFile.contents| - (sourceFile.offset - readBytes)
    {
      stats, ok, readBytes, st := LoopBody(md4, cfg, sourceFile, buffer, zeroBlockHex, ledger, dest, readBytes, stats, st, final);
      if !ok {
        return;
      }
    }
    ReadTakesNextBlock(sourceFile.contents, stats.bytesRead, cfg.blockSize, readBytes);
  }

  /** The reconciliation after the block loop, on the files. */
  method Finish(cfg: Config, dest0: Option<seq<byte>>, lastOffset: nat, ledger: LedgerFile, dest: DestFile?,
                ghost st: State, stats: Stats)
    returns (r: RunResult)
    requires cfg.rebuild <==> dest == null
    requires Holds(st, ledger, dest, stats) && lastOffset == stats.bytesRead
    modifies ledger, dest
    ensures r == Outcome(cfg, dest0, st)
  {
    ledger.TruncateAtCursor();
    if cfg.sparse && dest != null {
      dest.WriteTrailer(lastOffset);
    }
    if dest != null && cfg.truncate {
      dest.Truncate(lastOffset);
    }
    r := RunResult(Synced, if dest == null then dest0 else Some(dest.contents), Some(ledger.contents), stats);
  }

  /**
   * The run over file objects: one reused buffer of the block size, the zero-block digest
   * computed over the whole zeroed buffer, then `while (readBytes = fread(...))` and the
   * reconciliation, in the order the program performs them.
   */
  method Sync(md4: seq<byte> -> Md4Digest, cfg: Config, source: Option<seq<byte>>,
              dest0: Option<seq<byte>>, ledger0: Option<seq<byte>>) returns (r: RunResult)
    ensures r == Run(md4, cfg, source, dest0, ledger0)
  {
    if source.None? {
      return RunResult(SourceMissing, dest0, ledger0, NoStats);
    }
    var openedDest := if cfg.rebuild then dest0 else Some(dest0.GetOr([]));
    var dest: DestFile? := null;
    if !cfg.rebuild {
      dest := new DestFile.Open(dest0.GetOr([]));
    }
    var sourceFile := new SourceFile.Open(source.value);
    if ledger0.Some? && |ledger0.value| % RecordSize != 0 {
      return RunResult(LedgerCorrupt, openedDest, ledger0, NoStats);
    }
    var ledger := new LedgerFile.Open(ledger0.GetOr([]));

    var buffer := new byte[cfg.blockSize](_ => 0);
    assert buffer[..cfg.blockSize] == Zeros(cfg.blockSize);
    var zeroBlockHex := CalcMD4(md4, buffer, cfg.blockSize);
    ghost var st0 := InitialState(ledger0.GetOr([]), openedDest.GetOr([]));
    var stats, ok := BlockLoop(md4, cfg, sourceFile, buffer, zeroBlockHex, ledger, dest, st0);
    if !ok {
      return RunResult(LedgerSeekFailed, if dest == null then dest0 else Some(dest.contents),
                       Some(ledger.contents), stats);
    }
    ghost var final := Process(md4, cfg, st0, Blocks(source.value, cfg.blockSize));
    r := Finish(cfg, dest0, sourceFile.offset, ledger, dest, final, stats);
  }
}
