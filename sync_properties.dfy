/**
 * What a run over a well-formed ledger does, proved of the value model in SyncEngine (and
 * so, through `Sync`'s contract, of the run over the file objects): the ledger stays in
 * step with the source one record per block and ends as the records of the source's
 * blocks; the counters count exactly the blocks whose record did not match; a second run
 * over an unchanged source changes nothing; and a run whose ledger can be trusted for the
 * destination leaves the destination equal to the source.
 */
module SyncProperties {
  import opened Wrappers
  import opened Bytes
  import opened BlockSource
  import opened Digest
  import opened Ledger
  import opened Destination
  import opened SyncEngine

  /** The ledger record of a block: its digest text and a newline. */
  function RecordOf(md4: seq<byte> -> Md4Digest, b: seq<byte>): seq<byte> { Record(HexOf(md4(b))) }

  /** The records of a sequence of blocks, in order: what a ledger for them holds. */
  function RecordsOf(md4: seq<byte> -> Md4Digest, blocks: seq<seq<byte>>): (r: seq<byte>)
    ensures |r| == RecordSize * |blocks|
    decreases |blocks|
  {
    if blocks == [] then [] else RecordOf(md4, blocks[0]) + RecordsOf(md4, blocks[1..])
  }

  /** Whether the ledger's unread part starts with a whole record whose text is `hex`: SAME. */
  predicate StoredFirst(rest: seq<byte>, hex: seq<byte>)
  {
    |rest| >= RecordSize && rest[..32] == hex
  }

  /** The unread part of the ledger after one more record (nothing once it is used up). */
  function Skip(rest: seq<byte>): seq<byte>
  {
    if |rest| >= RecordSize then rest[RecordSize..] else []
  }

  /** How many of the blocks the ledger's unread part does not hold: the DIFFERENT and NEW ones. */
  function ChangedCount(md4: seq<byte> -> Md4Digest, rest: seq<byte>, blocks: seq<seq<byte>>): nat
    decreases |blocks|
  {
    if blocks == [] then 0
    else (if StoredFirst(rest, HexOf(md4(blocks[0]))) then 0 else 1) + ChangedCount(md4, Skip(rest), blocks[1..])
  }

  /** How many bytes those blocks hold. */
  function ChangedBytes(md4: seq<byte> -> Md4Digest, rest: seq<byte>, blocks: seq<seq<byte>>): nat
    decreases |blocks|
  {
    if blocks == [] then 0
    else (if StoredFirst(rest, HexOf(md4(blocks[0]))) then 0 else |blocks[0]|) + ChangedBytes(md4, Skip(rest), blocks[1..])
  }

  /**
   * A run in step with its ledger: the ledger is the records written so far, `done`, with
   * the cursor right after them, followed by the part of the old ledger not read yet, which
   * is made of whole records.
   */
  ghost predicate InStep(st: State, done: seq<byte>, rest: seq<byte>)
  {
    !st.failed && st.cursor == |done| && st.ledger == done + rest && Framed(rest)
  }

  /** The counters after a block: all count its bytes read; only a changed block counts as written. */
  function Counted(stats: Stats, block: seq<byte>, same: bool): Stats
  {
    if same then stats.(bytesRead := stats.bytesRead + |block|)
    else Stats(stats.bytesRead + |block|, stats.bytesWritten + |block|, stats.blocksChanged + 1)
  }

  /** A digest text is 32 hex characters, so its record is a frame. */
  lemma RecordOfIsFrame(md4: seq<byte> -> Md4Digest, b: seq<byte>)
    ensures IsFrame(RecordOf(md4, b)) && |HexOf(md4(b))| == 32
  {
    var hex := HexOf(md4(b));
    HexOfIsLowerHex(md4(b));
    assert Newline !in hex by {
      forall i | 0 <= i < |hex| ensures hex[i] != Newline {
        assert IsLowerHex(hex[i]);
      }
    }
    RecordIsFrame(hex);
  }

  /** fgets at the cursor of a ledger in step, with records left, reads the next whole record. */
  lemma ReadInStep(done: seq<byte>, rest: seq<byte>)
    requires rest != [] && Framed(rest)
    ensures |rest| >= RecordSize && IsFrame(rest[..RecordSize])
    ensures ReadLine(done + rest, |done|) == Some(rest[..RecordSize])
  {
    var l := done + rest;
    var c := |done|;
    assert l[c..] == rest;
    ReadFrame(l, c);
    assert l[c..c + RecordSize] == l[c..][..RecordSize];
  }

  /** Overwriting the record right after `done` replaces it and keeps the records after it. */
  lemma OverwriteFirst(done: seq<byte>, rest: seq<byte>, rec: seq<byte>)
    requires |rec| == RecordSize <= |rest|
    ensures WriteAt(done + rest, |done|, rec) == done + rec + rest[RecordSize..]
  {
    var f := done + rest;
    assert f[..|done|] == done;
    if |done| + RecordSize < |f| {
      assert f[|done| + RecordSize..] == rest[RecordSize..];
    } else {
      assert rest[RecordSize..] == [];
    }
  }

  /** SAME on a ledger in step: only the cursor moves past the record, which already is the block's. */
  lemma StepSame(md4: seq<byte> -> Md4Digest, cfg: Config, st: State, block: seq<byte>, done: seq<byte>, rest: seq<byte>)
    requires InStep(st, done, rest) && StoredFirst(rest, HexOf(md4(block)))
    ensures var r := Step(md4, cfg, st, block);
      r == st.(cursor := |done| + RecordSize, stats := Counted(st.stats, block, true)) &&
      st.ledger == done + RecordOf(md4, block) + Skip(rest)
  {
    var hex := HexOf(md4(block));
    var line := rest[..RecordSize];
    ReadInStep(done, rest);
    assert Step(md4, cfg, st, block) == RecordedStep(cfg, st, block, hex, hex == ZeroBlockHex(md4, cfg.blockSize), line);
    assert line == hex + [Newline];
    assert rest == line + rest[RecordSize..];
  }

  /** DIFFERENT on a ledger in step: the record just read is overwritten with the block's. */
  lemma StepDifferent(md4: seq<byte> -> Md4Digest, cfg: Config, st: State, block: seq<byte>, done: seq<byte>, rest: seq<byte>)
    requires InStep(st, done, rest) && rest != [] && !StoredFirst(rest, HexOf(md4(block)))
    ensures var r := Step(md4, cfg, st, block); var hex := HexOf(md4(block));
      r == State(done + RecordOf(md4, block) + Skip(rest), |done| + RecordSize,
                 if cfg.rebuild then st.dest
                 else UpdatedBlock(st.dest, st.stats.bytesRead, block, cfg.sparse, hex == ZeroBlockHex(md4, cfg.blockSize), true),
                 Counted(st.stats, block, false), false)
  {
    var hex := HexOf(md4(block));
    var line := rest[..RecordSize];
    ReadInStep(done, rest);
    assert Step(md4, cfg, st, block) == RecordedStep(cfg, st, block, hex, hex == ZeroBlockHex(md4, cfg.blockSize), line);
    assert line[..32] == rest[..32];
    RecordOfIsFrame(md4, block);
    OverwriteFirst(done, rest, Record(hex));
  }

  /** NEW on a ledger in step: the block's record is appended. */
  lemma StepNew(md4: seq<byte> -> Md4Digest, cfg: Config, st: State, block: seq<byte>, done: seq<byte>, rest: seq<byte>)
    requires InStep(st, done, rest) && rest == []
    ensures var r := Step(md4, cfg, st, block); var hex := HexOf(md4(block));
      r == State(done + RecordOf(md4, block), |done| + RecordSize,
                 if cfg.rebuild then st.dest
                 else UpdatedBlock(st.dest, st.stats.bytesRead, block, cfg.sparse, hex == ZeroBlockHex(md4, cfg.blockSize), false),
                 Counted(st.stats, block, false), false)
  {
    assert st.ledger == done;
    assert done[..|done|] == done;
  }

  /**
   * One block on a ledger in step: the ledger stays in step, one record further on; the
   * counters count the block as changed exactly when its record did not match; and the
   * destination is rewritten at the bytes read so far when it did not (unless rebuilding).
   */
  lemma StepInStep(md4: seq<byte> -> Md4Digest, cfg: Config, st: State, block: seq<byte>, done: seq<byte>, rest: seq<byte>)
    requires InStep(st, done, rest)
    ensures var r := Step(md4, cfg, st, block); var hex := HexOf(md4(block)); var same := StoredFirst(rest, hex);
      InStep(r, done + RecordOf(md4, block), Skip(rest)) &&
      r.stats == Counted(st.stats, block, same) &&
      r.dest == (if cfg.rebuild || same then st.dest
                 else UpdatedBlock(st.dest, st.stats.bytesRead, block, cfg.sparse, hex == ZeroBlockHex(md4, cfg.blockSize), rest != []))
  {
    RecordOfIsFrame(md4, block);
    if StoredFirst(rest, HexOf(md4(block))) {
      StepSame(md4, cfg, st, block, done, rest);
    } else if rest != [] {
      StepDifferent(md4, cfg, st, block, done, rest);
    } else {
      StepNew(md4, cfg, st, block, done, rest);
    }
  }

  /** A run that has not failed handles the first block, then the rest. */
  lemma ProcessUnfold(md4: seq<byte> -> Md4Digest, cfg: Config, st: State, blocks: seq<seq<byte>>)
    requires blocks != [] && !st.failed
    ensures Process(md4, cfg, st, blocks) == Process(md4, cfg, Step(md4, cfg, st, blocks[0]), blocks[1..])
  {
    assert Process(md4, cfg, st, blocks) == Continue(md4, cfg, st, blocks);
  }

  /**
   * The first block of a loop in step, named by the state after it so that callers need
   * not unfold Step: the rest of the run starts there, in step one record further on.
   */
  lemma AdvanceInStep(md4: seq<byte> -> Md4Digest, cfg: Config, st: State, blocks: seq<seq<byte>>,
                      done: seq<byte>, rest: seq<byte>)
    returns (next: State)
    requires InStep(st, done, rest) && blocks != []
    ensures var hex := HexOf(md4(blocks[0])); var same := StoredFirst(rest, hex);
      Process(md4, cfg, st, blocks) == Process(md4, cfg, next, blocks[1..]) &&
      InStep(next, done + RecordOf(md4, blocks[0]), Skip(rest)) &&
      next.stats == Counted(st.stats, blocks[0], same) &&
      next.dest == (if cfg.rebuild || same then st.dest
                    else UpdatedBlock(st.dest, st.stats.bytesRead, blocks[0], cfg.sparse,
                                      hex == ZeroBlockHex(md4, cfg.blockSize), rest != []))
  {
    next := Step(md4, cfg, st, blocks[0]);
    ProcessUnfold(md4, cfg, st, blocks);
    StepInStep(md4, cfg, st, blocks[0], done, rest);
  }

  /** The records written so far, then those of the blocks: the first block's record, then the rest's. */
  lemma RecordsAfter(md4: seq<byte> -> Md4Digest, done: seq<byte>, blocks: seq<seq<byte>>)
    requires blocks != []
    ensures done + RecordOf(md4, blocks[0]) + RecordsOf(md4, blocks[1..]) == done + RecordsOf(md4, blocks)
  {
  }

  /**
   * The whole block loop on a ledger in step never fails: the cursor advances one record per
   * block and the ledger up to the cursor is the records of the blocks, in order.
   */
  lemma {:induction false} ProcessLedger(md4: seq<byte> -> Md4Digest, cfg: Config, st: State, blocks: seq<seq<byte>>,
                                         done: seq<byte>, rest: seq<byte>)
    requires InStep(st, done, rest)
    ensures var r := Process(md4, cfg, st, blocks);
      !r.failed && r.cursor == |done| + RecordSize * |blocks| && r.cursor <= |r.ledger| &&
      r.ledger[..r.cursor] == done + RecordsOf(md4, blocks)
    decreases |blocks|
  {
    if blocks == [] {
      assert st.ledger[..st.cursor] == done;
    } else {
      var next := AdvanceInStep(md4, cfg, st, blocks, done, rest);
      var done' := done + RecordOf(md4, blocks[0]);
      ProcessLedger(md4, cfg, next, blocks[1..], done', Skip(rest));
      RecordsAfter(md4, done, blocks);
    }
  }

  /**
   * The counters over the block loop on a ledger in step: the bytes read add up, and so do
   * the changed blocks and their bytes; with no changed block the destination is as it was.
   */
  lemma {:induction false} ProcessCounters(md4: seq<byte> -> Md4Digest, cfg: Config, st: State, blocks: seq<seq<byte>>,
                                           done: seq<byte>, rest: seq<byte>)
    requires InStep(st, done, rest)
    ensures var r := Process(md4, cfg, st, blocks);
      r.stats == Stats(st.stats.bytesRead + TotalLength(blocks),
                       st.stats.bytesWritten + ChangedBytes(md4, rest, blocks),
                       st.stats.blocksChanged + ChangedCount(md4, rest, blocks)) &&
      (ChangedCount(md4, rest, blocks) == 0 ==> r.dest == st.dest)
    decreases |blocks|
  {
    if blocks != [] {
      var next := AdvanceInStep(md4, cfg, st, blocks, done, rest);
      ProcessCounters(md4, cfg, next, blocks[1..], done + RecordOf(md4, blocks[0]), Skip(rest));
      var same := StoredFirst(rest, HexOf(md4(blocks[0])));
      assert TotalLength(blocks) == |blocks[0]| + TotalLength(blocks[1..]);
      assert ChangedCount(md4, rest, blocks) == (if same then 0 else 1) + ChangedCount(md4, Skip(rest), blocks[1..]);
      assert ChangedBytes(md4, rest, blocks) == (if same then 0 else |blocks[0]|) + ChangedBytes(md4, Skip(rest), blocks[1..]);
    }
  }

  /** A missing ledger is created empty, and an empty ledger is in step with nothing written. */
  lemma InitialInStep(ledger0: Option<seq<byte>>, dest: seq<byte>)
    requires ledger0.None? || Framed(ledger0.value)
    ensures InStep(InitialState(ledger0.GetOr([]), dest), [], ledger0.GetOr([]))
    ensures ledger0.Some? ==> |ledger0.value| % RecordSize == 0
  {
    if ledger0.Some? {
      FramedLength(ledger0.value);
    }
    assert [] + ledger0.GetOr([]) == ledger0.GetOr([]);
  }

  /**
   * A run over a missing ledger or one made of whole records succeeds, and leaves the ledger
   * holding exactly the records of the source's blocks in order, 33 bytes per block: stale
   * records past the last block are cut off.
   */
  lemma LedgerAfterRun(md4: seq<byte> -> Md4Digest, cfg: Config, src: seq<byte>,
                       dest0: Option<seq<byte>>, ledger0: Option<seq<byte>>)
    requires ledger0.None? || Framed(ledger0.value)
    ensures var r := Run(md4, cfg, Some(src), dest0, ledger0); var blocks := Blocks(src, cfg.blockSize);
      r.status == Synced && r.ledger == Some(RecordsOf(md4, blocks)) &&
      |r.ledger.value| == RecordSize * |blocks|
  {
    var openedDest := if cfg.rebuild then dest0 else Some(dest0.GetOr([]));
    var st0 := InitialState(ledger0.GetOr([]), openedDest.GetOr([]));
    InitialInStep(ledger0, openedDest.GetOr([]));
    var blocks := Blocks(src, cfg.blockSize);
    ProcessLedger(md4, cfg, st0, blocks, [], ledger0.GetOr([]));
    var final := Process(md4, cfg, st0, blocks);
    assert Truncated(final.ledger, final.cursor) == final.ledger[..final.cursor];
    assert [] + RecordsOf(md4, blocks) == RecordsOf(md4, blocks);
  }

  /**
   * The counters of such a run: every byte of the source read (when the block size is not
   * zero), and as blocks changed and bytes written exactly the blocks whose record the old
   * ledger did not hold, sparse holes and rebuild mode included.
   */
  lemma RunCounters(md4: seq<byte> -> Md4Digest, cfg: Config, src: seq<byte>,
                    dest0: Option<seq<byte>>, ledger0: Option<seq<byte>>)
    requires ledger0.None? || Framed(ledger0.value)
    ensures var r := Run(md4, cfg, Some(src), dest0, ledger0); var blocks := Blocks(src, cfg.blockSize);
      r.stats.bytesRead == TotalLength(blocks) &&
      (cfg.blockSize > 0 ==> r.stats.bytesRead == |src|) &&
      r.stats.blocksChanged == ChangedCount(md4, ledger0.GetOr([]), blocks) &&
      r.stats.bytesWritten == ChangedBytes(md4, ledger0.GetOr([]), blocks)
  {
    var openedDest := if cfg.rebuild then dest0 else Some(dest0.GetOr([]));
    var st0 := InitialState(ledger0.GetOr([]), openedDest.GetOr([]));
    InitialInStep(ledger0, openedDest.GetOr([]));
    ProcessCounters(md4, cfg, st0, Blocks(src, cfg.blockSize), [], ledger0.GetOr([]));
    if cfg.blockSize > 0 {
      BlocksConcat(src, cfg.blockSize);
    }
  }

  /** A ledger of records of digest texts is made of whole records. */
  lemma {:induction false} RecordsFramed(md4: seq<byte> -> Md4Digest, blocks: seq<seq<byte>>)
    ensures Framed(RecordsOf(md4, blocks))
    decreases |blocks|
  {
    if blocks != [] {
      RecordsFramed(md4, blocks[1..]);
      RecordOfIsFrame(md4, blocks[0]);
      var r := RecordsOf(md4, blocks);
      assert r[..RecordSize] == RecordOf(md4, blocks[0]);
      assert r[RecordSize..] == RecordsOf(md4, blocks[1..]);
    }
  }

  /** Against the ledger of their own records, no block is changed. */
  lemma {:induction false} OwnRecordsUnchanged(md4: seq<byte> -> Md4Digest, blocks: seq<seq<byte>>)
    ensures ChangedCount(md4, RecordsOf(md4, blocks), blocks) == 0
    ensures ChangedBytes(md4, RecordsOf(md4, blocks), blocks) == 0
    decreases |blocks|
  {
    if blocks != [] {
      var r := RecordsOf(md4, blocks);
      RecordOfIsFrame(md4, blocks[0]);
      assert r[..32] == HexOf(md4(blocks[0]));
      assert Skip(r) == RecordsOf(md4, blocks[1..]);
      OwnRecordsUnchanged(md4, blocks[1..]);
    }
  }

  /**
   * The destination after the reconciliation (not rebuilding, loop not failed): with
   * truncation it is exactly as long as the bytes read, the trailer written in sparse mode
   * being cut off again; without truncation, sparse mode leaves the trailer at that offset and
   * otherwise the loop's destination stays as it is; the bytes before the offset are never
   * changed.
   */
  lemma OutcomeShape(cfg: Config, dest0: Option<seq<byte>>, st: State)
    requires !st.failed && !cfg.rebuild
    ensures var r := Outcome(cfg, dest0, st); var last := st.stats.bytesRead;
      r.status == Synced && r.dest.Some? &&
      (cfg.truncate ==> |r.dest.value| == last) &&
      (cfg.sparse && !cfg.truncate ==> |r.dest.value| > last && r.dest.value[last] == Trailer) &&
      (!cfg.sparse && !cfg.truncate ==> r.dest.value == st.dest) &&
      (forall p :: 0 <= p < last ==> At(r.dest.value, p) == At(st.dest, p))
  {
    var last := st.stats.bytesRead;
    WriteAtReads(st.dest, last, [Trailer]);
    var w := if cfg.sparse then WriteAt(st.dest, last, [Trailer]) else st.dest;
    TruncatedReads(w, last);
    assert forall p :: 0 <= p < last ==> At(w, p) == At(st.dest, p);
  }

  /** Reconciling twice at the same offset is reconciling once. */
  lemma ReconciledTwice(cfg: Config, dest: seq<byte>, last: nat)
    ensures Reconciled(cfg, Reconciled(cfg, dest, last), last) == Reconciled(cfg, dest, last)
  {
    var once := Reconciled(cfg, dest, last);
    if cfg.sparse && cfg.truncate {
      var t := WriteAt(once, last, [Trailer]);
      assert t[..last] == once;
    } else if cfg.sparse {
      WriteAtTwice(dest, last, [Trailer]);
    } else if cfg.truncate {
      TruncatedToOwnLength(once);
    }
  }

  /**
   * Running again over an unchanged source, with the destination and the ledger the first
   * run left, changes no block and writes no byte: the destination and the ledger stay as
   * they are.
   */
  lemma SecondRunChangesNothing(md4: seq<byte> -> Md4Digest, cfg: Config, src: seq<byte>,
                                dest0: Option<seq<byte>>, ledger0: Option<seq<byte>>)
    requires ledger0.None? || Framed(ledger0.value)
    ensures var r1 := Run(md4, cfg, Some(src), dest0, ledger0);
      var r2 := Run(md4, cfg, Some(src), r1.dest, r1.ledger);
      r2.status == Synced && r2.stats.blocksChanged == 0 && r2.stats.bytesWritten == 0 &&
      r2.stats.bytesRead == r1.stats.bytesRead && r2.dest == r1.dest && r2.ledger == r1.ledger
  {
    var blocks := Blocks(src, cfg.blockSize);
    var r1 := Run(md4, cfg, Some(src), dest0, ledger0);
    LedgerAfterRun(md4, cfg, src, dest0, ledger0);
    RunCounters(md4, cfg, src, dest0, ledger0);
    var l1 := RecordsOf(md4, blocks);
    RecordsFramed(md4, blocks);
    LedgerAfterRun(md4, cfg, src, r1.dest, Some(l1));
    RunCounters(md4, cfg, src, r1.dest, Some(l1));
    OwnRecordsUnchanged(md4, blocks);
    if !cfg.rebuild {
      var open1 := dest0.GetOr([]);
      var st1 := InitialState(ledger0.GetOr([]), open1);
      InitialInStep(ledger0, open1);
      ProcessLedger(md4, cfg, st1, blocks, [], ledger0.GetOr([]));
      ProcessCounters(md4, cfg, st1, blocks, [], ledger0.GetOr([]));
      var final1 := Process(md4, cfg, st1, blocks);
      var d1 := r1.dest.value;
      var st2 := InitialState(l1, d1);
      InitialInStep(Some(l1), d1);
      ProcessLedger(md4, cfg, st2, blocks, [], l1);
      ProcessCounters(md4, cfg, st2, blocks, [], l1);
      var final2 := Process(md4, cfg, st2, blocks);
      ReconciledTwice(cfg, final1.dest, final1.stats.bytesRead);
    }
  }

  /** A missing ledger behaves as an empty one. */
  lemma MissingLedgerIsEmpty(md4: seq<byte> -> Md4Digest, cfg: Config, src: seq<byte>, dest0: Option<seq<byte>>)
    ensures Run(md4, cfg, Some(src), dest0, None) == Run(md4, cfg, Some(src), dest0, Some([]))
  {
  }

  /**
   * With a block size of 0 the first read returns nothing: the ledger is emptied, the
   * destination is emptied only with truncation on, keeps its bytes with truncation off
   * (but for the 'Z' sparse mode writes at offset 0), and a rebuild leaves it unopened.
   */
  lemma ZeroBlockSizeRun(md4: seq<byte> -> Md4Digest, cfg: Config, src: seq<byte>,
                         dest0: Option<seq<byte>>, ledger0: Option<seq<byte>>)
    requires cfg.blockSize == 0
    requires ledger0.None? || |ledger0.value| % RecordSize == 0
    ensures var r := Run(md4, cfg, Some(src), dest0, ledger0);
      r.status == Synced && r.ledger == Some([]) && r.stats == NoStats &&
      (cfg.rebuild ==> r.dest == dest0) &&
      (!cfg.rebuild && cfg.truncate ==> r.dest == Some([])) &&
      (!cfg.rebuild && !cfg.truncate && !cfg.sparse ==> r.dest == Some(dest0.GetOr([]))) &&
      (!cfg.rebuild && !cfg.truncate && cfg.sparse ==> r.dest == Some(WriteAt(dest0.GetOr([]), 0, [Trailer])))
  {
    assert Blocks(src, cfg.blockSize) == [];
  }

  /**
   * The destination shows `shown` from its start and the original destination `d0` after
   * it (past the end of a file every byte reads as zero).
   */
  ghost predicate Reproduced(d: seq<byte>, shown: seq<byte>, d0: seq<byte>)
  {
    forall q: nat :: At(d, q) == if q < |shown| then shown[q] else At(d0, q)
  }

  /**
   * The one assumption a content guarantee needs about a block at `pos`: when the run will
   * leave the destination block alone (its record is stored, or it is a zero block left as
   * a hole in sparse mode), the original destination already holds the block there.
   */
  ghost predicate BlockTrusted(md4: seq<byte> -> Md4Digest, cfg: Config, rest: seq<byte>, d0: seq<byte>, pos: nat, b: seq<byte>)
  {
    var hex := HexOf(md4(b));
    (StoredFirst(rest, hex) || (cfg.sparse && rest == [] && hex == ZeroBlockHex(md4, cfg.blockSize))) ==>
      forall i :: 0 <= i < |b| ==> At(d0, pos + i) == b[i]
  }

  /** Every block from `pos` on is trusted against the ledger records still unread at it. */
  ghost predicate Trusted(md4: seq<byte> -> Md4Digest, cfg: Config, rest: seq<byte>, d0: seq<byte>, pos: nat,
                          blocks: seq<seq<byte>>)
    decreases |blocks|
  {
    blocks == [] ||
    (BlockTrusted(md4, cfg, rest, d0, pos, blocks[0]) &&
     Trusted(md4, cfg, Skip(rest), d0, pos + |blocks[0]|, blocks[1..]))
  }

  /** One trusted block: whether written, skipped as SAME or left as a hole, the destination shows it. */
  lemma StepDest(md4: seq<byte> -> Md4Digest, cfg: Config, dest: seq<byte>, shown: seq<byte>, d0: seq<byte>,
                 rest: seq<byte>, b: seq<byte>)
    requires Reproduced(dest, shown, d0) && BlockTrusted(md4, cfg, rest, d0, |shown|, b)
    ensures var hex := HexOf(md4(b)); var same := StoredFirst(rest, hex);
      Reproduced(if same then dest
                 else UpdatedBlock(dest, |shown|, b, cfg.sparse, hex == ZeroBlockHex(md4, cfg.blockSize), rest != []),
                 shown + b, d0)
  {
    var hex := HexOf(md4(b));
    var isZero := hex == ZeroBlockHex(md4, cfg.blockSize);
    var pos := |shown|;
    var after := shown + b;
    if StoredFirst(rest, hex) || !ShouldWriteBlock(cfg.sparse, isZero, rest != []) {
      UpdatedBlockReads(dest, pos, b, cfg.sparse, isZero, rest != []);
      forall q: nat ensures At(dest, q) == if q < |after| then after[q] else At(d0, q) {
        if pos <= q < |after| {
          assert At(d0, pos + (q - pos)) == b[q - pos];
        }
      }
    } else {
      var d := UpdatedBlock(dest, pos, b, cfg.sparse, isZero, rest != []);
      UpdatedBlockReads(dest, pos, b, cfg.sparse, isZero, rest != []);
      forall q: nat ensures At(d, q) == if q < |after| then after[q] else At(d0, q) {
        assert At(dest, q) == if q < |shown| then shown[q] else At(d0, q);
      }
    }
  }

  /** The destination after a trusted block, as AdvanceInStep gives it, shows the block. */
  lemma NextDest(md4: seq<byte> -> Md4Digest, cfg: Config, st: State, next: State, shown: seq<byte>, d0: seq<byte>,
                 rest: seq<byte>, b: seq<byte>)
    requires !cfg.rebuild && st.stats.bytesRead == |shown|
    requires Reproduced(st.dest, shown, d0) && BlockTrusted(md4, cfg, rest, d0, |shown|, b)
    requires var hex := HexOf(md4(b)); var same := StoredFirst(rest, hex);
      next.dest == (if cfg.rebuild || same then st.dest
                    else UpdatedBlock(st.dest, st.stats.bytesRead, b, cfg.sparse,
                                      hex == ZeroBlockHex(md4, cfg.blockSize), rest != []))
    ensures Reproduced(next.dest, shown + b, d0)
  {
    StepDest(md4, cfg, st.dest, shown, d0, rest, b);
  }

  /** A trusted first block and trusted others one record further on: trusted blocks. */
  lemma TrustedCons(md4: seq<byte> -> Md4Digest, cfg: Config, rest: seq<byte>, d0: seq<byte>, pos: nat,
                    blocks: seq<seq<byte>>)
    requires blocks != [] && BlockTrusted(md4, cfg, rest, d0, pos, blocks[0])
    requires blocks[1..] == [] || Trusted(md4, cfg, Skip(rest), d0, pos + |blocks[0]|, blocks[1..])
    ensures Trusted(md4, cfg, rest, d0, pos, blocks)
  {
  }

  /** Trusted blocks: the first one, then the others one record further on. */
  lemma TrustedFirst(md4: seq<byte> -> Md4Digest, cfg: Config, rest: seq<byte>, d0: seq<byte>, shown: seq<byte>,
                     blocks: seq<seq<byte>>)
    requires blocks != [] && Trusted(md4, cfg, rest, d0, |shown|, blocks)
    ensures BlockTrusted(md4, cfg, rest, d0, |shown|, blocks[0])
    ensures Trusted(md4, cfg, Skip(rest), d0, |shown + blocks[0]|, blocks[1..])
  {
  }

  /** The shown bytes, then the first block, then the other blocks: the shown bytes and all blocks. */
  lemma ConcatAfter(shown: seq<byte>, blocks: seq<seq<byte>>)
    requires blocks != []
    ensures shown + blocks[0] + Concat(blocks[1..]) == shown + Concat(blocks)
  {
  }

  /** The loop over trusted blocks shows them in the destination one after the other. */
  lemma {:induction false} ProcessDest(md4: seq<byte> -> Md4Digest, cfg: Config, st: State, blocks: seq<seq<byte>>,
                                       done: seq<byte>, rest: seq<byte>, shown: seq<byte>, d0: seq<byte>)
    requires InStep(st, done, rest) && !cfg.rebuild
    requires st.stats.bytesRead == |shown| && Reproduced(st.dest, shown, d0)
    requires Trusted(md4, cfg, rest, d0, |shown|, blocks)
    ensures Reproduced(Process(md4, cfg, st, blocks).dest, shown + Concat(blocks), d0)
    decreases |blocks|
  {
    if blocks == [] {
      assert shown + Concat(blocks) == shown;
    } else {
      var next := AdvanceInStep(md4, cfg, st, blocks, done, rest);
      TrustedFirst(md4, cfg, rest, d0, shown, blocks);
      NextDest(md4, cfg, st, next, shown, d0, rest, blocks[0]);
      ProcessDest(md4, cfg, next, blocks[1..], done + RecordOf(md4, blocks[0]), Skip(rest), shown + blocks[0], d0);
      ConcatAfter(shown, blocks);
    }
  }

  /**
   * The reconciliation at the end of the shown bytes: they stay; with truncation the
   * destination is exactly them; in sparse mode without truncation the trailer follows
   * them; otherwise the old destination's bytes past them stay.
   */
  lemma ReconciledReads(cfg: Config, d: seq<byte>, shown: seq<byte>, d0: seq<byte>)
    requires Reproduced(d, shown, d0)
    ensures var e := Reconciled(cfg, d, |shown|);
      (forall p :: 0 <= p < |shown| ==> At(e, p) == shown[p]) &&
      (cfg.truncate ==> e == shown) &&
      (cfg.sparse && !cfg.truncate ==> At(e, |shown|) == Trailer) &&
      (!cfg.sparse && !cfg.truncate ==> forall p: nat :: |shown| <= p ==> At(e, p) == At(d0, p))
  {
    var n := |shown|;
    var w := if cfg.sparse then WriteAt(d, n, [Trailer]) else d;
    WriteAtReads(d, n, [Trailer]);
    assert forall p: nat :: p < n ==> At(w, p) == shown[p];
    if cfg.truncate {
      var t := Truncated(w, n);
      TruncatedReads(w, n);
      SameReads(t, shown);
    }
  }

  /**
   * A run whose ledger can be trusted for the destination (every block it leaves alone is
   * already there) makes the destination show the source from its first byte to its last;
   * with truncation the destination is the source.
   */
  lemma TrustedRunCopiesSource(md4: seq<byte> -> Md4Digest, cfg: Config, src: seq<byte>,
                               dest0: Option<seq<byte>>, ledger0: Option<seq<byte>>)
    requires !cfg.rebuild && cfg.blockSize > 0
    requires ledger0.None? || Framed(ledger0.value)
    requires Trusted(md4, cfg, ledger0.GetOr([]), dest0.GetOr([]), 0, Blocks(src, cfg.blockSize))
    ensures var r := Run(md4, cfg, Some(src), dest0, ledger0);
      r.status == Synced && r.dest.Some? &&
      (forall p :: 0 <= p < |src| ==> At(r.dest.value, p) == src[p]) &&
      (cfg.truncate ==> r.dest == Some(src)) &&
      (cfg.sparse && !cfg.truncate ==> At(r.dest.value, |src|) == Trailer) &&
      (!cfg.sparse && !cfg.truncate ==> forall p: nat :: |src| <= p ==> At(r.dest.value, p) == At(dest0.GetOr([]), p))
  {
    var d0 := dest0.GetOr([]);
    var l0 := ledger0.GetOr([]);
    var st0 := InitialState(l0, d0);
    var blocks := Blocks(src, cfg.blockSize);
    InitialInStep(ledger0, d0);
    assert Reproduced(d0, [], d0);
    ProcessLedger(md4, cfg, st0, blocks, [], l0);
    ProcessCounters(md4, cfg, st0, blocks, [], l0);
    ProcessDest(md4, cfg, st0, blocks, [], l0, [], d0);
    BlocksConcat(src, cfg.blockSize);
    assert [] + Concat(blocks) == src;
    OutcomeCopies(cfg, dest0, Process(md4, cfg, st0, blocks), src, d0);
  }

  /** The outcome of a loop that has shown the source in the destination. */
  lemma OutcomeCopies(cfg: Config, dest0: Option<seq<byte>>, final: State, src: seq<byte>, d0: seq<byte>)
    requires !cfg.rebuild && !final.failed && final.stats.bytesRead == |src| && Reproduced(final.dest, src, d0)
    ensures var r := Outcome(cfg, dest0, final);
      r.status == Synced && r.dest.Some? &&
      (forall p :: 0 <= p < |src| ==> At(r.dest.value, p) == src[p]) &&
      (cfg.truncate ==> r.dest == Some(src)) &&
      (cfg.sparse && !cfg.truncate ==> At(r.dest.value, |src|) == Trailer) &&
      (!cfg.sparse && !cfg.truncate ==> forall p: nat :: |src| <= p ==> At(r.dest.value, p) == At(d0, p))
  {
    ReconciledReads(cfg, final.dest, src, d0);
  }

  /**
   * md4 tells the given blocks apart: no block shares its digest with a later, different
   * one. This is what comparing digests in place of blocks relies on; it is asked of the
   * blocks of a run only, since no function from all byte sequences to 16 bytes has it.
   */
  ghost predicate CollisionFree(md4: seq<byte> -> Md4Digest, pool: seq<seq<byte>>)
    decreases |pool|
  {
    pool == [] ||
    ((forall i :: 0 < i < |pool| && md4(pool[i]) == md4(pool[0]) ==> pool[i] == pool[0]) &&
     CollisionFree(md4, pool[1..]))
  }

  /** Two collision-free blocks with one digest are one block. */
  lemma {:induction false} CollisionFreeApart(md4: seq<byte> -> Md4Digest, pool: seq<seq<byte>>, a: seq<byte>, b: seq<byte>)
    requires CollisionFree(md4, pool) && a in pool && b in pool && md4(a) == md4(b)
    ensures a == b
    decreases |pool|
  {
    if a != pool[0] && b != pool[0] {
      assert a in pool[1..] && b in pool[1..];
      CollisionFreeApart(md4, pool[1..], a, b);
    }
  }

  /** Collision-free means exactly that no two different blocks of the pool share a digest. */
  lemma {:induction false} CollisionFreePairwise(md4: seq<byte> -> Md4Digest, pool: seq<seq<byte>>)
    ensures CollisionFree(md4, pool) <==> forall a, b :: a in pool && b in pool && md4(a) == md4(b) ==> a == b
    decreases |pool|
  {
    if CollisionFree(md4, pool) {
      forall a, b | a in pool && b in pool && md4(a) == md4(b) ensures a == b {
        CollisionFreeApart(md4, pool, a, b);
      }
    }
    if pool != [] && forall a, b :: a in pool && b in pool && md4(a) == md4(b) ==> a == b {
      CollisionFreePairwise(md4, pool[1..]);
      assert forall i :: 0 < i < |pool| ==> pool[i] in pool;
    }
  }

  /** Between collision-free blocks, equal digest texts mean equal blocks. */
  lemma SameTextSameBlock(md4: seq<byte> -> Md4Digest, pool: seq<seq<byte>>, a: seq<byte>, b: seq<byte>)
    requires CollisionFree(md4, pool) && a in pool && b in pool && HexOf(md4(a)) == HexOf(md4(b))
    ensures a == b
  {
    HexInjective(md4(a), md4(b));
    CollisionFreeApart(md4, pool, a, b);
  }

  /**
   * Against an empty ledger every block is new, so only the sparse holes rely on the
   * destination, and a destination reading as zeros holds a block with the zero-block digest
   * when that digest is collision-free.
   */
  lemma {:induction false} FreshTrusted(md4: seq<byte> -> Md4Digest, cfg: Config, d0: seq<byte>, pos: nat,
                                        blocks: seq<seq<byte>>, pool: seq<seq<byte>>)
    requires cfg.sparse ==>
      CollisionFree(md4, pool) && Zeros(cfg.blockSize) in pool && (forall b :: b in blocks ==> b in pool) &&
      (forall p: nat :: At(d0, p) == 0)
    ensures Trusted(md4, cfg, [], d0, pos, blocks)
    decreases |blocks|
  {
    if blocks != [] {
      var b := blocks[0];
      if cfg.sparse && HexOf(md4(b)) == ZeroBlockHex(md4, cfg.blockSize) {
        SameTextSameBlock(md4, pool, b, Zeros(cfg.blockSize));
        forall i | 0 <= i < |b| ensures At(d0, pos + i) == b[i] {
          assert b[i] == 0;
        }
      }
      assert BlockTrusted(md4, cfg, [], d0, pos, b);
      FreshTrusted(md4, cfg, d0, pos + |b|, blocks[1..], pool);
    }
  }

  /**
   * The first run, without a ledger: the destination ends up showing the source, and is the
   * source when truncating. A sparse run leaves holes for the zero blocks, so it needs a
   * destination that reads as zeros (a missing or empty one does) and digests that tell the
   * zero block from the source's blocks.
   */
  lemma FirstSyncCopiesSource(md4: seq<byte> -> Md4Digest, cfg: Config, src: seq<byte>, dest0: Option<seq<byte>>)
    requires !cfg.rebuild && cfg.blockSize > 0
    requires cfg.sparse ==>
      CollisionFree(md4, Blocks(src, cfg.blockSize) + [Zeros(cfg.blockSize)]) &&
      (forall p: nat :: At(dest0.GetOr([]), p) == 0)
    ensures var r := Run(md4, cfg, Some(src), dest0, None);
      r.status == Synced && r.dest.Some? &&
      (forall p :: 0 <= p < |src| ==> At(r.dest.value, p) == src[p]) &&
      (cfg.truncate ==> r.dest == Some(src))
  {
    var blocks := Blocks(src, cfg.blockSize);
    FreshTrusted(md4, cfg, dest0.GetOr([]), 0, blocks, blocks + [Zeros(cfg.blockSize)]);
    TrustedRunCopiesSource(md4, cfg, src, dest0, None);
  }

  /** Every one of the blocks is in the pool. */
  ghost predicate Within(blocks: seq<seq<byte>>, pool: seq<seq<byte>>)
    decreases |blocks|
  {
    blocks == [] || (blocks[0] in pool && Within(blocks[1..], pool))
  }

  /** Blocks all of which are in the pool are within it. */
  lemma {:induction false} AllWithin(blocks: seq<seq<byte>>, pool: seq<seq<byte>>)
    requires forall b :: b in blocks ==> b in pool
    ensures Within(blocks, pool)
    decreases |blocks|
  {
    if blocks != [] {
      assert blocks[0] in blocks;
      assert forall b :: b in blocks[1..] ==> b in blocks;
      AllWithin(blocks[1..], pool);
    }
  }

  /** The blocks from one block further on are within the pool when the blocks from here are. */
  lemma WithinLater(s: seq<byte>, bs: nat, pos: nat, pool: seq<seq<byte>>)
    requires bs > 0 && Within(BlocksFrom(s, bs, pos), pool)
    ensures Within(BlocksFrom(s, bs, pos + bs), pool)
  {
    if pos < |s| {
      var m := Min(bs, |s| - pos);
      assert BlocksFrom(s, bs, pos)[1..] == BlocksFrom(s, bs, pos + m);
      if m < bs {
        assert BlocksFrom(s, bs, pos + bs) == [];
      }
    } else {
      assert BlocksFrom(s, bs, pos + bs) == [];
    }
  }

  /** The records after the first one of a previous source's ledger: those of its blocks one block further on. */
  lemma SkipRecords(md4: seq<byte> -> Md4Digest, s: seq<byte>, bs: nat, pos: nat)
    requires bs > 0
    ensures Skip(RecordsOf(md4, BlocksFrom(s, bs, pos))) == RecordsOf(md4, BlocksFrom(s, bs, pos + bs))
  {
    if pos < |s| {
      var m := Min(bs, |s| - pos);
      var olds := BlocksFrom(s, bs, pos);
      assert olds[1..] == BlocksFrom(s, bs, pos + m);
      RecordOfIsFrame(md4, olds[0]);
      var r := RecordsOf(md4, olds);
      assert r[RecordSize..] == RecordsOf(md4, olds[1..]);
      if m < bs {
        assert BlocksFrom(s, bs, pos + bs) == [];
      }
    }
  }

  /** A block of the new source at `pos` is trusted against the previous destination and its ledger. */
  lemma ResyncBlockTrusted(md4: seq<byte> -> Md4Digest, cfg: Config, prev: seq<byte>, pos: nat, b: seq<byte>,
                           pool: seq<seq<byte>>)
    requires cfg.blockSize > 0 && CollisionFree(md4, pool) && Zeros(cfg.blockSize) in pool && b in pool
    requires Within(BlocksFrom(prev, cfg.blockSize, pos), pool)
    ensures BlockTrusted(md4, cfg, RecordsOf(md4, BlocksFrom(prev, cfg.blockSize, pos)), prev, pos, b)
  {
    var bs := cfg.blockSize;
    var olds := BlocksFrom(prev, bs, pos);
    var rest := RecordsOf(md4, olds);
    var hex := HexOf(md4(b));
    if pos < |prev| {
      var m := Min(bs, |prev| - pos);
      var ob := olds[0];
      assert ob == prev[pos..pos + m];
      RecordOfIsFrame(md4, ob);
      assert rest[..32] == HexOf(md4(ob));
      if StoredFirst(rest, hex) {
        SameTextSameBlock(md4, pool, ob, b);
        forall i | 0 <= i < |b| ensures At(prev, pos + i) == b[i] {
          assert ob[i] == prev[pos + i];
        }
      }
    } else if cfg.sparse && hex == ZeroBlockHex(md4, bs) {
      SameTextSameBlock(md4, pool, b, Zeros(bs));
      forall i | 0 <= i < |b| ensures At(prev, pos + i) == b[i] {
        assert b[i] == 0;
      }
    }
  }

  /**
   * Resynchronising a destination that holds the previous source, with the ledger of the previous
   * source's blocks: every block of the new source is trusted, as long as md4 tells all the
   * blocks involved and the zero block apart.
   */
  lemma {:induction false} ResyncTrusted(md4: seq<byte> -> Md4Digest, cfg: Config, prev: seq<byte>, src: seq<byte>,
                                         pos: nat, pool: seq<seq<byte>>)
    requires cfg.blockSize > 0 && CollisionFree(md4, pool) && Zeros(cfg.blockSize) in pool
    requires Within(BlocksFrom(prev, cfg.blockSize, pos), pool) && Within(BlocksFrom(src, cfg.blockSize, pos), pool)
    ensures Trusted(md4, cfg, RecordsOf(md4, BlocksFrom(prev, cfg.blockSize, pos)), prev, pos, BlocksFrom(src, cfg.blockSize, pos))
    decreases |src| - pos
  {
    var bs := cfg.blockSize;
    if pos < |src| {
      var n := Min(bs, |src| - pos);
      var blocks := BlocksFrom(src, bs, pos);
      var rest := RecordsOf(md4, BlocksFrom(prev, bs, pos));
      ReadTakesNextBlock(src, pos, bs, n);
      assert blocks[1..] == BlocksFrom(src, bs, pos + n);
      ResyncBlockTrusted(md4, cfg, prev, pos, blocks[0], pool);
      SkipRecords(md4, prev, bs, pos);
      if n == bs {
        WithinLater(prev, bs, pos, pool);
        WithinLater(src, bs, pos, pool);
        ResyncTrusted(md4, cfg, prev, src, pos + bs, pool);
      }
      TrustedCons(md4, cfg, rest, prev, pos, blocks);
    }
  }

  /**
   * A later run, over a destination that holds the previous source and the ledger of the previous
   * source's blocks: the destination ends up showing the new source, and is the new source
   * when truncating.
   */
  lemma ResyncCopiesSource(md4: seq<byte> -> Md4Digest, cfg: Config, prev: seq<byte>, src: seq<byte>)
    requires !cfg.rebuild && cfg.blockSize > 0
    requires CollisionFree(md4, Blocks(prev, cfg.blockSize) + Blocks(src, cfg.blockSize) + [Zeros(cfg.blockSize)])
    ensures var r := Run(md4, cfg, Some(src), Some(prev), Some(RecordsOf(md4, Blocks(prev, cfg.blockSize))));
      r.status == Synced && r.dest.Some? &&
      (forall p :: 0 <= p < |src| ==> At(r.dest.value, p) == src[p]) &&
      (cfg.truncate ==> r.dest == Some(src))
  {
    var bs := cfg.blockSize;
    var pool := Blocks(prev, bs) + Blocks(src, bs) + [Zeros(bs)];
    RecordsFramed(md4, Blocks(prev, bs));
    AllWithin(Blocks(prev, bs), pool);
    AllWithin(Blocks(src, bs), pool);
    assert Zeros(bs) == pool[|pool| - 1];
    ResyncTrusted(md4, cfg, prev, src, 0, pool);
    TrustedRunCopiesSource(md4, cfg, src, Some(prev), Some(RecordsOf(md4, Blocks(prev, bs))));
  }

  /** Blocks taken from a collision-free pool are collision-free. */
  lemma CollisionFreeWithin(md4: seq<byte> -> Md4Digest, sub: seq<seq<byte>>, pool: seq<seq<byte>>)
    requires CollisionFree(md4, pool) && forall b :: b in sub ==> b in pool
    ensures CollisionFree(md4, sub)
  {
    CollisionFreePairwise(md4, pool);
    CollisionFreePairwise(md4, sub);
  }

  /**
   * Two runs in a row with truncation, the first from nothing over a previous source and the
   * second over the files the first left and the new source: the first leaves a copy of the
   * previous source, the second a copy of the new one, and the ledger then holds the new
   * source's records.
   */
  lemma SuccessiveSyncsTrackSource(md4: seq<byte> -> Md4Digest, cfg: Config, prev: seq<byte>, src: seq<byte>)
    requires !cfg.rebuild && cfg.truncate && cfg.blockSize > 0
    requires CollisionFree(md4, Blocks(prev, cfg.blockSize) + Blocks(src, cfg.blockSize) + [Zeros(cfg.blockSize)])
    ensures var r1 := Run(md4, cfg, Some(prev), None, None);
      var r2 := Run(md4, cfg, Some(src), r1.dest, r1.ledger);
      r1.dest == Some(prev) && r2.status == Synced && r2.dest == Some(src) &&
      r2.ledger == Some(RecordsOf(md4, Blocks(src, cfg.blockSize)))
  {
    var bs := cfg.blockSize;
    var pool := Blocks(prev, bs) + Blocks(src, bs) + [Zeros(bs)];
    CollisionFreeWithin(md4, Blocks(prev, bs) + [Zeros(bs)], pool);
    FirstSyncCopiesSource(md4, cfg, prev, None);
    LedgerAfterRun(md4, cfg, prev, None, None);
    ResyncCopiesSource(md4, cfg, prev, src);
    RecordsFramed(md4, Blocks(prev, bs));
    LedgerAfterRun(md4, cfg, src, Some(prev), Some(RecordsOf(md4, Blocks(prev, bs))));
  }

  /**
   * The size check is all the validation a ledger gets: a 33-byte ledger whose first byte is
   * a newline passes it, fgets then reads a one-byte line that cannot match, and seeking 33
   * bytes back from byte 1 fails. The first block has already been written to the
   * destination by then, while the ledger and the change counters are untouched.
   */
  lemma MisframedLedgerFailsSeek(md4: seq<byte> -> Md4Digest, cfg: Config, src: seq<byte>, dest0: Option<seq<byte>>)
    requires cfg.blockSize > 0 && src != []
    ensures var ledger := [Newline] + Zeros(32);
      var r := Run(md4, cfg, Some(src), dest0, Some(ledger));
      var b := Blocks(src, cfg.blockSize)[0];
      var hex := HexOf(md4(b));
      |ledger| % RecordSize == 0 && r.status == LedgerSeekFailed && r.ledger == Some(ledger) &&
      r.stats == Stats(|b|, 0, 0) &&
      (!cfg.rebuild ==>
        r.dest == Some(UpdatedBlock(dest0.GetOr([]), 0, b, cfg.sparse, hex == ZeroBlockHex(md4, cfg.blockSize), true)))
  {
    var ledger := [Newline] + Zeros(32);
    var d := dest0.GetOr([]);
    var st0 := InitialState(ledger, d);
    var blocks := Blocks(src, cfg.blockSize);
    BlocksCount(src, cfg.blockSize);
    assert LineLength(ledger, 0, RecordSize) == 1;
    assert ReadLine(ledger, 0) == Some([Newline]);
    var next := Step(md4, cfg, st0, blocks[0]);
    assert next.failed;
    ProcessUnfold(md4, cfg, st0, blocks);
    ProcessFailed(md4, cfg, next, blocks[1..]);
  }

  /** The options of the runs below: blocks of `bs` bytes, sparse, no truncation. */
  function GrowthConfig(bs: nat): Config { Config(bs, true, false, false) }

  /** A block `b` is one block of its own size, and `b` followed by as many zeros is two. */
  lemma GrowthBlocks(b: seq<byte>)
    requires |b| > 0
    ensures Blocks(b, |b|) == [b] && Blocks(b + Zeros(|b|), |b|) == [b, Zeros(|b|)]
  {
    var bs, s2 := |b|, b + Zeros(|b|);
    ReadTakesNextBlock(b, 0, bs, bs);
    ReadTakesNextBlock(b, bs, bs, 0);
    assert b[0..bs] == b;
    ReadTakesNextBlock(s2, 0, bs, bs);
    ReadTakesNextBlock(s2, bs, bs, bs);
    ReadTakesNextBlock(s2, 2 * bs, bs, 0);
    assert s2[0..bs] == b && s2[bs..2 * bs] == Zeros(bs);
  }

  /** The first run's only block, against an empty ledger: NEW and not zero, so written. */
  lemma GrowthNew(md4: seq<byte> -> Md4Digest, b: seq<byte>)
    requires |b| > 0 && md4(b) != md4(Zeros(|b|))
    ensures Step(md4, GrowthConfig(|b|), InitialState([], []), b) ==
      State(RecordOf(md4, b), RecordSize, b, Stats(|b|, |b|, 1), false)
  {
    HexInjective(md4(b), md4(Zeros(|b|)));
    RecordOfIsFrame(md4, b);
    assert WriteAt([], 0, b) == b && WriteAt([], 0, RecordOf(md4, b)) == RecordOf(md4, b);
  }

  /** The first run over a non-zero block `b`: NEW, written at 0, then the trailer after it. */
  lemma GrowthFirstRun(md4: seq<byte> -> Md4Digest, b: seq<byte>)
    requires |b| > 0 && md4(b) != md4(Zeros(|b|))
    ensures Run(md4, GrowthConfig(|b|), Some(b), None, None) ==
      RunResult(Synced, Some(b + [Trailer]), Some(RecordOf(md4, b)), Stats(|b|, |b|, 1))
  {
    var cfg := GrowthConfig(|b|);
    GrowthBlocks(b);
    GrowthNew(md4, b);
    ProcessUnfold(md4, cfg, InitialState([], []), [b]);
    assert WriteAt(b, |b|, [Trailer]) == b + [Trailer];
    assert Truncated(RecordOf(md4, b), RecordSize) == RecordOf(md4, b);
  }

  /** The second run's first block, against the first run's files: SAME. */
  lemma GrowthSame(md4: seq<byte> -> Md4Digest, b: seq<byte>)
    requires |b| > 0
    ensures Step(md4, GrowthConfig(|b|), InitialState(RecordOf(md4, b), b + [Trailer]), b) ==
      State(RecordOf(md4, b), RecordSize, b + [Trailer], Stats(|b|, 0, 0), false)
  {
    var r := RecordOf(md4, b);
    RecordOfIsFrame(md4, b);
    assert r[0..] == r && r[..RecordSize] == r && r[RecordSize..] == [];
    ReadFrame(r, 0);
    assert r[0..RecordSize] == r;
  }

  /** The second run's second block: NEW and zero, so a hole in sparse mode. */
  lemma GrowthHole(md4: seq<byte> -> Md4Digest, b: seq<byte>)
    requires |b| > 0
    ensures var st := Step(md4, GrowthConfig(|b|), State(RecordOf(md4, b), RecordSize, b + [Trailer], Stats(|b|, 0, 0), false), Zeros(|b|));
      st.dest == b + [Trailer] && !st.failed && st.stats.bytesRead == 2 * |b|
  {
    RecordOfIsFrame(md4, b);
  }

  /**
   * Sparse mode without truncation can leave a 'Z' inside the destination, at any block
   * size: the first run over a one-block source `b` writes its trailer right after it; when
   * the source grows by a zero block, the second run takes that block as NEW and zero and
   * leaves it as a hole, so the byte after `b` keeps the 'Z' where the source has 0. With
   * `b` of 100000 bytes this is a run with `-b _`.
   */
  lemma SparseTrailerSurvivesGrowth(md4: seq<byte> -> Md4Digest, b: seq<byte>)
    requires |b| > 0 && md4(b) != md4(Zeros(|b|))
    ensures var r1 := Run(md4, GrowthConfig(|b|), Some(b), None, None);
      var r2 := Run(md4, GrowthConfig(|b|), Some(b + Zeros(|b|)), r1.dest, r1.ledger);
      r1.status == Synced && r1.dest == Some(b + [Trailer]) &&
      r2.status == Synced && r2.dest == Some(WriteAt(b + [Trailer], 2 * |b|, [Trailer])) &&
      At(r2.dest.value, |b|) == Trailer && (b + Zeros(|b|))[|b|] == 0
  {
    var cfg := GrowthConfig(|b|);
    GrowthFirstRun(md4, b);
    GrowthBlocks(b);
    var b0 := InitialState(RecordOf(md4, b), b + [Trailer]);
    GrowthSame(md4, b);
    var b1 := State(RecordOf(md4, b), RecordSize, b + [Trailer], Stats(|b|, 0, 0), false);
    GrowthHole(md4, b);
    ProcessUnfold(md4, cfg, b0, [b, Zeros(|b|)]);
    assert [b, Zeros(|b|)][1..] == [Zeros(|b|)];
    ProcessUnfold(md4, cfg, b1, [Zeros(|b|)]);
    WriteAtReads(b + [Trailer], 2 * |b|, [Trailer]);
  }
}
