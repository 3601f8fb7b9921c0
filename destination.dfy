/**
 * The destination file and updateBlockInFile's sparse-aware write-or-skip decision.
 */
module Destination {
  import opened Bytes

  /** 'Z': the byte written at the final offset in sparse mode. */
  const Trailer: byte := 90

  /**
   * updateBlockInFile writes a changed or new block unless sparse mode is on, the block's
   * digest is that of a zero block and the block had no stored record: only then does it
   * leave a hole.
   */
  predicate ShouldWriteBlock(sparse: bool, isZero: bool, hadRecord: bool)
  {
    if sparse then
      if isZero && hadRecord then true
      else if isZero then false
      else true
    else true
  }

  /** The destination after updateBlockInFile for a block at `offset`. */
  function UpdatedBlock(dest: seq<byte>, offset: nat, block: seq<byte>, sparse: bool, isZero: bool, hadRecord: bool): seq<byte>
  {
    if ShouldWriteBlock(sparse, isZero, hadRecord) then WriteAt(dest, offset, block) else dest
  }

  /** A written block reads back at its offset and leaves every other byte as it was; a hole changes nothing. */
  lemma UpdatedBlockReads(dest: seq<byte>, offset: nat, block: seq<byte>, sparse: bool, isZero: bool, hadRecord: bool)
    ensures var r := UpdatedBlock(dest, offset, block, sparse, isZero, hadRecord);
      (ShouldWriteBlock(sparse, isZero, hadRecord) ==>
        |r| == Max(|dest|, offset + |block|) &&
        forall p: nat :: At(r, p) == if offset <= p < offset + |block| then block[p - offset] else At(dest, p)) &&
      (!ShouldWriteBlock(sparse, isZero, hadRecord) ==> r == dest)
  {
    WriteAtReads(dest, offset, block);
  }

  /** The decision table: the one row that skips, and every write in non-sparse mode. */
  lemma SkipOnlyNewZeroBlocksInSparseMode(sparse: bool, isZero: bool, hadRecord: bool)
    ensures !ShouldWriteBlock(sparse, isZero, hadRecord) <==> sparse && isZero && !hadRecord
    ensures !sparse ==> ShouldWriteBlock(sparse, isZero, hadRecord)
  {
  }

  /** The destination file, opened "r+". */
  class DestFile {
    var contents: seq<byte>

    constructor Open(initial: seq<byte>)
      ensures contents == initial
    {
      contents := initial;
    }

    /**
     * updateBlockInFile: seek to `offset` and write the first `size` bytes of the buffer,
     * or only seek past them when the block is left as a hole.
     */
    method UpdateBlock(buf: array<byte>, size: nat, offset: nat, sparse: bool,
                       readingHex: seq<byte>, hadRecord: bool, zeroHex: seq<byte>)
      requires size <= buf.Length
      modifies this
      ensures contents == UpdatedBlock(old(contents), offset, buf[..size], sparse, readingHex == zeroHex, hadRecord)
    {
      var isSourceBlockZero := readingHex == zeroHex;
      var shouldWriteBlock := false;
      if sparse {
        if isSourceBlockZero && hadRecord {
          shouldWriteBlock := true;
        } else if isSourceBlockZero {
          shouldWriteBlock := false;
        } else {
          shouldWriteBlock := true;
        }
      } else {
        shouldWriteBlock := true;
      }
      if shouldWriteBlock {
        contents := WriteAt(contents, offset, buf[..size]);
      }
    }

    /** The sparse-mode fix-up: one 'Z' at the final offset. */
    method WriteTrailer(offset: nat)
      modifies this
      ensures contents == WriteAt(old(contents), offset, [Trailer])
    {
      contents := WriteAt(contents, offset, [Trailer]);
    }

    /** truncate(destFilename, length). */
    method Truncate(length: nat)
      modifies this
      ensures contents == Truncated(old(contents), length)
    {
      contents := Truncated(contents, length);
    }
  }
}
