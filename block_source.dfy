/**
 * The source file read in fixed-size blocks: `fread(block, 1, blockSize, sourceFile)`
 * into one reused buffer, until a read returns zero bytes.
 */
module BlockSource {
  import opened Bytes

  /**
   * The blocks a run reads from source s with block size bs once `pos` bytes have been
   * read: full blocks and a shorter final one. A block size of zero reads nothing (fread
   * of zero bytes returns 0).
   */
  function BlocksFrom(s: seq<byte>, bs: nat, pos: nat): seq<seq<byte>>
    decreases |s| - pos
  {
    if bs == 0 || pos >= |s| then []
    else
      var n := Min(bs, |s| - pos);
      [s[pos..pos + n]] + BlocksFrom(s, bs, pos + n)
  }

  /** All the blocks of source s. */
  function Blocks(s: seq<byte>, bs: nat): seq<seq<byte>> { BlocksFrom(s, bs, 0) }

  /** Total number of bytes in a sequence of blocks: what `totalBytesRead` adds up. */
  function TotalLength(blocks: seq<seq<byte>>): nat
    decreases |blocks|
  {
    if blocks == [] then 0 else |blocks[0]| + TotalLength(blocks[1..])
  }

  /** The blocks one after the other. */
  function Concat(blocks: seq<seq<byte>>): (s: seq<byte>)
    ensures |s| == TotalLength(blocks)
    decreases |blocks|
  {
    if blocks == [] then [] else blocks[0] + Concat(blocks[1..])
  }

  /** Block k after `pos` starts k * bs bytes further on and ends bs bytes later or at the end. */
  lemma {:induction false} BlocksFromAt(s: seq<byte>, bs: nat, pos: nat, k: nat)
    requires k < |BlocksFrom(s, bs, pos)|
    ensures bs > 0 && pos + k * bs < |s|
    ensures BlocksFrom(s, bs, pos)[k] == s[pos + k * bs .. Min(pos + k * bs + bs, |s|)]
    decreases |s| - pos
  {
    var n := Min(bs, |s| - pos);
    var rest := BlocksFrom(s, bs, pos + n);
    assert BlocksFrom(s, bs, pos) == [s[pos..pos + n]] + rest;
    if k > 0 {
      assert BlocksFrom(s, bs, pos)[k] == rest[k - 1];
      BlocksFromAt(s, bs, pos + n, k - 1);
      assert n == bs;
      MulSucc(k, bs);
    }
  }

  /** (k - 1) * bs + bs == k * bs, kept apart so that the lemmas above stay linear. */
  lemma MulSucc(k: nat, bs: nat)
    requires k > 0
    ensures (k - 1) * bs + bs == k * bs
  {
  }

  /** Block k starts at byte k * bs of the source and ends bs bytes later or at its end. */
  lemma BlockAt(s: seq<byte>, bs: nat, k: nat)
    requires k < |Blocks(s, bs)|
    ensures bs > 0 && k * bs < |s|
    ensures Blocks(s, bs)[k] == s[k * bs .. Min(k * bs + bs, |s|)]
  {
    BlocksFromAt(s, bs, 0, k);
  }

  /** The blocks after `pos` cover the rest of the source exactly: as many as needed and no more. */
  lemma {:induction false} BlocksFromCount(s: seq<byte>, bs: nat, pos: nat)
    requires bs > 0 && pos <= |s|
    ensures |s| - pos <= |BlocksFrom(s, bs, pos)| * bs
    ensures |BlocksFrom(s, bs, pos)| > 0 ==> (|BlocksFrom(s, bs, pos)| - 1) * bs < |s| - pos
    ensures |BlocksFrom(s, bs, pos)| == 0 <==> pos == |s|
    decreases |s| - pos
  {
    if pos < |s| {
      var n := Min(bs, |s| - pos);
      BlocksFromCount(s, bs, pos + n);
      var m := |BlocksFrom(s, bs, pos + n)|;
      assert |BlocksFrom(s, bs, pos)| == m + 1;
      assert (m + 1) * bs == m * bs + bs;
    }
  }

  /** The blocks cover the source exactly: as many as needed and no more. */
  lemma BlocksCount(s: seq<byte>, bs: nat)
    requires bs > 0
    ensures |s| <= |Blocks(s, bs)| * bs
    ensures |Blocks(s, bs)| > 0 ==> (|Blocks(s, bs)| - 1) * bs < |s|
    ensures |Blocks(s, bs)| == 0 <==> s == []
  {
    BlocksFromCount(s, bs, 0);
  }

  /**
   * The blocks after `pos` are the rest of the source cut into pieces: put back together
   * they give it back, byte for byte.
   */
  lemma {:induction false} BlocksFromConcat(s: seq<byte>, bs: nat, pos: nat)
    requires bs > 0 && pos <= |s|
    ensures Concat(BlocksFrom(s, bs, pos)) == s[pos..]
    decreases |s| - pos
  {
    if pos < |s| {
      var n := Min(bs, |s| - pos);
      var blocks := BlocksFrom(s, bs, pos);
      assert blocks[0] == s[pos..pos + n] && blocks[1..] == BlocksFrom(s, bs, pos + n);
      BlocksFromConcat(s, bs, pos + n);
      assert s[pos..] == s[pos..pos + n] + s[pos + n..];
    }
  }

  /** The blocks are the source cut into pieces: together they are the source, |s| bytes in all. */
  lemma BlocksConcat(s: seq<byte>, bs: nat)
    requires bs > 0
    ensures Concat(Blocks(s, bs)) == s && TotalLength(Blocks(s, bs)) == |s|
  {
    BlocksFromConcat(s, bs, 0);
  }

  /** The source file with its read offset (`ftello(sourceFile)`). */
  class SourceFile {
    const contents: seq<byte>
    var offset: nat

    ghost predicate Valid()
      reads this
    {
      offset <= |contents|
    }

    constructor Open(data: seq<byte>)
      ensures Valid() && contents == data && offset == 0
    {
      contents := data;
      offset := 0;
    }

    /** fread(buf, 1, buf.Length, f): fills a prefix of the buffer from the current offset. */
    method Read(buf: array<byte>) returns (n: nat)
      requires Valid()
      modifies this, buf
      ensures Valid()
      ensures n == Min(buf.Length, |contents| - old(offset))
      ensures offset == old(offset) + n
      ensures buf[..n] == contents[old(offset)..offset]
      ensures buf[n..] == old(buf[n..])
    {
      var start := offset;
      n := Min(buf.Length, |contents| - start);
      for i := 0 to n
        invariant buf[..i] == contents[start..start + i]
        invariant buf[i..] == old(buf[i..])
      {
        buf[i] := contents[start + i];
      }
      offset := start + n;
    }
  }

  /** One read consumes the next block of what is left of the source, or signals the end. */
  lemma ReadTakesNextBlock(s: seq<byte>, o: nat, bs: nat, n: nat)
    requires o <= |s| && n == Min(bs, |s| - o)
    ensures n == 0 ==> BlocksFrom(s, bs, o) == []
    ensures n > 0 ==> BlocksFrom(s, bs, o) == [s[o..o + n]] + BlocksFrom(s, bs, o + n)
  {
  }
}
