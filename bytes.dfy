/** Option, as used for a file that may be missing and a read that may hit end of file. */
module Wrappers {
  datatype Option<+T> = None | Some(value: T) {
    function GetOr(default: T): T {
      match this
      case Some(v) => v
      case None => default
    }
  }
}

/**
 * Files as byte sequences. A file is the sequence of its bytes; a byte past the end,
 * or inside a hole left by a seek past the end, reads as zero.
 */
module Bytes {
  type byte = b: int | 0 <= b < 256

  function Min(a: int, b: int): int { if a <= b then a else b }
  function Max(a: int, b: int): int { if a >= b then a else b }

  /** n zero bytes: a buffer after bzero, or the gap before a write past the end. */
  function Zeros(n: nat): seq<byte> { seq(n, _ => 0) }

  /** The byte a read at offset p returns, holes and the region past the end reading as zero. */
  function At(f: seq<byte>, p: nat): byte { if p < |f| then f[p] else 0 }

  /** The file after seeking to off and writing data there (fseeko + fwrite). */
  function WriteAt(f: seq<byte>, off: nat, data: seq<byte>): (r: seq<byte>)
    ensures |r| == Max(|f|, off + |data|)
  {
    if off <= |f| then
      f[..off] + data + (if off + |data| < |f| then f[off + |data|..] else [])
    else
      f + Zeros(off - |f|) + data
  }

  /** Reading after a write: the written bytes where they were written, the old file elsewhere. */
  lemma WriteAtReads(f: seq<byte>, off: nat, data: seq<byte>)
    ensures forall p: nat :: At(WriteAt(f, off, data), p) == if off <= p < off + |data| then data[p - off] else At(f, p)
  {
  }

  /** The file after truncate/ftruncate to n bytes: cut, or extended with zeros. */
  function Truncated(f: seq<byte>, n: nat): (r: seq<byte>)
    ensures |r| == n
  {
    if n <= |f| then f[..n] else f + Zeros(n - |f|)
  }

  /** Truncation keeps the bytes before the new end (zeros where the file was shorter). */
  lemma TruncatedReads(f: seq<byte>, n: nat)
    ensures forall p :: 0 <= p < n ==> Truncated(f, n)[p] == At(f, p)
  {
  }

  /** Writing the same bytes twice at one offset is the same as writing them once. */
  lemma WriteAtTwice(f: seq<byte>, off: nat, data: seq<byte>)
    ensures WriteAt(WriteAt(f, off, data), off, data) == WriteAt(f, off, data)
  {
    var once := WriteAt(f, off, data);
    var twice := WriteAt(once, off, data);
    WriteAtReads(f, off, data);
    WriteAtReads(once, off, data);
    assert |twice| == |once|;
    forall p | 0 <= p < |once| ensures twice[p] == once[p] {
      assert At(twice, p) == At(once, p);
    }
  }

  /** Truncating a file to the length it already has changes nothing. */
  lemma TruncatedToOwnLength(f: seq<byte>)
    ensures Truncated(f, |f|) == f
  {
  }

  /** A file is a sequence of bytes: two files that read alike and have one length are equal. */
  lemma SameReads(f: seq<byte>, g: seq<byte>)
    requires |f| == |g|
    requires forall p: nat :: p < |f| ==> At(f, p) == At(g, p)
    ensures f == g
  {
    forall p | 0 <= p < |f| ensures f[p] == g[p] {
      assert At(f, p) == At(g, p);
    }
  }
}
