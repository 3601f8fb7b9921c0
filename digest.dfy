/**
 * Block digests and their text form. The MD4 computation itself (RFC 1320) is not part of
 * this model: it is a parameter `md4` that maps a byte sequence to a 16-byte digest. What is
 * modelled exactly is `calcMD4`'s rendering of the digest as 32 lowercase hex characters
 * (one "%02x" per byte). Characters are the ASCII code bytes they are stored as.
 */
module Digest {
  import opened Wrappers
  import opened Bytes

  const DigestLength: nat := 16

  type Md4Digest = d: seq<byte> | |d| == DigestLength
    witness [0, 0, 0, 0, 0, 0, 0, 0, 0, 0, 0, 0, 0, 0, 0, 0]

  /** A lowercase hex digit: '0'..'9' (48..57) or 'a'..'f' (97..102). */
  predicate IsLowerHex(c: byte) { 48 <= c <= 57 || 97 <= c <= 102 }

  /** The character of a 4-bit value, as "%x" writes it. */
  function HexDigit(v: nat): (c: byte)
    requires v < 16
    ensures IsLowerHex(c)
  {
    if v < 10 then 48 + v else 87 + v
  }

  /** The value of a lowercase hex digit. */
  function HexValue(c: byte): (v: nat)
    requires IsLowerHex(c)
    ensures v < 16 && HexDigit(v) == c
  {
    if c <= 57 then c - 48 else c - 87
  }

  /** "%02x" of one byte: high nibble, then low nibble. */
  function HexByte(b: byte): (h: seq<byte>)
    ensures |h| == 2 && IsLowerHex(h[0]) && IsLowerHex(h[1])
  {
    [HexDigit(b / 16), HexDigit(b % 16)]
  }

  /** The hex text of a byte sequence, two characters per byte, in order. */
  function HexOf(d: seq<byte>): (h: seq<byte>)
    ensures |h| == 2 * |d|
    decreases |d|
  {
    if d == [] then [] else HexOf(d[..|d| - 1]) + HexByte(d[|d| - 1])
  }

  /** Every character of a hex text is a lowercase hex digit (so none is a newline or a zero byte). */
  lemma {:induction false} HexOfIsLowerHex(d: seq<byte>)
    ensures forall i :: 0 <= i < |HexOf(d)| ==> IsLowerHex(HexOf(d)[i])
    decreases |d|
  {
    if d != [] {
      HexOfIsLowerHex(d[..|d| - 1]);
    }
  }

  /** Reading hex text back into bytes; None when the text is not lowercase hex pairs. */
  function UnHex(h: seq<byte>): Option<seq<byte>>
    decreases |h|
  {
    if h == [] then Some([])
    else if |h| < 2 || !IsLowerHex(h[|h| - 2]) || !IsLowerHex(h[|h| - 1]) then None
    else
      match UnHex(h[..|h| - 2])
      case None => None
      case Some(prefix) => Some(prefix + [HexValue(h[|h| - 2]) * 16 + HexValue(h[|h| - 1])])
  }

  /** A byte is its high nibble times 16 plus its low nibble, and the two nibbles are determined by it. */
  lemma Nibbles(hi: nat, lo: nat)
    requires hi < 16 && lo < 16
    ensures 0 <= hi * 16 + lo < 256
    ensures (hi * 16 + lo) / 16 == hi && (hi * 16 + lo) % 16 == lo
  {
  }

  /** Decoding the two characters "%02x" writes for a byte gives the byte back. */
  lemma HexByteValues(b: byte)
    ensures HexValue(HexByte(b)[0]) * 16 + HexValue(HexByte(b)[1]) == b
  {
    assert HexValue(HexDigit(b / 16)) == b / 16;
    assert HexValue(HexDigit(b % 16)) == b % 16;
  }

  /** One step of UnHex: a text that decodes is a shorter text that decodes and one more hex pair. */
  lemma UnHexLast(h: seq<byte>)
    requires h != [] && UnHex(h).Some?
    ensures |h| >= 2 && IsLowerHex(h[|h| - 2]) && IsLowerHex(h[|h| - 1])
    ensures UnHex(h[..|h| - 2]).Some?
    ensures UnHex(h).value == UnHex(h[..|h| - 2]).value + [HexValue(h[|h| - 2]) * 16 + HexValue(h[|h| - 1])]
  {
  }

  /** One step of UnHex the other way: a text that decodes followed by a hex pair decodes. */
  lemma UnHexAppend(init: seq<byte>, c1: byte, c2: byte)
    requires UnHex(init).Some? && IsLowerHex(c1) && IsLowerHex(c2)
    ensures UnHex(init + [c1, c2]) == Some(UnHex(init).value + [HexValue(c1) * 16 + HexValue(c2)])
  {
    var h := init + [c1, c2];
    assert h[..|h| - 2] == init;
  }

  /** Decoding survives appending one byte: the text grows by that byte's pair. */
  lemma UnHexOfHexAppend(init: seq<byte>, last: byte)
    requires UnHex(HexOf(init)) == Some(init)
    ensures UnHex(HexOf(init + [last])) == Some(init + [last])
  {
    var d := init + [last];
    assert d[..|d| - 1] == init;
    var c1, c2 := HexDigit(last / 16), HexDigit(last % 16);
    assert HexOf(d) == HexOf(init) + [c1, c2];
    UnHexAppend(HexOf(init), c1, c2);
    HexByteValues(last);
  }

  /** The hex text determines the bytes it was made from. */
  lemma {:induction false} UnHexOfHex(d: seq<byte>)
    ensures UnHex(HexOf(d)) == Some(d)
    decreases |d|
  {
    if d != [] {
      UnHexOfHex(d[..|d| - 1]);
      UnHexOfHexAppend(d[..|d| - 1], d[|d| - 1]);
      assert d[..|d| - 1] + [d[|d| - 1]] == d;
    }
  }

  /** Only the hex text of the bytes it decodes to decodes to them. */
  lemma {:induction false} HexOfUnHex(h: seq<byte>, d: seq<byte>)
    requires UnHex(h) == Some(d)
    ensures HexOf(d) == h
    decreases |h|
  {
    if h != [] {
      UnHexLast(h);
      var init := h[..|h| - 2];
      var prefix := UnHex(init).value;
      var hi, lo := HexValue(h[|h| - 2]), HexValue(h[|h| - 1]);
      HexOfUnHex(init, prefix);
      Nibbles(hi, lo);
      var b: byte := hi * 16 + lo;
      assert d == prefix + [b];
      assert d[..|d| - 1] == prefix && d[|d| - 1] == b;
      assert HexOf(d) == HexOf(prefix) + HexByte(b);
      assert HexByte(b) == [h[|h| - 2], h[|h| - 1]];
      assert h == init + [h[|h| - 2], h[|h| - 1]];
    }
  }

  /** Equal hex texts come from equal digests: comparing texts compares digests. */
  lemma HexInjective(a: seq<byte>, b: seq<byte>)
    ensures HexOf(a) == HexOf(b) <==> a == b
  {
    if HexOf(a) == HexOf(b) {
      UnHexOfHex(a);
      UnHexOfHex(b);
    }
  }

  /**
   * calcMD4(block, size, md4Result): the digest of the first `size` bytes of the buffer,
   * rendered in a loop, one byte at a time.
   */
  method CalcMD4(md4: seq<byte> -> Md4Digest, buf: array<byte>, size: nat) returns (hex: seq<byte>)
    requires size <= buf.Length
    ensures hex == HexOf(md4(buf[..size]))
    ensures |hex| == 2 * DigestLength
  {
    var digest := md4(buf[..size]);
    hex := [];
    for i := 0 to DigestLength
      invariant hex == HexOf(digest[..i])
    {
      assert digest[..i + 1][..i] == digest[..i];
      hex := hex + HexByte(digest[i]);
    }
    assert digest[..DigestLength] == digest;
  }
}
