/**
 * The checksum ledger (`<dest>.bigsync`): a flat sequence of 33-byte records, each the
 * 32 hex characters of a block digest and a '\n'. Record i belongs to source block i.
 * The file is read with fgets and rewritten in place through one FILE cursor.
 */
module Ledger {
  import opened Wrappers
  import opened Bytes

  /** '\n' */
  const Newline: byte := 10
  /** 32 hex characters and the newline. */
  const RecordSize: nat := 33

  /** The bytes updateMD4InChecksumsFile writes for a digest text: "%s\n". */
  function Record(hex: seq<byte>): (r: seq<byte>)
    ensures |r| == |hex| + 1 && r[..|hex|] == hex && r[|hex|] == Newline
  {
    hex + [Newline]
  }

  /** 33 bytes whose only newline is the last one: what fgets reads as one whole record. */
  predicate IsFrame(r: seq<byte>) { |r| == RecordSize && r[32] == Newline && Newline !in r[..32] }

  /** A ledger made of whole frames, in which fgets stays aligned with the records. */
  predicate Framed(l: seq<byte>)
    decreases |l|
  {
    l == [] || (|l| >= RecordSize && IsFrame(l[..RecordSize]) && Framed(l[RecordSize..]))
  }

  /**
   * How many bytes fgets consumes from position i of l when it may store `room` of them:
   * it stops after the first newline, when the room is used up, or at end of file.
   */
  function LineLength(l: seq<byte>, i: nat, room: nat): (n: nat)
    ensures n <= room && (i <= |l| ==> i + n <= |l|)
    decreases room
  {
    if room == 0 || i >= |l| then 0
    else if l[i] == Newline then 1
    else 1 + LineLength(l, i + 1, room - 1)
  }

  /** The line fgets reads ends at a newline, at the room limit or at end of file, and not before. */
  lemma {:induction false} LineLengthShape(l: seq<byte>, i: nat, room: nat)
    ensures var k := LineLength(l, i, room);
      k <= room && i + k <= Max(i, |l|) &&
      (room > 0 && i < |l| ==> k > 0) &&
      (forall j :: i <= j < i + k - 1 ==> l[j] != Newline) &&
      (k == room || i + k >= |l| || (0 < k && l[i + k - 1] == Newline))
    decreases room
  {
    if room > 0 && i < |l| && l[i] != Newline {
      LineLengthShape(l, i + 1, room - 1);
    }
  }

  /**
   * fgets(storedMD4, 34, checksumsFile) at `cursor`: None at end of file, otherwise the
   * line read (at most 33 bytes).
   */
  function ReadLine(l: seq<byte>, cursor: nat): (line: Option<seq<byte>>)
    ensures line.None? <==> cursor >= |l|
  {
    if cursor >= |l| then None
    else
      LineLengthShape(l, cursor, RecordSize);
      Some(l[cursor..cursor + LineLength(l, cursor, RecordSize)])
  }

  /** A line read is a non-empty stretch of the ledger of at most 33 bytes starting at the cursor. */
  lemma ReadLineShape(l: seq<byte>, cursor: nat)
    requires cursor < |l|
    ensures var line := ReadLine(l, cursor).value;
      0 < |line| <= RecordSize && cursor + |line| <= |l| && line == l[cursor..cursor + |line|]
  {
    LineLengthShape(l, cursor, RecordSize);
  }

  /**
   * The stored record matches the computed digest text: `storedMD4[32] = 0` and then
   * strncmp over 32 characters. As the computed text is 32 hex characters with no zero
   * byte in it, this holds exactly when the line's first 32 bytes are that text.
   */
  predicate Matches(line: seq<byte>, hex: seq<byte>) { |line| >= 32 && line[..32] == hex }

  /** A framed ledger is a whole number of records. */
  lemma {:induction false} FramedLength(l: seq<byte>)
    requires Framed(l)
    ensures |l| % RecordSize == 0
    decreases |l|
  {
    if l != [] { FramedLength(l[RecordSize..]); }
  }

  /** What follows the first k records of a framed ledger is framed too. */
  lemma {:induction false} FramedDrop(l: seq<byte>, k: nat)
    requires Framed(l) && RecordSize * k <= |l|
    ensures Framed(l[RecordSize * k..])
  {
    if k > 0 {
      FramedDrop(l[RecordSize..], k - 1);
      assert l[RecordSize..][RecordSize * (k - 1)..] == l[RecordSize * k..];
    }
  }

  /** On a framed ledger fgets reads exactly one whole record. */
  lemma ReadFrame(l: seq<byte>, cursor: nat)
    requires cursor < |l| && Framed(l[cursor..])
    ensures ReadLine(l, cursor) == Some(l[cursor..cursor + RecordSize])
  {
    var rest := l[cursor..];
    assert IsFrame(rest[..RecordSize]);
    LineLengthShape(l, cursor, RecordSize);
  }

  /** A record whose digest text is 32 hex characters is a frame. */
  lemma RecordIsFrame(hex: seq<byte>)
    requires |hex| == 32 && Newline !in hex
    ensures IsFrame(Record(hex))
  {
    assert Record(hex)[..32] == hex;
  }

  /** The ledger file with its FILE cursor (`ftell(checksumsFile)`). */
  class LedgerFile {
    var contents: seq<byte>
    var cursor: nat

    constructor Open(initial: seq<byte>)
      ensures contents == initial && cursor == 0
    {
      contents := initial;
      cursor := 0;
    }

    /** fgets: the next line, the cursor moving past it; nothing moves at end of file. */
    method ReadRecord() returns (line: Option<seq<byte>>)
      modifies this
      ensures line == ReadLine(old(contents), old(cursor))
      ensures contents == old(contents)
      ensures cursor == old(cursor) + (if line.Some? then |line.value| else 0)
    {
      line := ReadLine(contents, cursor);
      if line.Some? {
        cursor := cursor + |line.value|;
      }
    }

    /**
     * updateMD4InChecksumsFile: REPLACE seeks back 33 bytes (failing when that is before
     * the start of the file) and the record is written there; ADD writes it where the
     * cursor is. The cursor ends just past the record written.
     */
    method UpdateRecord(hex: seq<byte>, replace: bool) returns (ok: bool)
      modifies this
      ensures ok <==> !replace || old(cursor) >= RecordSize
      ensures ok ==>
        var at := if replace then old(cursor) - RecordSize else old(cursor);
        contents == WriteAt(old(contents), at, Record(hex)) && cursor == at + |Record(hex)|
      ensures !ok ==> contents == old(contents) && cursor == old(cursor)
    {
      var at := cursor;
      if replace {
        if cursor < RecordSize {
          return false;
        }
        at := cursor - RecordSize;
      }
      contents := WriteAt(contents, at, Record(hex));
      cursor := at + |Record(hex)|;
      ok := true;
    }

    /** truncateAndCloseChecksumsFile: ftruncate at the cursor. */
    method TruncateAtCursor()
      modifies this
      ensures contents == Truncated(old(contents), old(cursor)) && cursor == old(cursor)
    {
      contents := Truncated(contents, cursor);
    }
  }
}
