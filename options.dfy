/**
 * The path and block-size rules `main` applies before the run starts: the block size
 * chosen by --blocksize, the destination path when the destination argument is a
 * directory, and the default ledger path. Paths are character strings; what `basename`
 * returns for the source path and what `atoi` returns for the option's text are given.
 */
module Options {
  import opened Wrappers

  const Mebibyte: nat := 1024 * 1024

  /** The block size without --blocksize: 15 MiB. */
  const DefaultBlockSize: nat := 15 * Mebibyte

  /** The block size --blocksize _ selects (a size for testing, not a multiple of 1 MiB). */
  const TestBlockSize: nat := 100000

  /**
   * The block size after option parsing: the default without the option; 100000 when its
   * text starts with '_'; otherwise the number `atoi` reads from the text, in MiB.
   */
  function BlockSize(option: Option<string>, atoiValue: int): (bs: int)
    ensures option.None? ==> bs == DefaultBlockSize
  {
    match option
    case None => DefaultBlockSize
    case Some(text) =>
      if |text| > 0 && text[0] == '_' then TestBlockSize
      else atoiValue * Mebibyte
  }

  /**
   * A numeric option is a whole number of MiB and that number is the one given; the
   * block size is positive exactly when the number is. The '_' size is the only one that is
   * not a whole number of MiB.
   */
  lemma BlockSizeInMebibytes(text: string, atoiValue: int)
    ensures var bs := BlockSize(Some(text), atoiValue);
      (|text| > 0 && text[0] == '_' ==> bs == 100000 && bs % Mebibyte != 0) &&
      (!(|text| > 0 && text[0] == '_') ==>
        bs % Mebibyte == 0 && bs / Mebibyte == atoiValue && (bs > 0 <==> atoiValue > 0))
  {
  }

  /** The directory name with one trailing '/' removed, if it has one. */
  function WithoutTrailingSlash(dir: string): (d: string)
    ensures |dir| > 0 && dir[|dir| - 1] == '/' ==> d + "/" == dir
    ensures !(|dir| > 0 && dir[|dir| - 1] == '/') ==> d == dir
  {
    if |dir| > 0 && dir[|dir| - 1] == '/' then dir[..|dir| - 1] else dir
  }

  /**
   * createDestFilenameFromSource: the directory without one trailing '/', then '/', then
   * the basename of the source. strlen(directoryName) - 1 is read, so the directory name
   * is not empty (an empty name is never a directory).
   */
  function DestInDirectory(dir: string, base: string): string
    requires |dir| > 0
  {
    WithoutTrailingSlash(dir) + "/" + base
  }

  /** The position after the last '/' of a path (0 when there is none). */
  function LastSlashEnd(p: string): (k: nat)
    ensures k <= |p|
    ensures k > 0 ==> p[k - 1] == '/'
    ensures forall i :: k <= i < |p| ==> p[i] != '/'
    decreases |p|
  {
    if p == [] then 0
    else if p[|p| - 1] == '/' then |p|
    else LastSlashEnd(p[..|p| - 1])
  }

  /** The file name a path ends in: what follows its last '/'. */
  function FileName(p: string): string { p[LastSlashEnd(p)..] }

  /** The directory part of a path: what precedes its last '/'. */
  function DirName(p: string): string
  {
    var k := LastSlashEnd(p);
    if k == 0 then "" else p[..k - 1]
  }

  /** A path is its directory part, '/', and its file name, when it has a '/'. */
  lemma {:induction false} LastSlashOfSuffix(prefix: string, name: string)
    requires '/' !in name
    ensures LastSlashEnd(prefix + "/" + name) == |prefix| + 1
    decreases |name|
  {
    var p := prefix + "/" + name;
    if name == [] {
      assert p[|p| - 1] == '/';
    } else {
      assert p[..|p| - 1] == prefix + "/" + name[..|name| - 1];
      assert p[|p| - 1] == name[|name| - 1];
      LastSlashOfSuffix(prefix, name[..|name| - 1]);
    }
  }

  /**
   * Splitting the composed path at its last '/' gives back the source's basename and the
   * directory with at most one trailing '/' fewer: a directory "d/" and a directory "d"
   * give the same path, while "d//" keeps one of its two slashes.
   */
  lemma DestInDirectoryParts(dir: string, base: string)
    requires |dir| > 0 && '/' !in base
    ensures FileName(DestInDirectory(dir, base)) == base
    ensures DirName(DestInDirectory(dir, base)) == WithoutTrailingSlash(dir)
    ensures dir[|dir| - 1] != '/' ==> DestInDirectory(dir + "/", base) == DestInDirectory(dir, base)
    ensures DestInDirectory(dir + "//", base) == dir + "//" + base
  {
    var d := WithoutTrailingSlash(dir);
    LastSlashOfSuffix(d, base);
    var p := d + "/" + base;
    assert p[|d| + 1..] == base;
    assert p[..|d|] == d;
    var dir1, dir2 := dir + "/", dir + "//";
    assert dir1[|dir1| - 1] == '/' && dir1[..|dir1| - 1] == dir;
    assert dir2[|dir2| - 1] == '/' && dir2[..|dir2| - 1] == dir1;
  }

  /** The file-type bits of `st_mode` and the two type codes isDirectory looks at. */
  const TypeMask: bv32 := 0xF000
  const BlockDeviceType: bv32 := 0x6000
  const DirectoryType: bv32 := 0x4000

  /**
   * isDirectory as written: -1 when `stat` fails (None), else 0 when the mode shares a bit
   * with the block-device code, 1 when it shares one with the directory code, 0 otherwise.
   */
  function IsDirectoryAsWritten(mode: Option<bv32>): int
  {
    match mode
    case None => -1
    case Some(m) => if m & BlockDeviceType != 0 then 0 else if m & DirectoryType != 0 then 1 else 0
  }

  /**
   * The block-device code contains the directory bit, so the test as written answers 0 for
   * every directory and never answers 1: `main` never composes a path inside a directory.
   */
  lemma IsDirectoryAsWrittenNeverOne(mode: Option<bv32>)
    ensures IsDirectoryAsWritten(mode) != 1
    ensures mode.Some? && mode.value & TypeMask == DirectoryType ==> IsDirectoryAsWritten(mode) == 0
  {
    if mode.Some? {
      var m := mode.value;
      assert m & DirectoryType != 0 ==> m & BlockDeviceType != 0;
    }
  }

  /** isDirectory as intended: 1 exactly for a directory, compared on the file-type bits. */
  function IsDirectory(mode: Option<bv32>): (r: int)
    ensures r == -1 <==> mode.None?
    ensures r == 1 <==> mode.Some? && mode.value & TypeMask == DirectoryType
    ensures r in {-1, 0, 1}
  {
    match mode
    case None => -1
    case Some(m) => if m & TypeMask == DirectoryType then 1 else 0
  }

  /** A block device, whose type code overlaps the directory bit, is not a directory. */
  lemma BlockDeviceIsNotDirectory(m: bv32)
    requires m & TypeMask == BlockDeviceType
    ensures IsDirectory(Some(m)) == 0 && m & DirectoryType != 0
  {
  }

  /**
   * A destination argument naming a directory (`stat` gives its mode, None when that
   * fails) becomes a file in it named after the source.
   */
  function ResolveDest(destMode: Option<bv32>, dest: string, sourceBase: string): string
    requires IsDirectory(destMode) == 1 ==> |dest| > 0
  {
    if IsDirectory(destMode) == 1 then DestInDirectory(dest, sourceBase) else dest
  }

  /**
   * The destination the run writes: for a directory, a file directly inside it (the
   * directory without its trailing '/') named after the source; otherwise the path given.
   */
  lemma ResolveDestParts(destMode: Option<bv32>, dest: string, sourceBase: string)
    requires IsDirectory(destMode) == 1 ==> |dest| > 0 && '/' !in sourceBase
    ensures IsDirectory(destMode) == 1 ==>
      FileName(ResolveDest(destMode, dest, sourceBase)) == sourceBase &&
      DirName(ResolveDest(destMode, dest, sourceBase)) == WithoutTrailingSlash(dest)
    ensures IsDirectory(destMode) != 1 ==> ResolveDest(destMode, dest, sourceBase) == dest
  {
    if IsDirectory(destMode) == 1 {
      DestInDirectoryParts(dest, sourceBase);
    }
  }

  const LedgerSuffix: string := ".bigsync"

  /** The ledger path: the one given with --checksum, else the destination path + ".bigsync". */
  function LedgerPath(dest: string, given: Option<string>): string
  {
    match given
    case Some(path) => path
    case None => dest + LedgerSuffix
  }

  /**
   * Without --checksum the ledger lies beside the destination: its path ends in ".bigsync"
   * and without that suffix is the destination path, so distinct destinations have distinct
   * default ledgers.
   */
  lemma DefaultLedgerBesideDest(dest: string, other: string)
    ensures var p := LedgerPath(dest, None);
      |p| == |dest| + 8 && p[|dest|..] == ".bigsync" && p[..|dest|] == dest
    ensures LedgerPath(dest, None) == LedgerPath(other, None) ==> dest == other
  {
    var p, q := LedgerPath(dest, None), LedgerPath(other, None);
    assert p[..|dest|] == dest;
    if p == q {
      assert q[..|other|] == other;
    }
  }
}
