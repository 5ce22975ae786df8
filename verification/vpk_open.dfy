/**
 * Opening a file of a VPK package: the entry is looked up in the archive's file list, the
 * file holding its bytes is chosen (the directory file itself for archive index 0x7fff,
 * otherwise the numbered archive named from the format string), and the result is a memory
 * file holding the preload bytes and the copied data, or a window onto the archive for
 * large files without preload data. Numbered archives are given as a map from index to
 * contents; an index missing from it stands for an archive that does not open.
 */
module VpkOpen {
  import opened Bytes
  import opened Wrappers
  import FileList
  import FsalFiles
  import Vpk

  // ---------------------------------------------------------------------------------------
  // Archive file names
  // ---------------------------------------------------------------------------------------

  predicate IsDigit(c: char)
  {
    '0' <= c <= '9'
  }

  predicate AllDigits(s: string)
  {
    forall i :: 0 <= i < |s| ==> IsDigit(s[i])
  }

  function Digit(d: nat): (c: char)
    requires d < 10
    ensures IsDigit(c) && c as int - '0' as int == d
  {
    ('0' as int + d) as char
  }

  /** The decimal digits of n, without leading zeros. */
  function Decimal(n: nat): (r: string)
    decreases n
  {
    if n < 10 then [Digit(n)] else Decimal(n / 10) + [Digit(n % 10)]
  }

  /** The number a string of decimal digits denotes. */
  function ValueOf(s: string): nat
    requires AllDigits(s)
  {
    if s == [] then 0 else ValueOf(s[..|s| - 1]) * 10 + (s[|s| - 1] as int - '0' as int)
  }

  lemma {:induction false} DecimalValue(n: nat)
    ensures AllDigits(Decimal(n)) && 1 <= |Decimal(n)|
    ensures ValueOf(Decimal(n)) == n
    decreases n
  {
    if n >= 10 {
      DecimalValue(n / 10);
      var d := Decimal(n);
      assert d[..|d| - 1] == Decimal(n / 10);
    }
  }

  /** Leading zeros do not change a number's value. */
  lemma {:induction false} LeadingZeros(k: nat, s: string)
    requires AllDigits(s)
    ensures AllDigits(seq(k, _ => '0') + s)
    ensures ValueOf(seq(k, _ => '0') + s) == ValueOf(s)
    decreases |s|
  {
    var z := seq(k, _ => '0');
    if s == [] {
      assert z + s == z;
      ZerosValue(k);
    } else {
      LeadingZeros(k, s[..|s| - 1]);
      assert (z + s)[..|z + s| - 1] == z + s[..|s| - 1];
    }
  }

  lemma {:induction false} ZerosValue(k: nat)
    ensures AllDigits(seq(k, _ => '0')) && ValueOf(seq(k, _ => '0')) == 0
  {
    if k > 0 {
      ZerosValue(k - 1);
      assert seq(k, _ => '0')[..k - 1] == seq(k - 1, _ => '0');
    }
  }

  /** OpenPak's "%03d": the archive index in decimal, zero-padded to at least three digits. */
  function PakNumber(index: nat): (r: string)
  {
    var d := Decimal(index);
    if |d| < 3 then seq(3 - |d|, _ => '0') + d else d
  }

  /** The archive number has at least three digits and reads back as the index. */
  lemma PakNumberValue(index: nat)
    ensures AllDigits(PakNumber(index)) && |PakNumber(index)| >= 3
    ensures ValueOf(PakNumber(index)) == index
  {
    DecimalValue(index);
    var d := Decimal(index);
    if |d| < 3 {
      LeadingZeros(3 - |d|, d);
    }
  }

  /** The archive file name format, split at its single "%s". */
  datatype NameFormat = NameFormat(before: string, after: string)

  /** The directory file's name: the format with "dir" in place of "%s". */
  function DirFileName(fmt: NameFormat): string
  {
    fmt.before + "dir" + fmt.after
  }

  /** The name of numbered archive index: the format with its three-digit number in place of "%s". */
  function PakFileName(fmt: NameFormat, index: nat): string
  {
    fmt.before + PakNumber(index) + fmt.after
  }

  /** Different archives have different names, and none is named like the directory file. */
  lemma PakNamesDistinct(fmt: NameFormat, i: nat, j: nat)
    ensures i != j ==> PakFileName(fmt, i) != PakFileName(fmt, j)
    ensures PakFileName(fmt, i) != DirFileName(fmt)
  {
    PakNumberValue(i);
    PakNumberValue(j);
    Middle(fmt, PakNumber(i));
    Middle(fmt, PakNumber(j));
    Middle(fmt, "dir");
  }

  /** The part of a file name that stands in for "%s". */
  lemma Middle(fmt: NameFormat, s: string)
    ensures var name := fmt.before + s + fmt.after;
      |name| == |fmt.before| + |s| + |fmt.after| && name[|fmt.before|..|fmt.before| + |s|] == s
  {
    var name := fmt.before + s + fmt.after;
    assert name[|fmt.before|..|fmt.before| + |s|] == s;
  }

  // ---------------------------------------------------------------------------------------
  // Opening an entry
  // ---------------------------------------------------------------------------------------

  /** What a lookup that finds nothing yields: the default-constructed entry, all zero. */
  const NO_ENTRY: Vpk.VpkEntry := Vpk.VpkEntry(0, 0, 0, 0, [])

  /** The opened file: none, a memory file holding the bytes, or a window onto an archive. */
  datatype Opened = NotOpened | Copied(bytes: seq<byte>) | Windowed(sub: FsalFiles.SubFile)

  /** The file holding an entry's bytes: the directory file itself, or a numbered archive. */
  function ArchiveOf(dir: seq<byte>, paks: map<nat, seq<byte>>, index: nat): (r: Option<seq<byte>>)
    ensures index == Vpk.DIR_ARCHIVE ==> r == Some(dir)
    ensures index != Vpk.DIR_ARCHIVE ==> (r.Some? <==> index in paks)
  {
    if index == Vpk.DIR_ARCHIVE then Some(dir)
    else if index in paks then Some(paks[index])
    else None
  }

  /**
   * s cut or padded to n bytes, as a copy into a buffer of n bytes leaves it. The program's
   * buffer comes from malloc/realloc and is not cleared; zero stands in for the bytes the copy
   * does not reach.
   */
  function Fit(s: seq<byte>, n: nat): (r: seq<byte>)
    ensures |r| == n
    ensures |s| >= n ==> r == s[..n]
    ensures |s| <= n ==> r[..|s|] == s && forall i :: |s| <= i < n ==> r[i] == 0
  {
    if |s| >= n then s[..n] else s + seq(n - |s|, _ => 0)
  }

  /**
   * The memory file's bytes: the preload bytes, then the entry's length read at its offset
   * from the archive (when the length is 0 the archive is not read). What a short read does
   * not deliver is uninitialised memory in the program and zero here.
   */
  function CopiedBytes(e: Vpk.VpkEntry, archive: Option<seq<byte>>): (r: seq<byte>)
    requires e.entryLength > 0 ==> archive.Some?
    ensures |r| == e.preloadBytes + e.entryLength
  {
    var read := if e.entryLength > 0 then FsalFiles.CursorRead(archive.value, e.entryOffset, e.entryLength).bytes else [];
    Fit(e.preload, e.preloadBytes) + Fit(read, e.entryLength)
  }

  /** The window onto the archive: the entry's length of bytes from its offset. */
  function WindowOf(e: Vpk.VpkEntry, archive: seq<byte>): FsalFiles.SubFile
  {
    FsalFiles.SubFile(FsalFiles.ReadOnlyFile(Some(archive), 0), e.entryLength, e.entryOffset, 0)
  }

  /**
   * OpenFile's choice once it has an entry and its archive: preload data or a small file are
   * copied into memory, a large file without preload data is a window onto the archive. A
   * missing archive fails the open whenever it would have to be read.
   */
  function Open(e: Vpk.VpkEntry, archive: Option<seq<byte>>): (r: Opened)
    ensures archive.None? && e.entryLength > 0 ==> r == NotOpened
    ensures r.Windowed? ==> e.preloadBytes == 0 && Vpk.MAX_COPIED <= e.entryLength
    ensures archive.Some? && |e.preload| == e.preloadBytes && e.entryOffset + e.entryLength <= |archive.value| ==>
      && r != NotOpened
      && (r.Copied? ==> r.bytes == e.preload + archive.value[e.entryOffset..e.entryOffset + e.entryLength])
      && (r.Windowed? ==>
            && r.sub.pointer == 0 && r.sub.start + r.sub.size <= r.sub.under.Size()
            && FsalFiles.Window(r.sub) == archive.value[e.entryOffset..e.entryOffset + e.entryLength])
  {
    CopiedShows(e, archive);
    if e.preloadBytes != 0 || e.preloadBytes + e.entryLength < Vpk.MAX_COPIED then
      if e.entryLength > 0 && archive.None? then NotOpened else Copied(CopiedBytes(e, archive))
    else if archive.None? then NotOpened
    else Windowed(WindowOf(e, archive.value))
  }

  /** The copy holds the preload bytes and then the entry's bytes, when the archive holds them. */
  lemma CopiedShows(e: Vpk.VpkEntry, archive: Option<seq<byte>>)
    ensures archive.Some? && |e.preload| == e.preloadBytes && e.entryOffset + e.entryLength <= |archive.value| ==>
      CopiedBytes(e, archive) == e.preload + archive.value[e.entryOffset..e.entryOffset + e.entryLength]
  {
    if archive.Some? && |e.preload| == e.preloadBytes && e.entryOffset + e.entryLength <= |archive.value| && e.entryLength > 0 {
      var rd := FsalFiles.CursorRead(archive.value, e.entryOffset, e.entryLength);
      assert rd.bytes == archive.value[e.entryOffset..e.entryOffset + e.entryLength];
    }
  }

  /**
   * OpenFile as written: only an entry with preload bytes or a non-zero offset is opened, so
   * the default entry of a failed lookup gives no file, and so does a file stored at offset 0
   * of its archive without preload data.
   */
  function OpenEntryAsWritten(e: Vpk.VpkEntry, archive: Option<seq<byte>>): (r: Opened)
    ensures e.preloadBytes == 0 && e.entryOffset == 0 ==> r == NotOpened
    ensures e.preloadBytes != 0 || e.entryOffset != 0 ==> r == Open(e, archive)
  {
    if e.preloadBytes != 0 || e.entryOffset != 0 then Open(e, archive) else NotOpened
  }

  /** A small file at offset 0 of its archive, with no preload bytes, that OpenFile as written does not open. */
  lemma OffsetZeroNotOpened()
    ensures OpenEntryAsWritten(Vpk.VpkEntry(0, 1, 0, 3, []), Some([7, 8, 9])) == NotOpened
    ensures Open(Vpk.VpkEntry(0, 1, 0, 3, []), Some([7, 8, 9])) == Copied([7, 8, 9])
  {
  }

  // ---------------------------------------------------------------------------------------
  // OpenFile and Exists
  // ---------------------------------------------------------------------------------------

  /**
   * OpenFile as written: the entry FindEntry gives (the default entry when the path is not
   * indexed) is opened from its archive, but only with preload bytes or a non-zero offset.
   * None from the lookup stands for the read past the list's end, which opens nothing.
   */
  function OpenFileAsWritten(a: Vpk.Archive, paks: map<nat, seq<byte>>, p: string): (r: Opened)
    requires FileList.NonNegative(a.files.entries) && FileList.KeyOf(p).depth >= 0
    ensures FileList.Valid(a.files) && a.files.entries != [] && FileList.NoDepthSkipped(a.files.entries) ==>
      (forall e :: e in a.files.entries ==> !FileList.Matches(e, FileList.KeyOf(p))) ==> r == NotOpened
    ensures FileList.Valid(a.files) && a.files.entries != [] && FileList.NoDepthSkipped(a.files.entries) ==>
      forall e :: e in a.files.entries && FileList.Matches(e, FileList.KeyOf(p)) ==>
        (forall x :: x in a.files.entries && FileList.Matches(x, FileList.KeyOf(p)) ==> x == e) ==>
        r == OpenEntryAsWritten(e.data, ArchiveOf(a.dir, paks, e.data.archiveIndex))
  {
    match FileList.FindEntryAsWritten(a.files, p, NO_ENTRY)
    case None => NotOpened
    case Some(e) => OpenEntryAsWritten(e, ArchiveOf(a.dir, paks, e.archiveIndex))
  }

  /** OpenFile with the lookup's hit deciding whether there is a file, whatever its offset. */
  function OpenFile(a: Vpk.Archive, paks: map<nat, seq<byte>>, p: string): (r: Opened)
    requires FileList.NonNegative(a.files.entries) && FileList.KeyOf(p).depth >= 0
    ensures FileList.Valid(a.files) && (forall e :: e in a.files.entries ==> !FileList.Matches(e, FileList.KeyOf(p))) ==>
      r == NotOpened
    ensures FileList.Valid(a.files) ==>
      forall e :: e in a.files.entries && FileList.Matches(e, FileList.KeyOf(p)) ==>
        (forall x :: x in a.files.entries && FileList.Matches(x, FileList.KeyOf(p)) ==> x == e) ==>
        r == Open(e.data, ArchiveOf(a.dir, paks, e.data.archiveIndex))
  {
    if !FileList.Exists(a.files, FileList.KeyOf(p), FileList.Corrected) then NotOpened
    else
      match FileList.FindEntry(a.files, p, NO_ENTRY)
      case None => NotOpened
      case Some(e) => Open(e, ArchiveOf(a.dir, paks, e.archiveIndex))
  }

  /** Exists' key: a directory's path gets a trailing '/' unless it has one. */
  function ExistsPath(p: string, isDirectory: bool): (q: string)
    requires p != []
  {
    if p[|p| - 1] != '/' && isDirectory then p + "/" else p
  }

  /** Exists: whether the file list holds the path, as a directory when asked for one. */
  predicate Exists(a: Vpk.Archive, p: string, isDirectory: bool)
    requires p != [] && FileList.NonNegative(a.files.entries)
    requires FileList.KeyOf(ExistsPath(p, isDirectory)).depth >= 0
    ensures FileList.Valid(a.files) && a.files.entries != [] && FileList.NoDepthSkipped(a.files.entries) ==>
      (Exists(a, p, isDirectory) <==>
        exists e :: e in a.files.entries && FileList.Matches(e, FileList.KeyOf(ExistsPath(p, isDirectory))))
  {
    FileList.Exists(a.files, FileList.KeyOf(ExistsPath(p, isDirectory)), FileList.AsWritten)
  }

  /** The key ends in '/' for a directory, and the path is unchanged otherwise. */
  lemma ExistsPathShape(p: string, isDirectory: bool)
    requires p != []
    ensures var q := ExistsPath(p, isDirectory);
      && q[..|p|] == p
      && (isDirectory ==> q[|q| - 1] == '/')
      && (!isDirectory ==> q == p)
      && |q| <= |p| + 1
  {
  }
}
