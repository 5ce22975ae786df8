/**
 * The VPK package reader of the fsal library: the directory file's header, its three-level
 * tree of extensions, directories and file names, the extension filter that decides which
 * files are indexed, the archive that holds a file's bytes, and how a file is opened.
 * The directory file is a byte sequence; each numbered archive is what a function gives
 * for its index (None when it cannot be opened).
 */
module Vpk {
  import opened Bytes
  import opened Wrappers
  import FileList
  import FsalFiles

  const HEADER_SIGNATURE: nat := 0x55aa1234
  const ENTRY_TERMINATOR: nat := 0xffff
  /** The archive index meaning "the directory file itself". */
  const DIR_ARCHIVE: nat := 0x7fff
  /** Signature, version and tree size: the whole version 1 header. */
  const V1_HEADER_SIZE: nat := 12
  /** The version 2 header adds four section sizes. */
  const V2_HEADER_SIZE: nat := 28
  /** CRC, preload size, archive index, offset, length and terminator. */
  const ENTRY_HEADER_SIZE: nat := 18
  /** Files without preload data below this size are copied into memory. */
  const MAX_COPIED: nat := 1024 * 16

  // ---------------------------------------------------------------------------------------
  // NUL-terminated strings
  // ---------------------------------------------------------------------------------------

  /** No NUL from lo up to hi. */
  predicate NulFree(data: seq<byte>, lo: nat, hi: nat)
    requires lo <= hi <= |data|
  {
    forall i :: lo <= i < hi ==> data[i] != 0
  }

  /** The position of the first NUL at or after pos, if there is one. */
  function Scan(data: seq<byte>, pos: nat): (r: Option<nat>)
    requires pos <= |data|
    ensures r.Some? ==> pos <= r.value < |data|
    decreases |data| - pos
  {
    if pos == |data| then None
    else if data[pos] == 0 then Some(pos)
    else Scan(data, pos + 1)
  }

  /** The scan finds the first NUL: there is none before what it finds, and none at all when it finds nothing. */
  lemma {:induction false} ScanSpec(data: seq<byte>, pos: nat)
    requires pos <= |data|
    ensures Scan(data, pos).Some? ==> data[Scan(data, pos).value] == 0 && NulFree(data, pos, Scan(data, pos).value)
    ensures Scan(data, pos).None? ==> NulFree(data, pos, |data|)
    decreases |data| - pos
  {
    if pos < |data| && data[pos] != 0 {
      ScanSpec(data, pos + 1);
    }
  }

  /** A string read and the position after it. */
  datatype Str = Str(bytes: seq<byte>, next: nat)

  /**
   * read_string: the bytes up to the first NUL, which is consumed too. A read that reaches
   * the end of the file first gives the empty string, with every byte consumed.
   */
  function ReadString(data: seq<byte>, pos: nat): (r: Str)
    requires pos <= |data|
    ensures pos <= r.next <= |data| && (r.bytes != [] ==> pos < r.next)
  {
    match Scan(data, pos)
    case Some(j) => Str(data[pos..j], j + 1)
    case None => Str([], |data|)
  }

  /**
   * What read_string delivers: a non-empty string is the NUL-free run of bytes before a NUL,
   * which is consumed; an empty string means a NUL right at pos, or no NUL before the end of
   * the file.
   */
  lemma ReadStringSpec(data: seq<byte>, pos: nat)
    requires pos <= |data|
    ensures var r := ReadString(data, pos);
      && 0 !in r.bytes
      && (r.bytes != [] ==> r.next == pos + |r.bytes| + 1 && data[pos..r.next - 1] == r.bytes && data[r.next - 1] == 0)
      && (r.bytes == [] ==> (r.next == pos + 1 && data[pos] == 0) || (r.next == |data| && 0 !in data[pos..]))
  {
    var r := ReadString(data, pos);
    var j := Scan(data, pos);
    ScanSpec(data, pos);
    if j.Some? {
      assert forall i :: 0 <= i < |r.bytes| ==> r.bytes[i] == data[pos + i];
    } else {
      assert forall i :: 0 <= i < |data[pos..]| ==> data[pos..][i] == data[pos + i];
    }
  }

  /** A NUL-free string followed by a NUL is read back whole, and reading stops after the NUL. */
  lemma ReadStringAt(data: seq<byte>, pos: nat, s: seq<byte>)
    requires At(data, pos, s + [0]) && 0 !in s
    ensures ReadString(data, pos) == Str(s, pos + |s| + 1)
  {
    AtSplit(data, pos, s, [0]);
    assert ByteAt(data, pos, s + [0], |s|);
    forall i | pos <= i < pos + |s| ensures data[i] != 0 {
      assert ByteAt(data, pos, s, i - pos);
    }
    ScanFinds(data, pos, pos + |s|);
    AtSlice(data, pos, s);
  }

  /** A NUL at j with none before it from pos: the scan stops at j. */
  lemma {:induction false} ScanFinds(data: seq<byte>, pos: nat, j: nat)
    requires pos <= j < |data| && data[j] == 0 && NulFree(data, pos, j)
    ensures Scan(data, pos) == Some(j)
    decreases j - pos
  {
    if pos < j {
      ScanFinds(data, pos + 1, j);
    }
  }

  // ---------------------------------------------------------------------------------------
  // Headers
  // ---------------------------------------------------------------------------------------

  /** What the reader keeps of the directory header: the version, the tree's size and start. */
  datatype Header = Header(version: nat, treeSize: nat, treeStart: nat)

  datatype VpkError =
    | NoDirectoryFile
    | ShortHeader
    | BadSignature
    | BadVersion
    | TreeOverrun
    | ShortEntry
    | BadTerminator
    | ShortPreload

  /**
   * The header: the first three words are read; the signature must match and the version be
   * 1 or 2; version 2 reads the full 28-byte header again from the start, so the tree
   * follows it.
   */
  function ParseHeader(data: seq<byte>): (r: Result<Header, VpkError>)
    ensures r.Success? <==>
      && |data| >= V1_HEADER_SIZE && U32(data[0..4]) == HEADER_SIGNATURE
      && U32(data[4..8]) in {1, 2} && (U32(data[4..8]) == 2 ==> |data| >= V2_HEADER_SIZE)
    ensures r.Success? ==> r.value.version == U32(data[4..8]) && r.value.treeSize == U32(data[8..12])
    ensures r.Success? ==> r.value.treeStart == (if r.value.version == 1 then V1_HEADER_SIZE else V2_HEADER_SIZE) <= |data|
  {
    if |data| < V1_HEADER_SIZE then Failure(ShortHeader)
    else if U32(data[0..4]) != HEADER_SIGNATURE then Failure(BadSignature)
    else
      var version := U32(data[4..8]);
      if version != 1 && version != 2 then Failure(BadVersion)
      else if version == 2 && |data| < V2_HEADER_SIZE then Failure(ShortHeader)
      else Success(Header(version, U32(data[8..12]), if version == 1 then V1_HEADER_SIZE else V2_HEADER_SIZE))
  }

  /** A version 1 header for a tree of the given size. */
  function HeaderBytes(treeSize: nat): (r: seq<byte>)
    requires treeSize < TWO32
    ensures |r| == V1_HEADER_SIZE
  {
    Le32(HEADER_SIGNATURE) + Le32(1) + Le32(treeSize)
  }

  /** A version 1 header is read back with its tree size, the tree starting right after it. */
  lemma HeaderRoundTrip(treeSize: nat, tree: seq<byte>)
    requires treeSize < TWO32
    ensures ParseHeader(HeaderBytes(treeSize) + tree) == Success(Header(1, treeSize, V1_HEADER_SIZE))
  {
    var data := HeaderBytes(treeSize) + tree;
    assert data[0..4] == Le32(HEADER_SIGNATURE);
    assert data[4..8] == Le32(1);
    assert data[8..12] == Le32(treeSize);
  }

  /** The fixed part of a directory entry. */
  datatype EntryHeader = EntryHeader(crc: nat, preloadBytes: nat, archiveIndex: nat,
                                     entryOffset: nat, entryLength: nat, terminator: nat)

  /** Field widths of the packed entry header. */
  predicate EntryHeaderFits(h: EntryHeader)
  {
    && h.crc < TWO32 && h.preloadBytes < TWO16 && h.archiveIndex < TWO16
    && h.entryOffset < TWO32 && h.entryLength < TWO32 && h.terminator < TWO16
  }

  /** The packed little-endian entry header. */
  function DecodeEntryHeader(b: seq<byte>): (r: EntryHeader)
    requires |b| == ENTRY_HEADER_SIZE
    ensures EntryHeaderFits(r)
    ensures r.terminator == U16(b[16..18]) && r.preloadBytes == U16(b[4..6])
  {
    EntryHeader(U32(b[0..4]), U16(b[4..6]), U16(b[6..8]), U32(b[8..12]), U32(b[12..16]), U16(b[16..18]))
  }

  function EncodeEntryHeader(h: EntryHeader): (r: seq<byte>)
    requires EntryHeaderFits(h)
    ensures |r| == ENTRY_HEADER_SIZE
  {
    Le32(h.crc) + Le16(h.preloadBytes) + Le16(h.archiveIndex) + Le32(h.entryOffset) + Le32(h.entryLength) + Le16(h.terminator)
  }

  /** Every entry header that fits its fields is decoded back from its encoding. */
  lemma EntryHeaderRoundTrip(h: EntryHeader)
    requires EntryHeaderFits(h)
    ensures DecodeEntryHeader(EncodeEntryHeader(h)) == h
  {
    var b := EncodeEntryHeader(h);
    assert b[0..4] == Le32(h.crc);
    assert b[4..6] == Le16(h.preloadBytes);
    assert b[6..8] == Le16(h.archiveIndex);
    assert b[8..12] == Le32(h.entryOffset);
    assert b[12..16] == Le32(h.entryLength);
    assert b[16..18] == Le16(h.terminator);
  }

  // ---------------------------------------------------------------------------------------
  // The directory tree
  // ---------------------------------------------------------------------------------------

  /** What the reader stores per file: the entry header's fields and, when indexed, its preload bytes. */
  datatype VpkEntry = VpkEntry(preloadBytes: nat, archiveIndex: nat, entryOffset: nat,
                               entryLength: nat, preload: seq<byte>)

  /** A file met in the tree: its extension, directory (after " " becomes "") and name. */
  datatype Listed = Listed(ext: seq<byte>, path: seq<byte>, name: seq<byte>, entry: VpkEntry)

  /**
   * The entry header after a name and the preload bytes after it. The header must be there
   * and end with the terminator; preload bytes must be there too, and are kept only when the
   * file is indexed.
   */
  function EntryAt(data: seq<byte>, pos: nat, keep: bool): (r: Result<(VpkEntry, nat), VpkError>)
    requires pos <= |data|
    ensures r.Success? ==> pos + ENTRY_HEADER_SIZE <= r.value.1 <= |data|
  {
    if |data| < pos + ENTRY_HEADER_SIZE then Failure(ShortEntry)
    else
      var h := HeaderAt(data, pos);
      if h.terminator != ENTRY_TERMINATOR then Failure(BadTerminator)
      else
        var q := pos + ENTRY_HEADER_SIZE;
        if h.preloadBytes > 0 && |data| < q + h.preloadBytes then Failure(ShortPreload)
        else
          var preload := if keep then data[q..q + h.preloadBytes] else [];
          Success((VpkEntry(h.preloadBytes, h.archiveIndex, h.entryOffset, h.entryLength, preload), q + h.preloadBytes))
  }

  /** The entry header at pos. */
  function HeaderAt(data: seq<byte>, pos: nat): EntryHeader
    requires pos + ENTRY_HEADER_SIZE <= |data|
  {
    DecodeEntryHeader(data[pos..pos + ENTRY_HEADER_SIZE])
  }

  /**
   * An entry is read exactly when its header is there and ends with the terminator and its
   * preload bytes are there; it then carries the header's fields and, when kept, the preload
   * bytes, and reading stops after them.
   */
  lemma EntryAtSpec(data: seq<byte>, pos: nat, keep: bool)
    requires pos <= |data|
    ensures var r := EntryAt(data, pos, keep);
      && (r.Success? <==>
            && pos + ENTRY_HEADER_SIZE <= |data|
            && U16(data[pos + 16..pos + 18]) == ENTRY_TERMINATOR
            && pos + ENTRY_HEADER_SIZE + U16(data[pos + 4..pos + 6]) <= |data|)
      && (r.Success? ==>
            var h := HeaderAt(data, pos);
            && r.value.1 == pos + ENTRY_HEADER_SIZE + h.preloadBytes
            && r.value.0 == VpkEntry(h.preloadBytes, h.archiveIndex, h.entryOffset, h.entryLength,
                                     if keep then data[pos + ENTRY_HEADER_SIZE..r.value.1] else []))
  {
    if pos + ENTRY_HEADER_SIZE <= |data| {
      assert data[pos..pos + ENTRY_HEADER_SIZE][16..18] == data[pos + 16..pos + 18];
      assert data[pos..pos + ENTRY_HEADER_SIZE][4..6] == data[pos + 4..pos + 6];
    }
  }

  /**
   * Where the reader stands in the tree's three nested loops: between extensions, between
   * the directories of an extension, or between the names of a directory. keep says whether
   * the current extension's files are indexed.
   */
  datatype Level =
    | InExts
    | InPaths(ext: seq<byte>, keep: bool)
    | InNames(ext: seq<byte>, path: seq<byte>, keep: bool)

  /** How deep the level is nested: leaving a loop goes one level out. */
  function Depth(l: Level): nat
  {
    match l
    case InExts => 0
    case InPaths(_, _) => 1
    case InNames(_, _, _) => 2
  }

  /** Whether files of an extension are indexed: all of them for an empty filter, else the listed ones. */
  predicate Wanted(ext: seq<byte>, filter: seq<seq<byte>>)
  {
    filter == [] || ext in filter
  }

  /** The directory a path string stands for: " " is the root. */
  function DirOf(path: seq<byte>): seq<byte>
  {
    if path == [' ' as byte] then [] else path
  }

  /** Files found before a read that continues with r. */
  function Prepend(ls: seq<Listed>, r: Result<seq<Listed>, VpkError>): Result<seq<Listed>, VpkError>
  {
    if r.Success? then Success(ls + r.value) else r
  }

  /**
   * The tree reader from pos on, at the given level, for the tree that starts at start and
   * is treeSize bytes long. The three nested loops of the reader are one walk here: each
   * level reads one string and either goes one level in or, on an empty string, one level
   * out.
   */
  function Walk(data: seq<byte>, pos: nat, start: nat, treeSize: nat, filter: seq<seq<byte>>, level: Level): (r: Result<seq<Listed>, VpkError>)
    requires start <= pos <= |data|
    ensures level.InExts? && pos - start >= treeSize ==> r == Failure(TreeOverrun)
    decreases |data| - pos, Depth(level), 3
  {
    Step(data, pos, start, treeSize, filter, level)
  }

  /** One string of the walk, read at the given level. */
  function Step(data: seq<byte>, pos: nat, start: nat, treeSize: nat, filter: seq<seq<byte>>, level: Level): (r: Result<seq<Listed>, VpkError>)
    requires start <= pos <= |data|
    ensures level.InExts? && pos - start >= treeSize ==> r == Failure(TreeOverrun)
    decreases |data| - pos, Depth(level), 2
  {
    match level
    case InExts => Exts(data, pos, start, treeSize, filter)
    case InPaths(ext, keep) => Paths(data, pos, start, treeSize, filter, ext, keep)
    case InNames(ext, path, keep) => Names(data, pos, start, treeSize, filter, ext, path, keep)
  }

  /**
   * The extensions level: the position must still be inside the tree; an empty extension
   * ends the tree, any other opens its directories.
   */
  function Exts(data: seq<byte>, pos: nat, start: nat, treeSize: nat, filter: seq<seq<byte>>): (r: Result<seq<Listed>, VpkError>)
    requires start <= pos <= |data|
    ensures pos - start >= treeSize ==> r == Failure(TreeOverrun)
    decreases |data| - pos, Depth(InExts), 1
  {
    if pos - start >= treeSize then Failure(TreeOverrun)
    else
      var ext := ReadString(data, pos);
      if ext.bytes == [] then Success([])
      else Walk(data, ext.next, start, treeSize, filter, InPaths(ext.bytes, Wanted(ext.bytes, filter)))
  }

  /** The directories level of ext: an empty directory ends it, any other opens its names. */
  function Paths(data: seq<byte>, pos: nat, start: nat, treeSize: nat, filter: seq<seq<byte>>, ext: seq<byte>, keep: bool): (r: Result<seq<Listed>, VpkError>)
    requires start <= pos <= |data|
    decreases |data| - pos, Depth(InPaths(ext, keep)), 1
  {
    var path := ReadString(data, pos);
    if path.bytes == [] then Walk(data, path.next, start, treeSize, filter, InExts)
    else Walk(data, path.next, start, treeSize, filter, InNames(ext, DirOf(path.bytes), keep))
  }

  /** The names level of a directory: an empty name ends it, any other is a file. */
  function Names(data: seq<byte>, pos: nat, start: nat, treeSize: nat, filter: seq<seq<byte>>, ext: seq<byte>, path: seq<byte>, keep: bool): (r: Result<seq<Listed>, VpkError>)
    requires start <= pos <= |data|
    decreases |data| - pos, Depth(InNames(ext, path, keep)), 1
  {
    var name := ReadString(data, pos);
    if name.bytes == [] then Walk(data, name.next, start, treeSize, filter, InPaths(ext, keep))
    else File(data, name.next, start, treeSize, filter, ext, path, name.bytes, keep)
  }

  /**
   * The file called name, whose entry starts at pos: a bad entry ends the walk, a good one
   * is listed when its extension is kept, before the rest of the directory.
   */
  function File(data: seq<byte>, pos: nat, start: nat, treeSize: nat, filter: seq<seq<byte>>, ext: seq<byte>, path: seq<byte>, name: seq<byte>, keep: bool): (r: Result<seq<Listed>, VpkError>)
    requires start <= pos <= |data|
    decreases |data| - pos, Depth(InNames(ext, path, keep)), 0
  {
    match EntryAt(data, pos, keep)
    case Failure(e) => Failure(e)
    case Success(got) =>
      var here := if keep then [Listed(ext, path, name, got.0)] else [];
      Prepend(here, Walk(data, got.1, start, treeSize, filter, InNames(ext, path, keep)))
  }

  /** The key a file is indexed under: "path/name.ext". */
  function KeyText(l: Listed): string
  {
    Chars(l.path) + "/" + Chars(l.name) + "." + Chars(l.ext)
  }

  /** The file list after adding the listed files in order. */
  function Index(ls: seq<Listed>): (r: FileList.FileList<VpkEntry>)
    ensures |r.entries| == |ls|
    ensures forall k :: 0 <= k < |ls| ==> r.entries[k] == FileList.EntryOf(KeyText(ls[k]), ls[k].entry)
  {
    if ls == [] then FileList.FileList([])
    else
      var last := ls[|ls| - 1];
      var prev := Index(ls[..|ls| - 1]);
      var r := FileList.Add(prev, last.entry, KeyText(last));
      assert r.entries == prev.entries + [FileList.EntryOf(KeyText(last), last.entry)];
      assert forall k :: 0 <= k < |ls| - 1 ==> ls[..|ls| - 1][k] == ls[k];
      r
  }

  /** An opened archive: the directory file, the files met in its tree, and their index. */
  datatype Archive = Archive(dir: seq<byte>, listed: seq<Listed>, files: FileList.FileList<VpkEntry>)

  /**
   * OpenArchive: the directory file must open; the header is read, then the tree from the
   * end of the header; the files met are indexed in order.
   */
  function OpenArchive(dir: Option<seq<byte>>, filter: seq<seq<byte>>): (r: Result<Archive, VpkError>)
    ensures dir.None? ==> r == Failure(NoDirectoryFile)
    ensures r.Success? ==> dir.Some? && r.value.dir == dir.value && r.value.files == Index(r.value.listed)
    ensures r.Success? ==> ParseHeader(dir.value).Success? && ParseHeader(dir.value).value.treeSize > 0
  {
    match dir
    case None => Failure(NoDirectoryFile)
    case Some(data) =>
      match ParseHeader(data)
      case Failure(e) => Failure(e)
      case Success(h) =>
        match Walk(data, h.treeStart, h.treeStart, h.treeSize, filter, InExts)
        case Failure(e) => Failure(e)
        case Success(listed) => Success(Archive(data, listed, Index(listed)))
  }

  // ---------------------------------------------------------------------------------------
  // The extension filter
  // ---------------------------------------------------------------------------------------

  /** The files of the wanted extensions, in order. */
  function Select(ls: seq<Listed>, filter: seq<seq<byte>>): (r: seq<Listed>)
  {
    if ls == [] then []
    else (if Wanted(ls[0].ext, filter) then [ls[0]] else []) + Select(ls[1..], filter)
  }

  /** A read's files, filtered. */
  function SelectResult(r: Result<seq<Listed>, VpkError>, filter: seq<seq<byte>>): Result<seq<Listed>, VpkError>
  {
    if r.Success? then Success(Select(r.value, filter)) else r
  }

  /** The level with its extension's files kept. */
  function KeepAll(l: Level): Level
  {
    match l
    case InExts => InExts
    case InPaths(ext, _) => InPaths(ext, true)
    case InNames(ext, path, _) => InNames(ext, path, true)
  }

  /** The level keeps exactly the files the filter wants. */
  predicate KeepsWanted(l: Level, filter: seq<seq<byte>>)
  {
    match l
    case InExts => true
    case InPaths(ext, keep) => keep == Wanted(ext, filter)
    case InNames(ext, _, keep) => keep == Wanted(ext, filter)
  }

  /** Selecting from a list with one more file in front. */
  lemma SelectCons(l: Listed, ls: seq<Listed>, filter: seq<seq<byte>>)
    ensures Select([l] + ls, filter) == (if Wanted(l.ext, filter) then [l] else []) + Select(ls, filter)
  {
    assert ([l] + ls)[0] == l && ([l] + ls)[1..] == ls;
  }

  /** Skipping a file's preload bytes moves past the same bytes as reading them. */
  lemma EntryAtKeep(data: seq<byte>, pos: nat, keep: bool)
    requires pos <= |data|
    ensures EntryAt(data, pos, keep).Success? == EntryAt(data, pos, true).Success?
    ensures EntryAt(data, pos, keep).Success? ==> EntryAt(data, pos, keep).value.1 == EntryAt(data, pos, true).value.1
    ensures EntryAt(data, pos, keep).Failure? || keep ==> EntryAt(data, pos, keep) == EntryAt(data, pos, true)
  {
  }

  /**
   * The filter changes nothing but which files are indexed: the tree is read the same way
   * and fails the same way, and what is indexed is the unfiltered files of the wanted
   * extensions, in order.
   */
  lemma {:induction false} WalkFilter(data: seq<byte>, pos: nat, start: nat, treeSize: nat, filter: seq<seq<byte>>, level: Level)
    requires start <= pos <= |data| && KeepsWanted(level, filter)
    ensures Walk(data, pos, start, treeSize, filter, level) == SelectResult(Walk(data, pos, start, treeSize, [], KeepAll(level)), filter)
    decreases |data| - pos, Depth(level)
  {
    match level
    case InExts =>
      assert Walk(data, pos, start, treeSize, filter, level) == Exts(data, pos, start, treeSize, filter);
      assert Walk(data, pos, start, treeSize, [], level) == Exts(data, pos, start, treeSize, []);
      if pos - start < treeSize {
        var ext := ReadString(data, pos);
        if ext.bytes != [] {
          assert Wanted(ext.bytes, []);
          WalkFilter(data, ext.next, start, treeSize, filter, InPaths(ext.bytes, Wanted(ext.bytes, filter)));
        }
      }
    case InPaths(ext, keep) =>
      assert Walk(data, pos, start, treeSize, filter, level) == Paths(data, pos, start, treeSize, filter, ext, keep);
      assert Walk(data, pos, start, treeSize, [], KeepAll(level)) == Paths(data, pos, start, treeSize, [], ext, true);
      var path := ReadString(data, pos);
      if path.bytes == [] {
        WalkFilter(data, path.next, start, treeSize, filter, InExts);
      } else {
        WalkFilter(data, path.next, start, treeSize, filter, InNames(ext, DirOf(path.bytes), keep));
      }
    case InNames(ext, path, keep) =>
      assert Walk(data, pos, start, treeSize, filter, level) == Names(data, pos, start, treeSize, filter, ext, path, keep);
      assert Walk(data, pos, start, treeSize, [], KeepAll(level)) == Names(data, pos, start, treeSize, [], ext, path, true);
      var name := ReadString(data, pos);
      if name.bytes == [] {
        WalkFilter(data, name.next, start, treeSize, filter, InPaths(ext, keep));
      } else {
        EntryAtKeep(data, name.next, keep);
        assert Names(data, pos, start, treeSize, filter, ext, path, keep) == File(data, name.next, start, treeSize, filter, ext, path, name.bytes, keep);
        assert Names(data, pos, start, treeSize, [], ext, path, true) == File(data, name.next, start, treeSize, [], ext, path, name.bytes, true);
        var got := EntryAt(data, name.next, true);
        if got.Success? {
          WalkFilter(data, got.value.1, start, treeSize, filter, InNames(ext, path, keep));
          var rest := Walk(data, got.value.1, start, treeSize, [], InNames(ext, path, true));
          if rest.Success? {
            SelectCons(Listed(ext, path, name.bytes, got.value.0), rest.value, filter);
          }
        }
      }
  }

  // ---------------------------------------------------------------------------------------
  // Writing a tree, and reading it back
  // ---------------------------------------------------------------------------------------

  /** A file as the tree stores it: its name, its entry header and its preload bytes. */
  datatype FileRecord = FileRecord(name: seq<byte>, header: EntryHeader, preload: seq<byte>)

  /** A directory of one extension and its files. */
  datatype Directory = Directory(path: seq<byte>, files: seq<FileRecord>)

  /** An extension and its directories. */
  datatype Extension = Extension(ext: seq<byte>, dirs: seq<Directory>)

  /** A string the tree can hold: an empty one would end its level. */
  predicate StringOk(s: seq<byte>)
  {
    s != [] && 0 !in s
  }

  predicate RecordOk(f: FileRecord)
  {
    && StringOk(f.name) && EntryHeaderFits(f.header)
    && f.header.terminator == ENTRY_TERMINATOR && f.header.preloadBytes == |f.preload|
  }

  predicate RecordsOk(fs: seq<FileRecord>)
  {
    fs == [] || (RecordOk(fs[0]) && RecordsOk(fs[1..]))
  }

  predicate DirectoriesOk(ds: seq<Directory>)
  {
    ds == [] || (StringOk(ds[0].path) && RecordsOk(ds[0].files) && DirectoriesOk(ds[1..]))
  }

  predicate ExtensionsOk(es: seq<Extension>)
  {
    es == [] || (StringOk(es[0].ext) && DirectoriesOk(es[0].dirs) && ExtensionsOk(es[1..]))
  }

  function RecordBytes(f: FileRecord): seq<byte>
    requires EntryHeaderFits(f.header)
  {
    f.name + [0] + EncodeEntryHeader(f.header) + f.preload
  }

  /** The names level: each file's record, then an empty name. */
  function FilesBytes(fs: seq<FileRecord>): (r: seq<byte>)
    requires RecordsOk(fs)
    ensures r != []
  {
    if fs == [] then [0] else RecordBytes(fs[0]) + FilesBytes(fs[1..])
  }

  /** The directories level: each directory and its names level, then an empty directory. */
  function DirsBytes(ds: seq<Directory>): (r: seq<byte>)
    requires DirectoriesOk(ds)
    ensures r != []
  {
    if ds == [] then [0] else ds[0].path + [0] + FilesBytes(ds[0].files) + DirsBytes(ds[1..])
  }

  /** The whole tree: each extension and its directories level, then an empty extension. */
  function TreeBytes(es: seq<Extension>): (r: seq<byte>)
    requires ExtensionsOk(es)
    ensures r != []
  {
    if es == [] then [0] else es[0].ext + [0] + DirsBytes(es[0].dirs) + TreeBytes(es[1..])
  }

  /** What the reader keeps of a record. */
  function EntryOfRecord(f: FileRecord): VpkEntry
  {
    VpkEntry(f.header.preloadBytes, f.header.archiveIndex, f.header.entryOffset, f.header.entryLength, f.preload)
  }

  function FilesListed(ext: seq<byte>, path: seq<byte>, fs: seq<FileRecord>): seq<Listed>
  {
    if fs == [] then [] else [Listed(ext, path, fs[0].name, EntryOfRecord(fs[0]))] + FilesListed(ext, path, fs[1..])
  }

  function DirsListed(ext: seq<byte>, ds: seq<Directory>): seq<Listed>
  {
    if ds == [] then [] else FilesListed(ext, DirOf(ds[0].path), ds[0].files) + DirsListed(ext, ds[1..])
  }

  function TreeListed(es: seq<Extension>): seq<Listed>
  {
    if es == [] then [] else DirsListed(es[0].ext, es[0].dirs) + TreeListed(es[1..])
  }

  /** An entry header and preload bytes in place: the entry is read back whole. */
  lemma EntryAtOf(data: seq<byte>, pos: nat, f: FileRecord)
    requires RecordOk(f) && At(data, pos, EncodeEntryHeader(f.header) + f.preload)
    ensures EntryAt(data, pos, true) == Success((EntryOfRecord(f), pos + ENTRY_HEADER_SIZE + |f.preload|))
  {
    AtSplit(data, pos, EncodeEntryHeader(f.header), f.preload);
    EntryHeaderRoundTrip(f.header);
    AtSlice(data, pos, EncodeEntryHeader(f.header));
    AtSlice(data, pos + ENTRY_HEADER_SIZE, f.preload);
    assert HeaderAt(data, pos) == f.header;
  }

  /** A record in place: its name and its entry are read back, and reading stops after it. */
  lemma RecordAt(data: seq<byte>, pos: nat, f: FileRecord)
    requires RecordOk(f) && At(data, pos, RecordBytes(f))
    ensures ReadString(data, pos) == Str(f.name, pos + |f.name| + 1)
    ensures EntryAt(data, pos + |f.name| + 1, true) == Success((EntryOfRecord(f), pos + |RecordBytes(f)|))
  {
    var head := f.name + [0];
    assert RecordBytes(f) == head + (EncodeEntryHeader(f.header) + f.preload);
    AtSplit(data, pos, head, EncodeEntryHeader(f.header) + f.preload);
    ReadStringAt(data, pos, f.name);
    EntryAtOf(data, pos + |head|, f);
  }

  /** An empty string ends a level. */
  lemma EndAt(data: seq<byte>, pos: nat)
    requires At(data, pos, [0])
    ensures ReadString(data, pos) == Str([], pos + 1)
  {
    assert [0] == [] + [0];
    ReadStringAt(data, pos, []);
  }

  /** Files found before files found before r. */
  lemma PrependPrepend(a: seq<Listed>, b: seq<Listed>, r: Result<seq<Listed>, VpkError>)
    ensures Prepend(a, Prepend(b, r)) == Prepend(a + b, r)
  {
    if r.Success? {
      assert a + (b + r.value) == (a + b) + r.value;
    }
  }

  /** Nothing found before r. */
  lemma PrependNothing(r: Result<seq<Listed>, VpkError>)
    ensures Prepend([], r) == r
  {
    if r.Success? {
      assert [] + r.value == r.value;
    }
  }

  /** An empty name ends a directory. */
  lemma NamesEnd(data: seq<byte>, pos: nat, start: nat, treeSize: nat, filter: seq<seq<byte>>, ext: seq<byte>, path: seq<byte>, keep: bool)
    requires start <= pos && pos + 1 <= |data| && ReadString(data, pos) == Str([], pos + 1)
    ensures Walk(data, pos, start, treeSize, filter, InNames(ext, path, keep)) == Walk(data, pos + 1, start, treeSize, filter, InPaths(ext, keep))
  {
    assert Walk(data, pos, start, treeSize, filter, InNames(ext, path, keep)) == Names(data, pos, start, treeSize, filter, ext, path, keep);
  }

  /** A name and its entry: the file is listed before the rest of the directory. */
  lemma NamesStep(data: seq<byte>, pos: nat, start: nat, treeSize: nat, ext: seq<byte>, path: seq<byte>, name: seq<byte>, e: VpkEntry, n: nat)
    requires start <= pos <= |data| && ReadString(data, pos) == Str(name, pos + |name| + 1) && name != []
    requires EntryAt(data, pos + |name| + 1, true) == Success((e, n))
    ensures n <= |data|
    ensures Walk(data, pos, start, treeSize, [], InNames(ext, path, true))
         == Prepend([Listed(ext, path, name, e)], Walk(data, n, start, treeSize, [], InNames(ext, path, true)))
  {
    assert Walk(data, pos, start, treeSize, [], InNames(ext, path, true)) == Names(data, pos, start, treeSize, [], ext, path, true);
    assert Names(data, pos, start, treeSize, [], ext, path, true) == File(data, pos + |name| + 1, start, treeSize, [], ext, path, name, true);
  }

  /** An empty directory ends an extension. */
  lemma PathsEnd(data: seq<byte>, pos: nat, start: nat, treeSize: nat, filter: seq<seq<byte>>, ext: seq<byte>, keep: bool)
    requires start <= pos && pos + 1 <= |data| && ReadString(data, pos) == Str([], pos + 1)
    ensures Walk(data, pos, start, treeSize, filter, InPaths(ext, keep)) == Walk(data, pos + 1, start, treeSize, filter, InExts)
  {
    assert Walk(data, pos, start, treeSize, filter, InPaths(ext, keep)) == Paths(data, pos, start, treeSize, filter, ext, keep);
  }

  /** A directory: its names follow. */
  lemma PathsStep(data: seq<byte>, pos: nat, start: nat, treeSize: nat, filter: seq<seq<byte>>, ext: seq<byte>, keep: bool, path: seq<byte>)
    requires start <= pos <= |data| && ReadString(data, pos) == Str(path, pos + |path| + 1) && path != []
    ensures Walk(data, pos, start, treeSize, filter, InPaths(ext, keep))
         == Walk(data, pos + |path| + 1, start, treeSize, filter, InNames(ext, DirOf(path), keep))
  {
    assert Walk(data, pos, start, treeSize, filter, InPaths(ext, keep)) == Paths(data, pos, start, treeSize, filter, ext, keep);
  }

  /** An empty extension inside the tree ends it. */
  lemma ExtsEnd(data: seq<byte>, pos: nat, start: nat, treeSize: nat, filter: seq<seq<byte>>)
    requires start <= pos && pos + 1 <= |data| && pos - start < treeSize && ReadString(data, pos) == Str([], pos + 1)
    ensures Walk(data, pos, start, treeSize, filter, InExts) == Success([])
  {
    assert Walk(data, pos, start, treeSize, filter, InExts) == Exts(data, pos, start, treeSize, filter);
  }

  /** An extension inside the tree: its directories follow. */
  lemma ExtsStep(data: seq<byte>, pos: nat, start: nat, treeSize: nat, ext: seq<byte>)
    requires start <= pos <= |data| && pos - start < treeSize
    requires ReadString(data, pos) == Str(ext, pos + |ext| + 1) && ext != []
    ensures Walk(data, pos, start, treeSize, [], InExts) == Walk(data, pos + |ext| + 1, start, treeSize, [], InPaths(ext, true))
  {
    assert Walk(data, pos, start, treeSize, [], InExts) == Exts(data, pos, start, treeSize, []);
    assert Wanted(ext, []);
  }

  /** The first record of a names level in place: its file comes first, then the rest of the level. */
  lemma FilesFirst(data: seq<byte>, pos: nat, start: nat, treeSize: nat, ext: seq<byte>, path: seq<byte>, f: FileRecord, tail: seq<byte>)
    requires RecordOk(f) && At(data, pos, RecordBytes(f) + tail) && start <= pos
    ensures At(data, pos + |RecordBytes(f)|, tail)
    ensures Walk(data, pos, start, treeSize, [], InNames(ext, path, true))
         == Prepend([Listed(ext, path, f.name, EntryOfRecord(f))], Walk(data, pos + |RecordBytes(f)|, start, treeSize, [], InNames(ext, path, true)))
  {
    AtSplit(data, pos, RecordBytes(f), tail);
    RecordAt(data, pos, f);
    NamesStep(data, pos, start, treeSize, ext, path, f.name, EntryOfRecord(f), pos + |RecordBytes(f)|);
  }

  /** An empty names level in place: the directories level goes on right after it. */
  lemma FilesNone(data: seq<byte>, pos: nat, start: nat, treeSize: nat, ext: seq<byte>, path: seq<byte>)
    requires At(data, pos, [0]) && start <= pos
    ensures Walk(data, pos, start, treeSize, [], InNames(ext, path, true))
         == Prepend([], Walk(data, pos + 1, start, treeSize, [], InPaths(ext, true)))
  {
    EndAt(data, pos);
    NamesEnd(data, pos, start, treeSize, [], ext, path, true);
    PrependNothing(Walk(data, pos + 1, start, treeSize, [], InPaths(ext, true)));
  }

  /** A names level in place: its files are listed, then the directories level goes on after it. */
  lemma {:induction false} FilesRoundTrip(data: seq<byte>, pos: nat, start: nat, treeSize: nat, ext: seq<byte>, path: seq<byte>, fs: seq<FileRecord>)
    requires RecordsOk(fs) && At(data, pos, FilesBytes(fs)) && start <= pos
    ensures Walk(data, pos, start, treeSize, [], InNames(ext, path, true))
         == Prepend(FilesListed(ext, path, fs), Walk(data, pos + |FilesBytes(fs)|, start, treeSize, [], InPaths(ext, true)))
    decreases |fs|
  {
    if fs == [] {
      FilesNone(data, pos, start, treeSize, ext, path);
    } else {
      var f := fs[0];
      var tail := FilesBytes(fs[1..]);
      var next := pos + |RecordBytes(f)|;
      assert FilesBytes(fs) == RecordBytes(f) + tail;
      FilesFirst(data, pos, start, treeSize, ext, path, f, tail);
      FilesRoundTrip(data, next, start, treeSize, ext, path, fs[1..]);
      PrependPrepend([Listed(ext, path, f.name, EntryOfRecord(f))], FilesListed(ext, path, fs[1..]),
                     Walk(data, next + |tail|, start, treeSize, [], InPaths(ext, true)));
    }
  }

  /** The first directory of a directories level in place: its files come first, then the rest of the level. */
  lemma DirsFirst(data: seq<byte>, pos: nat, start: nat, treeSize: nat, ext: seq<byte>, d: Directory, tail: seq<byte>)
    requires StringOk(d.path) && RecordsOk(d.files) && start <= pos
    requires At(data, pos, d.path + [0] + FilesBytes(d.files) + tail)
    ensures At(data, pos + |d.path| + 1 + |FilesBytes(d.files)|, tail)
    ensures Walk(data, pos, start, treeSize, [], InPaths(ext, true))
         == Prepend(FilesListed(ext, DirOf(d.path), d.files),
                    Walk(data, pos + |d.path| + 1 + |FilesBytes(d.files)|, start, treeSize, [], InPaths(ext, true)))
  {
    var head := d.path + [0];
    var files := FilesBytes(d.files);
    var mid := pos + |head|;
    assert head + files + tail == head + (files + tail);
    AtSplit(data, pos, head, files + tail);
    AtSplit(data, mid, files, tail);
    ReadStringAt(data, pos, d.path);
    PathsStep(data, pos, start, treeSize, [], ext, true, d.path);
    FilesRoundTrip(data, mid, start, treeSize, ext, DirOf(d.path), d.files);
  }

  /** An empty directories level in place: the extensions level goes on right after it. */
  lemma DirsNone(data: seq<byte>, pos: nat, start: nat, treeSize: nat, ext: seq<byte>)
    requires At(data, pos, [0]) && start <= pos
    ensures Walk(data, pos, start, treeSize, [], InPaths(ext, true))
         == Prepend([], Walk(data, pos + 1, start, treeSize, [], InExts))
  {
    EndAt(data, pos);
    PathsEnd(data, pos, start, treeSize, [], ext, true);
    PrependNothing(Walk(data, pos + 1, start, treeSize, [], InExts));
  }

  /** A directories level in place: the files of its directories, then the extensions level goes on after it. */
  lemma {:induction false} DirsRoundTrip(data: seq<byte>, pos: nat, start: nat, treeSize: nat, ext: seq<byte>, ds: seq<Directory>)
    requires DirectoriesOk(ds) && At(data, pos, DirsBytes(ds)) && start <= pos
    ensures Walk(data, pos, start, treeSize, [], InPaths(ext, true))
         == Prepend(DirsListed(ext, ds), Walk(data, pos + |DirsBytes(ds)|, start, treeSize, [], InExts))
    decreases |ds|
  {
    if ds == [] {
      DirsNone(data, pos, start, treeSize, ext);
    } else {
      var d := ds[0];
      var tail := DirsBytes(ds[1..]);
      var next := pos + |d.path| + 1 + |FilesBytes(d.files)|;
      DirsFirst(data, pos, start, treeSize, ext, d, tail);
      DirsRoundTrip(data, next, start, treeSize, ext, ds[1..]);
      PrependPrepend(FilesListed(ext, DirOf(d.path), d.files), DirsListed(ext, ds[1..]),
                     Walk(data, next + |tail|, start, treeSize, [], InExts));
    }
  }

  /** A tree in place, inside the declared tree size, is read back as all its files. */
  lemma {:induction false} TreeRoundTrip(data: seq<byte>, pos: nat, start: nat, treeSize: nat, es: seq<Extension>)
    requires ExtensionsOk(es) && At(data, pos, TreeBytes(es))
    requires start <= pos && pos - start + |TreeBytes(es)| <= treeSize
    ensures Walk(data, pos, start, treeSize, [], InExts) == Success(TreeListed(es))
    decreases |es|
  {
    if es == [] {
      EndAt(data, pos);
      ExtsEnd(data, pos, start, treeSize, []);
    } else {
      var e := es[0];
      var head := e.ext + [0];
      var dirs := DirsBytes(e.dirs);
      var tail := TreeBytes(es[1..]);
      var mid := pos + |head|;
      var next := mid + |dirs|;
      assert TreeBytes(es) == head + (dirs + tail);
      assert At(data, pos, head) && At(data, mid, dirs) && At(data, next, tail) by {
        AtSplit(data, pos, head, dirs + tail);
        AtSplit(data, mid, dirs, tail);
      }
      assert Walk(data, pos, start, treeSize, [], InExts) == Walk(data, mid, start, treeSize, [], InPaths(e.ext, true)) by {
        ReadStringAt(data, pos, e.ext);
        ExtsStep(data, pos, start, treeSize, e.ext);
      }
      assert Walk(data, mid, start, treeSize, [], InPaths(e.ext, true))
          == Prepend(DirsListed(e.ext, e.dirs), Walk(data, next, start, treeSize, [], InExts)) by {
        DirsRoundTrip(data, mid, start, treeSize, e.ext, e.dirs);
      }
      assert Walk(data, next, start, treeSize, [], InExts) == Success(TreeListed(es[1..])) by {
        TreeRoundTrip(data, next, start, treeSize, es[1..]);
      }
    }
  }

  /** A directory file holding a version 1 header and a tree. */
  function DirectoryFile(es: seq<Extension>): seq<byte>
    requires ExtensionsOk(es) && |TreeBytes(es)| < TWO32
  {
    HeaderBytes(|TreeBytes(es)|) + TreeBytes(es)
  }

  /**
   * Opening a written directory file indexes exactly the files of the wanted extensions, in
   * the order the tree lists them, each with its entry and preload bytes.
   */
  lemma ArchiveRoundTrip(es: seq<Extension>, filter: seq<seq<byte>>)
    requires ExtensionsOk(es) && |TreeBytes(es)| < TWO32
    ensures var data := DirectoryFile(es); var ls := Select(TreeListed(es), filter);
      OpenArchive(Some(data), filter) == Success(Archive(data, ls, Index(ls)))
  {
    var tree := TreeBytes(es);
    var data := DirectoryFile(es);
    HeaderRoundTrip(|tree|, tree);
    assert At(data, V1_HEADER_SIZE, tree) by {
      forall i | 0 <= i < |tree| ensures ByteAt(data, V1_HEADER_SIZE, tree, i) {
        assert data[V1_HEADER_SIZE + i] == tree[i];
      }
    }
    TreeRoundTrip(data, V1_HEADER_SIZE, V1_HEADER_SIZE, |tree|, es);
    WalkFilter(data, V1_HEADER_SIZE, V1_HEADER_SIZE, |tree|, filter, InExts);
  }
}
