/**
 * The outer layer of the BSP parser: the file header with its 64-entry lump directory,
 * the record-count validation of fixed-size lumps, and the order in which the parser
 * visits the lumps it needs.
 *
 * The file is an in-memory byte sequence: a read of n bytes at position p succeeds exactly
 * when p + n does not pass the end, and a seek always succeeds.
 */
module BspHeader {
  import opened Bytes
  import opened Wrappers

  const HEADER_LUMP_CNT: nat := 64
  /** identifier, version, 64 directory entries of 16 bytes, map revision */
  const HEADER_SIZE: nat := 8 + 16 * 64 + 4

  /** 'V' | 'B' << 8 | 'S' << 16 | 'P' << 24: "VBSP" read little-endian. */
  const VBSP: nat := 0x5053_4256
  /** The same four characters read big-endian. */
  const PSBV: nat := 0x5642_5350
  const SUPPORTED_VERSION: nat := 21

  datatype LumpDirEntry = LumpDirEntry(fileOffset: nat, fileLen: nat, version: nat, fourCC: nat)
  datatype Header = Header(identifier: nat, version: nat, lumpDir: seq<LumpDirEntry>, mapRevision: nat)

  datatype BspError =
    | ReadError
    | BigEndian
    | UnknownFormat(identifier: nat)
    | UnsupportedVersion(version: nat)
    | InvalidLumpLength(lumpLen: nat)
    | TooManyRecords(count: nat)
    | NotNullTerminated
    | InvalidDispPower(power: nat)
    | Compressed(lump: nat)
    | ReaderPastLump(lump: nat)
    | LumpFailed(lump: nat)

  /** The little-endian u32 at a byte offset. */
  function U32At(data: seq<byte>, off: nat): (r: nat)
    requires off + 4 <= |data|
    ensures r < TWO32
  {
    U32(data[off..off + 4])
  }

  /** Directory entry i: file offset, length, version and fourCC, 16 bytes from byte 8 + 16 i. */
  function LumpEntryAt(data: seq<byte>, i: nat): LumpDirEntry
    requires 8 + 16 * i + 16 <= |data|
  {
    var w := data[8 + 16 * i..8 + 16 * i + 16];
    LumpDirEntry(U32(w[0..4]), U32(w[4..8]), U32(w[8..12]), U32(w[12..16]))
  }

  /**
   * ParseHeader: the header and whether a newer-version warning goes with it. The identifier
   * and version are read first; a big-endian or unknown identifier and a version below 21 are
   * errors, a version above 21 only warns; then the directory and map revision are read.
   */
  function ParseHeader(data: seq<byte>): (r: Result<(Header, bool), BspError>)
    ensures |data| < 8 ==> r == Failure(ReadError)
    ensures r.Success? ==>
      && |data| >= HEADER_SIZE && r.value.0.identifier == VBSP
      && r.value.0.version >= SUPPORTED_VERSION && |r.value.0.lumpDir| == HEADER_LUMP_CNT
      && (r.value.1 <==> r.value.0.version > SUPPORTED_VERSION)
  {
    if |data| < 8 then Failure(ReadError)
    else
      var identifier := U32At(data, 0);
      var version := U32At(data, 4);
      if identifier == VBSP then
        if version < SUPPORTED_VERSION then Failure(UnsupportedVersion(version))
        else if |data| < HEADER_SIZE then Failure(ReadError)
        else
          var dir := seq(HEADER_LUMP_CNT, i requires 0 <= i < HEADER_LUMP_CNT => LumpEntryAt(data, i));
          Success((Header(identifier, version, dir, U32At(data, 8 + 16 * HEADER_LUMP_CNT)), version > SUPPORTED_VERSION))
      else if identifier == PSBV then Failure(BigEndian)
      else Failure(UnknownFormat(identifier))
  }

  /** The identifier is "VBSP" in file order; the same characters swapped read as PSBV. */
  lemma MagicBytes()
    ensures U32(['V' as byte, 'B' as byte, 'S' as byte, 'P' as byte]) == VBSP
    ensures U32(['P' as byte, 'S' as byte, 'B' as byte, 'V' as byte]) == PSBV
  {
  }

  /** A file shorter than a header, or with a foreign identifier or old version, is rejected with that reason. */
  lemma HeaderRejects(data: seq<byte>)
    requires |data| >= 8
    ensures U32At(data, 0) == PSBV ==> ParseHeader(data) == Failure(BigEndian)
    ensures U32At(data, 0) != VBSP && U32At(data, 0) != PSBV ==> ParseHeader(data) == Failure(UnknownFormat(U32At(data, 0)))
    ensures U32At(data, 0) == VBSP && U32At(data, 4) < SUPPORTED_VERSION ==>
      ParseHeader(data) == Failure(UnsupportedVersion(U32At(data, 4)))
    ensures U32At(data, 0) == VBSP && U32At(data, 4) >= SUPPORTED_VERSION && |data| < HEADER_SIZE ==>
      ParseHeader(data) == Failure(ReadError)
  {
  }

  // ---------------------------------------------------------------------------------------
  // Encoding, the partner of ParseHeader
  // ---------------------------------------------------------------------------------------

  predicate EntryFits(e: LumpDirEntry)
  {
    e.fileOffset < TWO32 && e.fileLen < TWO32 && e.version < TWO32 && e.fourCC < TWO32
  }

  /** A header the format can hold: a valid identifier and version and 64 32-bit entries. */
  predicate HeaderFits(h: Header)
  {
    && h.identifier == VBSP && SUPPORTED_VERSION <= h.version < TWO32 && h.mapRevision < TWO32
    && |h.lumpDir| == HEADER_LUMP_CNT
    && forall i :: 0 <= i < |h.lumpDir| ==> EntryFits(h.lumpDir[i])
  }

  function EncodeEntry(e: LumpDirEntry): (r: seq<byte>)
    requires EntryFits(e)
    ensures |r| == 16
  {
    Le32(e.fileOffset) + Le32(e.fileLen) + Le32(e.version) + Le32(e.fourCC)
  }

  function EncodeEntries(es: seq<LumpDirEntry>): (r: seq<byte>)
    requires forall i :: 0 <= i < |es| ==> EntryFits(es[i])
    ensures |r| == 16 * |es|
  {
    if es == [] then [] else EncodeEntry(es[0]) + EncodeEntries(es[1..])
  }

  /** The bytes of a header as the map compiler writes them. */
  function EncodeHeader(h: Header): (r: seq<byte>)
    requires HeaderFits(h)
    ensures |r| == HEADER_SIZE
  {
    Le32(h.identifier) + Le32(h.version) + EncodeEntries(h.lumpDir) + Le32(h.mapRevision)
  }

  /** Entry i of an encoded directory sits 16 i bytes in. */
  lemma {:induction false} EncodedEntryAt(es: seq<LumpDirEntry>, i: nat)
    requires forall k :: 0 <= k < |es| ==> EntryFits(es[k])
    requires i < |es|
    ensures EncodeEntries(es)[16 * i..16 * i + 16] == EncodeEntry(es[i])
  {
    var head := EncodeEntry(es[0]);
    var tail := EncodeEntries(es[1..]);
    assert EncodeEntries(es) == head + tail;
    if i > 0 {
      EncodedEntryAt(es[1..], i - 1);
      SliceAfter(head, tail, 16 * (i - 1), 16 * (i - 1) + 16);
    } else {
      assert (head + tail)[0..16] == head;
    }
  }

  /** Slicing past a prefix slices the rest. */
  lemma SliceAfter<T>(a: seq<T>, b: seq<T>, x: nat, y: nat)
    requires x <= y <= |b|
    ensures (a + b)[|a| + x..|a| + y] == b[x..y]
  {
  }

  /** An encoded entry decodes to itself. */
  lemma EntryRoundTrip(data: seq<byte>, i: nat, e: LumpDirEntry)
    requires EntryFits(e) && 8 + 16 * i + 16 <= |data|
    requires data[8 + 16 * i..8 + 16 * i + 16] == EncodeEntry(e)
    ensures LumpEntryAt(data, i) == e
  {
    var w := data[8 + 16 * i..8 + 16 * i + 16];
    var a, b, c, d := Le32(e.fileOffset), Le32(e.fileLen), Le32(e.version), Le32(e.fourCC);
    assert w == a + b + c + d;
    assert w[0..4] == a && w[4..8] == b && w[8..12] == c && w[12..16] == d;
  }

  /** The directory of an encoded header decodes entry by entry. */
  lemma DirRoundTrip(h: Header, rest: seq<byte>)
    requires HeaderFits(h)
    ensures var data := EncodeHeader(h) + rest;
      seq(HEADER_LUMP_CNT, i requires 0 <= i < HEADER_LUMP_CNT => LumpEntryAt(data, i)) == h.lumpDir
  {
    var data := EncodeHeader(h) + rest;
    var front := Le32(h.identifier) + Le32(h.version);
    var entries := EncodeEntries(h.lumpDir);
    assert data == front + (entries + (Le32(h.mapRevision) + rest));
    forall i | 0 <= i < HEADER_LUMP_CNT
      ensures LumpEntryAt(data, i) == h.lumpDir[i]
    {
      EncodedEntryAt(h.lumpDir, i);
      SliceAfter(front, entries + (Le32(h.mapRevision) + rest), 16 * i, 16 * i + 16);
      assert (entries + (Le32(h.mapRevision) + rest))[16 * i..16 * i + 16] == entries[16 * i..16 * i + 16];
      EntryRoundTrip(data, i, h.lumpDir[i]);
    }
  }

  /** Parsing an encoded header, whatever follows it, gives back the header and its warning. */
  lemma HeaderRoundTrip(h: Header, rest: seq<byte>)
    requires HeaderFits(h)
    ensures ParseHeader(EncodeHeader(h) + rest) == Success((h, h.version > SUPPORTED_VERSION))
  {
    var data := EncodeHeader(h) + rest;
    var front := Le32(h.identifier) + Le32(h.version) + EncodeEntries(h.lumpDir);
    assert data == front + (Le32(h.mapRevision) + rest);
    assert data[0..4] == Le32(h.identifier);
    assert data[4..8] == Le32(h.version);
    SliceAfter(front, Le32(h.mapRevision) + rest, 0, 4);
    DirRoundTrip(h, rest);
  }

  // ---------------------------------------------------------------------------------------
  // Lumps and fixed-size records
  // ---------------------------------------------------------------------------------------

  /** The lumps the parser reads. */
  datatype Lump =
    | Entities | Planes | TexData | Vertexes | Nodes | TexInfo | Faces | Leafs | Edges
    | SurfEdges | Models | LeafFaces | LeafBrushes | Brushes | BrushSides | DispInfo
    | OriginalFaces | DispVerts | GameLump | Pakfile | TexDataStringData | TexDataStringTable
    | DispTris

  /** The directory slot of each lump, as numbered by Valve's BSP format. */
  function LumpIndex(l: Lump): (n: nat)
    ensures n < HEADER_LUMP_CNT
  {
    match l
    case Entities => 0
    case Planes => 1
    case TexData => 2
    case Vertexes => 3
    case Nodes => 5
    case TexInfo => 6
    case Faces => 7
    case Leafs => 10
    case Edges => 12
    case SurfEdges => 13
    case Models => 14
    case LeafFaces => 16
    case LeafBrushes => 17
    case Brushes => 18
    case BrushSides => 19
    case DispInfo => 26
    case OriginalFaces => 27
    case DispVerts => 33
    case GameLump => 35
    case Pakfile => 40
    case TexDataStringData => 43
    case TexDataStringTable => 44
    case DispTris => 48
  }

  /** Different lumps live in different directory slots. */
  lemma LumpIndexInjective(a: Lump, b: Lump)
    ensures LumpIndex(a) == LumpIndex(b) ==> a == b
  {
  }

  /** The lumps ParseLumpData requires, in the order it lists them. */
  function RequiredLumps(): (r: seq<Lump>)
    ensures |r| == 23 && forall i :: 0 <= i < 23 ==> r[i] == RequiredLump(i)
  {
    seq(23, i requires 0 <= i < 23 => RequiredLump(i))
  }

  function RequiredLump(i: nat): Lump
    requires i < 23
  {
    match i
    case 0 => Entities
    case 1 => Planes
    case 2 => Vertexes
    case 3 => Edges
    case 4 => SurfEdges
    case 5 => Faces
    case 6 => OriginalFaces
    case 7 => DispVerts
    case 8 => DispTris
    case 9 => DispInfo
    case 10 => TexInfo
    case 11 => TexData
    case 12 => TexDataStringTable
    case 13 => TexDataStringData
    case 14 => Brushes
    case 15 => BrushSides
    case 16 => Nodes
    case 17 => Leafs
    case 18 => LeafFaces
    case 19 => LeafBrushes
    case 20 => Models
    case 21 => GameLump
    case _ => Pakfile
  }

  /** The position of each lump in the required list. */
  function RequiredPosition(l: Lump): (i: nat)
    ensures i < 23 && RequiredLump(i) == l
  {
    match l
    case Entities => 0
    case Planes => 1
    case Vertexes => 2
    case Edges => 3
    case SurfEdges => 4
    case Faces => 5
    case OriginalFaces => 6
    case DispVerts => 7
    case DispTris => 8
    case DispInfo => 9
    case TexInfo => 10
    case TexData => 11
    case TexDataStringTable => 12
    case TexDataStringData => 13
    case Brushes => 14
    case BrushSides => 15
    case Nodes => 16
    case Leafs => 17
    case LeafFaces => 18
    case LeafBrushes => 19
    case Models => 20
    case GameLump => 21
    case Pakfile => 22
  }

  lemma RequiredPositionOf(i: nat)
    requires i < 23
    ensures RequiredPosition(RequiredLump(i)) == i
  {
  }

  /** Every lump the parser knows is required. */
  lemma RequiredLumpsComplete(l: Lump)
    ensures l in RequiredLumps()
  {
    assert RequiredLumps()[RequiredPosition(l)] == l;
  }

  /** ... and required once. */
  lemma RequiredLumpsDistinct()
    ensures Distinct(RequiredLumps())
  {
    forall i, j | 0 <= i < j < |RequiredLumps()| ensures RequiredLumps()[i] != RequiredLumps()[j] {
      RequiredPositionOf(i);
      RequiredPositionOf(j);
    }
  }

  /** Bytes per record of a fixed-size lump; None for the lumps parsed otherwise. */
  function RecordSize(l: Lump): (r: Option<nat>)
    ensures r.Some? ==> r.value > 0
    ensures r.None? <==> l in {Entities, TexDataStringData, GameLump, Pakfile}
  {
    match l
    case Planes => Some(20)
    case Vertexes => Some(12)
    case Edges => Some(4)
    case SurfEdges => Some(4)
    case Faces => Some(56)
    case OriginalFaces => Some(56)
    case DispVerts => Some(20)
    case DispTris => Some(2)
    case DispInfo => Some(176)
    case TexInfo => Some(72)
    case TexData => Some(32)
    case TexDataStringTable => Some(4)
    case Brushes => Some(12)
    case BrushSides => Some(8)
    case Nodes => Some(32)
    case Leafs => Some(32)
    case LeafFaces => Some(2)
    case LeafBrushes => Some(2)
    case Models => Some(48)
    case _ => None
  }

  const MAX_DISPINFOS: nat := 32768
  const MIN_DISP_POWER: nat := 2
  const MAX_DISP_POWER: nat := 4
  const MAX_TEXDATAS: nat := 2048
  const MAX_TEXDATA_STRING_DATA: nat := 256000

  /** The most records each fixed-size lump may hold. */
  function MaxRecords(l: Lump): nat
  {
    match l
    case Planes => 65536
    case Vertexes => 65536
    case Edges => 256000
    case SurfEdges => 512000
    case Faces => 65536
    case OriginalFaces => 65536
    case DispVerts => MAX_DISPINFOS * (Pow2Small(MAX_DISP_POWER) + 1) * (Pow2Small(MAX_DISP_POWER) + 1)
    case DispTris => MAX_DISPINFOS * 2 * Pow2Small(MAX_DISP_POWER) * Pow2Small(MAX_DISP_POWER)
    case DispInfo => MAX_DISPINFOS
    case TexInfo => 12288
    case TexData => MAX_TEXDATAS
    case TexDataStringTable => MAX_TEXDATAS
    case Brushes => 8192
    case BrushSides => 65536
    case Nodes => 65536
    case Leafs => 65536
    case LeafFaces => 65536
    case LeafBrushes => 65536
    case Models => 1024
    case _ => 0
  }

  function Pow2Small(k: nat): (r: nat)
    ensures r >= 1
  {
    if k == 0 then 1 else 2 * Pow2Small(k - 1)
  }

  /** The displacement limits: 17 x 17 vertices and 2 x 16 x 16 triangles per displacement. */
  lemma DisplacementLimits()
    ensures MaxRecords(DispVerts) == 32768 * 289 && MaxRecords(DispTris) == 32768 * 512
  {
    assert Pow2Small(4) == 16;
  }

  /**
   * ParseLump_* of a fixed-size lump, its length check: the length must be a whole number
   * of records and the count within the lump's limit.
   */
  function CountRecords(lumpLen: nat, size: nat, max: nat): (r: Result<nat, BspError>)
    requires size > 0
    ensures r.Success? <==> lumpLen % size == 0 && lumpLen / size <= max
    ensures r.Success? ==> r.value * size == lumpLen
    ensures r.Failure? && lumpLen % size != 0 ==> r.error == InvalidLumpLength(lumpLen)
  {
    if lumpLen % size != 0 then Failure(InvalidLumpLength(lumpLen))
    else if lumpLen / size > max then Failure(TooManyRecords(lumpLen / size))
    else Success(lumpLen / size)
  }

  /** The record count of a fixed-size lump, with that lump's record size and limit. */
  function RecordCount(l: Lump, lumpLen: nat): Result<nat, BspError>
    requires RecordSize(l).Some?
  {
    CountRecords(lumpLen, RecordSize(l).value, MaxRecords(l))
  }

  /** A lump of n whole records is accepted with count n exactly when n is within the limit. */
  lemma RecordCountOfRecords(n: nat, size: nat, max: nat)
    requires size > 0
    ensures CountRecords(n * size, size, max) == if n <= max then Success(n) else Failure(TooManyRecords(n))
  {
    DivOfMultiple(n, size);
  }

  /** Whole multiples divide back exactly. */
  lemma DivOfMultiple(n: nat, size: nat)
    requires size > 0
    ensures (n * size) / size == n && (n * size) % size == 0
  {
    var x := n * size;
    var q := x / size;
    var r := x % size;
    assert x == q * size + r;
    if q < n {
      MulStep(q, n, size);
    }
    if q > n {
      MulStep(n, q, size);
    }
  }

  /** The records of an accepted lump occupy the lump's bytes exactly: record k ends inside it. */
  lemma RecordsFillLump(lumpLen: nat, size: nat, max: nat, k: nat)
    requires size > 0 && CountRecords(lumpLen, size, max).Success? && k < CountRecords(lumpLen, size, max).value
    ensures (k + 1) * size <= lumpLen
  {
    var n := CountRecords(lumpLen, size, max).value;
    LemmaMulMonotone(k + 1, n, size);
  }

  /** A smaller multiple is at least one whole factor below a larger one. */
  lemma MulStep(a: nat, b: nat, c: nat)
    requires a < b
    ensures a * c + c <= b * c
  {
    LemmaMulMonotone(a + 1, b, c);
    assert (a + 1) * c == a * c + c;
  }

  lemma LemmaMulMonotone(a: nat, b: nat, c: nat)
    requires a <= b
    ensures a * c <= b * c
  {
  }

  /** The brush side's bevel flag: the low bit of the stored 16-bit field (which also holds 0, 256 or 257). */
  function Bevel(raw: int): (r: int)
    requires -0x8000 <= raw < 0x8000
    ensures r == 0 || r == 1
    ensures r == raw % 2
  {
    var pattern := if raw < 0 then raw + TWO16 else raw;
    pattern % 2
  }

  /** The values the maps hold reduce to their low bits. */
  lemma BevelValues()
    ensures Bevel(0) == 0 && Bevel(1) == 1 && Bevel(256) == 0 && Bevel(257) == 1 && Bevel(-1) == 1
  {
  }

  /** ParseLump_DispInfos: a displacement power outside [2, 4] rejects the lump. */
  function CheckDispPower(power: nat): (r: Result<nat, BspError>)
    ensures r.Success? <==> MIN_DISP_POWER <= power <= MAX_DISP_POWER
    ensures r.Success? ==> r.value == power
    ensures r.Failure? ==> r.error == InvalidDispPower(power)
  {
    if power < MIN_DISP_POWER || power > MAX_DISP_POWER then Failure(InvalidDispPower(power))
    else Success(power)
  }

  /**
   * ParseLump_TexDataStringData: an empty lump is accepted as no data; a lump over the size
   * limit, one that cannot be read, or one whose last byte is not NUL is rejected.
   */
  function ParseTexDataStringData(file: seq<byte>, pos: nat, lumpLen: nat): (r: Result<seq<byte>, BspError>)
    ensures lumpLen == 0 ==> r == Success([])
    ensures r.Success? && lumpLen > 0 ==>
      && pos + lumpLen <= |file| && r.value == file[pos..pos + lumpLen]
      && r.value[|r.value| - 1] == 0 && lumpLen <= MAX_TEXDATA_STRING_DATA
  {
    if lumpLen == 0 then Success([])
    else if lumpLen > MAX_TEXDATA_STRING_DATA then Failure(TooManyRecords(lumpLen))
    else if pos + lumpLen > |file| then Failure(ReadError)
    else if file[pos + lumpLen - 1] != 0 then Failure(NotNullTerminated)
    else Success(file[pos..pos + lumpLen])
  }

  /** Any NUL-terminated block within the limit is accepted as it is. */
  lemma TexDataStringDataAccepts(file: seq<byte>, pos: nat, block: seq<byte>)
    requires 0 < |block| <= MAX_TEXDATA_STRING_DATA && block[|block| - 1] == 0
    requires pos + |block| <= |file| && file[pos..pos + |block|] == block
    ensures ParseTexDataStringData(file, pos, |block|) == Success(block)
  {
    assert file[pos + |block| - 1] == block[|block| - 1];
  }

  // ---------------------------------------------------------------------------------------
  // ParseLumpData: visiting the lumps in file order
  // ---------------------------------------------------------------------------------------

  function Entry(dir: seq<LumpDirEntry>, l: Lump): LumpDirEntry
    requires |dir| == HEADER_LUMP_CNT
  {
    dir[LumpIndex(l)]
  }

  predicate SortedByOffset(dir: seq<LumpDirEntry>, s: seq<Lump>)
    requires |dir| == HEADER_LUMP_CNT
  {
    forall i, j :: 0 <= i < j < |s| ==> Entry(dir, s[i]).fileOffset <= Entry(dir, s[j]).fileOffset
  }

  /** The first position whose lump has a file offset at least that of l. */
  function InsertPos(dir: seq<LumpDirEntry>, l: Lump, s: seq<Lump>): (k: nat)
    requires |dir| == HEADER_LUMP_CNT
    ensures k <= |s|
    ensures forall i :: 0 <= i < k ==> Entry(dir, s[i]).fileOffset < Entry(dir, l).fileOffset
    ensures k < |s| ==> Entry(dir, l).fileOffset <= Entry(dir, s[k]).fileOffset
  {
    if s == [] || Entry(dir, l).fileOffset <= Entry(dir, s[0]).fileOffset then 0
    else 1 + InsertPos(dir, l, s[1..])
  }

  /** Inserts a lump in front of the first lump with a greater or equal file offset. */
  function InsertByOffset(dir: seq<LumpDirEntry>, l: Lump, s: seq<Lump>): (r: seq<Lump>)
    requires |dir| == HEADER_LUMP_CNT && SortedByOffset(dir, s)
    ensures multiset(r) == multiset(s) + multiset{l}
    ensures SortedByOffset(dir, r)
  {
    var k := InsertPos(dir, l, s);
    assert s == s[..k] + s[k..];
    InsertKeepsOrder(dir, l, s, k);
    s[..k] + [l] + s[k..]
  }

  lemma InsertKeepsOrder(dir: seq<LumpDirEntry>, l: Lump, s: seq<Lump>, k: nat)
    requires |dir| == HEADER_LUMP_CNT && SortedByOffset(dir, s) && k == InsertPos(dir, l, s)
    ensures SortedByOffset(dir, s[..k] + [l] + s[k..])
  {
    var r := s[..k] + [l] + s[k..];
    InsertLeftOrdered(dir, l, s, k);
    InsertRightOrdered(dir, l, s, k);
    forall i, j | 0 <= i < j < |r| ensures Entry(dir, r[i]).fileOffset <= Entry(dir, r[j]).fileOffset {
      if j > k {
        assert k < j < |r|;
      }
    }
  }

  /** Up to the inserted lump, the offsets ascend. */
  lemma InsertLeftOrdered(dir: seq<LumpDirEntry>, l: Lump, s: seq<Lump>, k: nat)
    requires |dir| == HEADER_LUMP_CNT && SortedByOffset(dir, s) && k == InsertPos(dir, l, s)
    ensures var r := s[..k] + [l] + s[k..];
      forall i, j :: 0 <= i < j <= k ==> Entry(dir, r[i]).fileOffset <= Entry(dir, r[j]).fileOffset
  {
    var r := s[..k] + [l] + s[k..];
    forall i, j | 0 <= i < j <= k ensures Entry(dir, r[i]).fileOffset <= Entry(dir, r[j]).fileOffset {
      assert r[i] == s[i];
      if j < k {
        assert r[j] == s[j];
      }
    }
  }

  /** Past the inserted lump, every lump's offset is at least that of everything before it. */
  lemma InsertRightOrdered(dir: seq<LumpDirEntry>, l: Lump, s: seq<Lump>, k: nat)
    requires |dir| == HEADER_LUMP_CNT && SortedByOffset(dir, s) && k == InsertPos(dir, l, s)
    ensures var r := s[..k] + [l] + s[k..];
      forall i, j :: 0 <= i < j < |r| && k < j ==> Entry(dir, r[i]).fileOffset <= Entry(dir, r[j]).fileOffset
  {
    var r := s[..k] + [l] + s[k..];
    forall i, j | 0 <= i < j < |r| && k < j ensures Entry(dir, r[i]).fileOffset <= Entry(dir, r[j]).fileOffset {
      var before := if i < k then i else if i == k then k else i - 1;
      assert before <= j - 1;
      assert Entry(dir, s[before]).fileOffset <= Entry(dir, s[j - 1]).fileOffset;
      InsertedPairOrdered(dir, l, s, k, i, j);
    }
  }

  /**
   * One pair of the list with l inserted at k, the later one after l: it is ordered when the
   * lumps of s it comes from are, and l is ordered before s[k].
   */
  lemma InsertedPairOrdered(dir: seq<LumpDirEntry>, l: Lump, s: seq<Lump>, k: nat, i: nat, j: nat)
    requires |dir| == HEADER_LUMP_CNT && k < j <= |s| && i < j
    requires Entry(dir, l).fileOffset <= Entry(dir, s[k]).fileOffset
    requires var before := if i < k then i else if i == k then k else i - 1;
      Entry(dir, s[before]).fileOffset <= Entry(dir, s[j - 1]).fileOffset
    ensures var r := s[..k] + [l] + s[k..];
      Entry(dir, r[i]).fileOffset <= Entry(dir, r[j]).fileOffset
  {
    var r := s[..k] + [l] + s[k..];
    assert r[j] == s[j - 1];
    if i < k {
      assert r[i] == s[i];
    } else if i == k {
      assert r[i] == l;
    } else {
      assert r[i] == s[i - 1];
    }
  }

  /** The sort of ParseLumpData: the required lumps by ascending file offset. */
  function SortByOffset(dir: seq<LumpDirEntry>, s: seq<Lump>): (r: seq<Lump>)
    requires |dir| == HEADER_LUMP_CNT
    ensures multiset(r) == multiset(s)
    ensures SortedByOffset(dir, r)
  {
    if s == [] then []
    else
      assert s == [s[0]] + s[1..];
      InsertByOffset(dir, s[0], SortByOffset(dir, s[1..]))
  }

  /**
   * ParseLumpData's loop over the sorted lumps. A compressed lump is an error. A non-empty
   * lump needs the reader at or before its offset, and the reader seeks there; an empty
   * lump is parsed wherever the reader stands. `parse` stands for the lump's parse
   * function: it gets the lump and the position and yields the position after it, or None.
   */
  function VisitLumps(dir: seq<LumpDirEntry>, order: seq<Lump>, pos: nat, parse: (Lump, nat) -> Option<nat>)
    : (r: Result<nat, BspError>)
    requires |dir| == HEADER_LUMP_CNT
    ensures r.Success? ==> forall i :: 0 <= i < |order| ==> Entry(dir, order[i]).fourCC == 0
    decreases |order|
  {
    if order == [] then Success(pos)
    else
      var l := order[0];
      var e := Entry(dir, l);
      if e.fourCC != 0 then Failure(Compressed(LumpIndex(l)))
      else if e.fileLen != 0 && pos > e.fileOffset then Failure(ReaderPastLump(LumpIndex(l)))
      else
        var at := if e.fileLen != 0 then e.fileOffset else pos;
        match parse(l, at)
        case None => Failure(LumpFailed(LumpIndex(l)))
        case Some(next) =>
          var rest := VisitLumps(dir, order[1..], next, parse);
          assert rest.Success? ==> forall i :: 1 <= i < |order| ==> Entry(dir, order[i]).fourCC == 0 by {
            if rest.Success? {
              forall i | 1 <= i < |order| ensures Entry(dir, order[i]).fourCC == 0 {
                assert order[i] == order[1..][i - 1];
              }
            }
          }
          rest
  }

  /** ParseLumpData: sorts the required lumps and visits them. */
  function ParseLumpData(dir: seq<LumpDirEntry>, pos: nat, parse: (Lump, nat) -> Option<nat>)
    : (r: Result<nat, BspError>)
    requires |dir| == HEADER_LUMP_CNT
    ensures r.Success? ==> forall l: Lump :: Entry(dir, l).fourCC == 0
  {
    var order := SortByOffset(dir, RequiredLumps());
    var r := VisitLumps(dir, order, pos, parse);
    assert r.Success? ==> forall l: Lump :: Entry(dir, l).fourCC == 0 by {
      if r.Success? {
        forall l: Lump ensures Entry(dir, l).fourCC == 0 {
          var i := VisitedLump(dir, l);
        }
      }
    }
    r
  }

  /** No two non-empty lumps share a byte. */
  predicate NonOverlapping(dir: seq<LumpDirEntry>)
    requires |dir| == HEADER_LUMP_CNT
  {
    forall a: Lump, b: Lump :: a != b && Entry(dir, a).fileLen != 0 && Entry(dir, b).fileLen != 0 ==>
      Entry(dir, a).fileOffset + Entry(dir, a).fileLen <= Entry(dir, b).fileOffset
      || Entry(dir, b).fileOffset + Entry(dir, b).fileLen <= Entry(dir, a).fileOffset
  }

  /** Each lump's parse function succeeds and stays inside its lump. */
  ghost predicate ParsersStayInside(dir: seq<LumpDirEntry>, parse: (Lump, nat) -> Option<nat>)
    requires |dir| == HEADER_LUMP_CNT
  {
    forall l: Lump, p: nat :: parse(l, p).Some? && p <= parse(l, p).value <= p + Entry(dir, l).fileLen
  }

  /** The reader stands at or before every non-empty lump still to come. */
  predicate BeforeAll(dir: seq<LumpDirEntry>, order: seq<Lump>, pos: nat)
    requires |dir| == HEADER_LUMP_CNT
  {
    forall i :: 0 <= i < |order| && Entry(dir, order[i]).fileLen != 0 ==> pos <= Entry(dir, order[i]).fileOffset
  }

  predicate Distinct<T(==)>(order: seq<T>)
  {
    forall i, j :: 0 <= i < j < |order| ==> order[i] != order[j]
  }

  /**
   * Visiting sorted, distinct lumps of a non-overlapping directory never finds the reader
   * past a lump when every parser stays inside its lump and no lump is compressed.
   */
  lemma {:induction false} SortedVisitSucceeds(dir: seq<LumpDirEntry>, order: seq<Lump>, pos: nat,
                                               parse: (Lump, nat) -> Option<nat>)
    requires |dir| == HEADER_LUMP_CNT && NonOverlapping(dir) && ParsersStayInside(dir, parse)
    requires SortedByOffset(dir, order) && Distinct(order) && BeforeAll(dir, order, pos)
    requires forall i :: 0 <= i < |order| ==> Entry(dir, order[i]).fourCC == 0
    ensures VisitLumps(dir, order, pos, parse).Success?
    decreases |order|
  {
    if order != [] {
      var l := order[0];
      var e := Entry(dir, l);
      var at := if e.fileLen != 0 then e.fileOffset else pos;
      var next := parse(l, at).value;
      var rest := order[1..];
      forall i | 0 <= i < |rest| && Entry(dir, rest[i]).fileLen != 0
        ensures next <= Entry(dir, rest[i]).fileOffset
      {
        assert rest[i] == order[i + 1] && order[i + 1] != l;
        assert e.fileOffset <= Entry(dir, rest[i]).fileOffset;
      }
      assert forall i, j :: 0 <= i < j < |rest| ==> rest[i] == order[i + 1] && rest[j] == order[j + 1];
      SortedVisitSucceeds(dir, rest, next, parse);
    }
  }

  /** The required lumps are distinct, so a non-overlapping uncompressed file whose lump parsers all succeed inside their lumps parses through. */
  lemma ParseLumpDataSucceeds(dir: seq<LumpDirEntry>, pos: nat, parse: (Lump, nat) -> Option<nat>)
    requires |dir| == HEADER_LUMP_CNT && NonOverlapping(dir) && ParsersStayInside(dir, parse)
    requires forall l: Lump :: Entry(dir, l).fourCC == 0
    requires forall l: Lump :: Entry(dir, l).fileLen != 0 ==> pos <= Entry(dir, l).fileOffset
    ensures ParseLumpData(dir, pos, parse).Success?
  {
    VisitOrderDistinct(dir);
    VisitAllSucceeds(dir, SortByOffset(dir, RequiredLumps()), pos, parse);
  }

  /** SortedVisitSucceeds for a reader before every lump of the file. */
  lemma VisitAllSucceeds(dir: seq<LumpDirEntry>, order: seq<Lump>, pos: nat, parse: (Lump, nat) -> Option<nat>)
    requires |dir| == HEADER_LUMP_CNT && NonOverlapping(dir) && ParsersStayInside(dir, parse)
    requires SortedByOffset(dir, order) && Distinct(order)
    requires forall l: Lump :: Entry(dir, l).fourCC == 0
    requires forall l: Lump :: Entry(dir, l).fileLen != 0 ==> pos <= Entry(dir, l).fileOffset
    ensures VisitLumps(dir, order, pos, parse).Success?
  {
    SortedVisitSucceeds(dir, order, pos, parse);
  }

  /** No lump is visited twice. */
  lemma VisitOrderDistinct(dir: seq<LumpDirEntry>)
    requires |dir| == HEADER_LUMP_CNT
    ensures Distinct(SortByOffset(dir, RequiredLumps()))
  {
    RequiredLumpsDistinct();
    PermutationDistinct(RequiredLumps(), SortByOffset(dir, RequiredLumps()));
  }

  /** Every lump has its place in the visiting order. */
  lemma VisitedLump(dir: seq<LumpDirEntry>, l: Lump) returns (i: nat)
    requires |dir| == HEADER_LUMP_CNT
    ensures i < |SortByOffset(dir, RequiredLumps())| && SortByOffset(dir, RequiredLumps())[i] == l
  {
    var order := SortByOffset(dir, RequiredLumps());
    RequiredLumpsComplete(l);
    i := PermutationMember(RequiredLumps(), order, l);
  }

  /** A member of a sequence is a member of any permutation of it. */
  lemma PermutationMember<T>(a: seq<T>, b: seq<T>, x: T) returns (i: nat)
    requires multiset(a) == multiset(b) && x in a
    ensures i < |b| && b[i] == x
  {
    assert x in multiset(a);
    assert x in multiset(b);
    i :| 0 <= i < |b| && b[i] == x;
  }

  /** A permutation of a sequence without repeats has none. */
  lemma PermutationDistinct<T>(a: seq<T>, b: seq<T>)
    requires multiset(a) == multiset(b) && Distinct(a)
    ensures Distinct(b)
  {
    forall i, j | 0 <= i < j < |b| ensures b[i] != b[j] {
      if b[i] == b[j] {
        MultisetTwo(b, i, j);
        DistinctOnce(a, b[i]);
        assert false;
      }
    }
  }

  /** A value occurs at most once in a sequence without repeats. */
  lemma {:induction false} DistinctOnce<T>(s: seq<T>, x: T)
    requires Distinct(s)
    ensures multiset(s)[x] <= 1
  {
    if s != [] {
      assert s == [s[0]] + s[1..];
      assert Distinct(s[1..]) by {
        forall i, j | 0 <= i < j < |s[1..]| ensures s[1..][i] != s[1..][j] {
          assert s[1..][i] == s[i + 1] && s[1..][j] == s[j + 1];
        }
      }
      DistinctOnce(s[1..], x);
      if s[0] == x {
        assert x !in s[1..] by {
          forall k | 0 <= k < |s[1..]| ensures s[1..][k] != x {
            assert s[1..][k] == s[k + 1];
          }
        }
      }
    }
  }

  /** A value at two positions of a sequence occurs at least twice in it. */
  lemma MultisetTwo<T>(s: seq<T>, i: nat, j: nat)
    requires i < j < |s| && s[i] == s[j]
    ensures multiset(s)[s[i]] >= 2
  {
    assert s == s[..i] + [s[i]] + s[i + 1..j] + [s[j]] + s[j + 1..];
  }
}
