/**
 * The pakfile lump (lump 40) of a BSP map: a ZIP archive whose stored files are read as a
 * run of local file headers (section 4.3.7 of the PKWARE APPNOTE), each followed by the file
 * name, the extra field and the uncompressed file data. The walk ends successfully at the
 * first central directory header (section 4.3.12) or end of central directory record
 * (section 4.3.16). Read from a map file held in memory.
 */
module BspPakfile {
  import opened Bytes
  import opened Wrappers
  import opened MemoryFields
  import CsgoUtils

  /** The signatures as little-endian 32-bit values of 'P' 'K' a b (section 4.4.5 and the record layouts). */
  const PK12: nat := 0x0201_4B50
  const PK34: nat := 0x0403_4B50
  const PK56: nat := 0x0605_4B50

  /** A local file header without its variable-length fields. */
  const MIN_LOCAL_HEADER: nat := 30

  /** The longest file name the reader accepts. */
  const MAX_NAME_LEN: nat := 2048

  /** The signatures are the letters P and K followed by two small numbers. */
  lemma SignaturesSpellPK()
    ensures PK12 == U32(['P' as int, 'K' as int, 1, 2])
    ensures PK34 == U32(['P' as int, 'K' as int, 3, 4])
    ensures PK56 == U32(['P' as int, 'K' as int, 5, 6])
  {
  }

  datatype PakfileError =
    | LumpEndTooSmall
    | ReadError
    | NotLocalHeader(signature: nat)
    | Compressed(compressionMethod: nat)
    | NameTooLong(len: nat)

  /** BspMap::PakfileEntry: where a packed file's bytes lie in the map file. */
  datatype PakfileEntry = PakfileEntry(fileName: string, fileOffset: nat, fileLen: nat, crc32: nat)

  /** The fields of a local file header the reader keeps. */
  datatype LocalHeader = LocalHeader(compression: nat, crc32: nat, size: nat, nameLen: nat, extraLen: nat)

  /**
   * The local file header at p, read field by field: compression method at 8, CRC-32 at 14,
   * uncompressed size at 22, name and extra field lengths at 26 and 28. The version, flags,
   * time, date and compressed size are skipped. Any missing byte fails the read.
   */
  function HeaderAt(file: seq<byte>, p: nat): (r: Option<LocalHeader>)
    ensures r.Some? <==> p + MIN_LOCAL_HEADER <= |file|
    ensures r.Some? ==> r.value.compression < TWO16 && r.value.nameLen < TWO16 && r.value.extraLen < TWO16
  {
    if p + MIN_LOCAL_HEADER <= |file| then
      Some(LocalHeader(U16(file[p + 8..p + 10]), U32(file[p + 14..p + 18]), U32(file[p + 22..p + 26]),
                       U16(file[p + 26..p + 28]), U16(file[p + 28..p + 30])))
    else None
  }

  /**
   * The length of the variable fields as the reader computes it: the two 16-bit lengths and
   * the 32-bit size are added in 32-bit arithmetic, so the sum wraps.
   */
  function VarLen(h: LocalHeader): (r: nat)
    ensures r < TWO32
    ensures h.nameLen + h.extraLen + h.size < TWO32 ==> r == h.nameLen + h.extraLen + h.size
  {
    (h.nameLen + h.extraLen + h.size) % TWO32
  }

  /** Where the variable fields of the header at p begin. */
  function NameAt(p: nat): nat
  {
    p + MIN_LOCAL_HEADER
  }

  /** Where the data of the file whose header is at p begins. */
  function DataAt(p: nat, h: LocalHeader): nat
  {
    NameAt(p) + h.nameLen + h.extraLen
  }

  /** Where the reader seeks after the file whose header is at p: the end of its data. */
  function NextAt(p: nat, h: LocalHeader): nat
  {
    DataAt(p, h) + h.size
  }

  /** The entry recorded for the header h at p, whose name bytes are `name`. */
  function EntryOf(p: nat, h: LocalHeader, name: seq<byte>): PakfileEntry
  {
    PakfileEntry(CsgoUtils.NormalizeGameFilePath(Chars(name)), DataAt(p, h), h.size, h.crc32)
  }

  /** What one turn of the reading loop finds: the end of the files, a failure, or a file. */
  datatype Turn =
    | Stop
    | Fail(error: PakfileError)
    | Found(entry: PakfileEntry, next: nat)

  /**
   * One turn of ParseLump_Pakfile's loop at pos, with `end` the lump end it computed. Four
   * bytes of signature must fit before the end; a central directory or end record signature
   * ends the files; anything but a local file header fails. The header must fit before the
   * end, be uncompressed and name at most 2048 bytes, and its variable fields (by their
   * wrapped length) must fit before the end. The name is read and normalised, and the loop
   * goes on after the file's data.
   */
  function Step(file: seq<byte>, pos: nat, end: nat): (r: Turn)
    ensures r.Found? ==> r.next > pos
  {
    if pos + 4 > end then Fail(LumpEndTooSmall)
    else match U32At(file, pos)
      case None => Fail(ReadError)
      case Some(sig) =>
        if sig == PK12 || sig == PK56 then Stop
        else if sig != PK34 then Fail(NotLocalHeader(sig))
        else if pos + MIN_LOCAL_HEADER > end then Fail(LumpEndTooSmall)
        else match HeaderAt(file, pos)
          case None => Fail(ReadError)
          case Some(h) =>
            if h.compression != 0 then Fail(Compressed(h.compression))
            else if h.nameLen > MAX_NAME_LEN then Fail(NameTooLong(h.nameLen))
            else if NameAt(pos) + VarLen(h) > end then Fail(LumpEndTooSmall)
            else match FieldAt(file, NameAt(pos), h.nameLen)
              case None => Fail(ReadError)
              case Some(name) => Found(EntryOf(pos, h, name), NextAt(pos, h))
  }

  /**
   * ParseLump_Pakfile's loop from pos: turns until the files end or one fails. Every packed
   * file of a successful walk lies inside the lump: its data starts after its header and name,
   * and ends at least four bytes (the next signature) before the end. This holds even when the
   * wrapped length of the variable fields let an oversized file through the check, because the
   * next signature then no longer fits.
   */
  function Walk(file: seq<byte>, pos: nat, end: nat): (r: Result<seq<PakfileEntry>, PakfileError>)
    ensures r.Success? ==> pos + 4 <= end
    ensures r.Success? ==> forall i :: 0 <= i < |r.value| ==>
      pos + MIN_LOCAL_HEADER <= r.value[i].fileOffset && r.value[i].fileOffset + r.value[i].fileLen + 4 <= end
    decreases if pos <= end then end - pos + 1 else 0
  {
    match Step(file, pos, end)
    case Stop => Success([])
    case Fail(e) => Failure(e)
    case Found(entry, next) =>
      StepFound(file, pos, end);
      match Walk(file, next, end)
      case Failure(e) => Failure(e)
      case Success(rest) => Success([entry] + rest)
  }

  /**
   * ParseLump_Pakfile with the reader at pos, the lump's start, and the lump length from the
   * directory. An empty lump has no packed files; otherwise the lump end is computed as a
   * 32-bit value.
   */
  function ParsePakfile(file: seq<byte>, pos: nat, lumpLen: nat): (r: Result<seq<PakfileEntry>, PakfileError>)
    ensures lumpLen == 0 ==> r == Success([])
  {
    if lumpLen == 0 then Success([]) else Walk(file, pos, (pos + lumpLen) % TWO32)
  }

  /** A lump that ends before 4 GiB is walked up to its true end. */
  lemma ParseIsWalk(file: seq<byte>, pos: nat, lumpLen: nat)
    requires 0 < lumpLen && pos + lumpLen < TWO32
    ensures ParsePakfile(file, pos, lumpLen) == Walk(file, pos, pos + lumpLen)
  {
    assert (pos + lumpLen) % TWO32 == pos + lumpLen;
  }

  // ---------------------------------------------------------------------------------------
  // What the walk promises
  // ---------------------------------------------------------------------------------------

  /** A signature that fits before the end and is readable. */
  predicate SignatureAt(file: seq<byte>, pos: nat, end: nat, sig: nat)
  {
    pos + 4 <= end && U32At(file, pos) == Some(sig)
  }

  /** A central directory header or the end record ends the walk with no further entries. */
  lemma StopsAtDirectory(file: seq<byte>, pos: nat, end: nat, sig: nat)
    requires SignatureAt(file, pos, end, sig) && (sig == PK12 || sig == PK56)
    ensures Walk(file, pos, end) == Success([])
  {
  }

  /** Any other signature than the three fails the walk. */
  lemma RejectsOtherSignature(file: seq<byte>, pos: nat, end: nat, sig: nat)
    requires SignatureAt(file, pos, end, sig) && sig != PK12 && sig != PK34 && sig != PK56
    ensures Walk(file, pos, end) == Failure(NotLocalHeader(sig))
  {
  }

  /** A local file header that fits before the end and is readable. */
  predicate LocalHeaderAt(file: seq<byte>, pos: nat, end: nat, h: LocalHeader)
  {
    SignatureAt(file, pos, end, PK34) && pos + MIN_LOCAL_HEADER <= end && HeaderAt(file, pos) == Some(h)
  }

  /** A compressed file fails the walk, whatever follows. */
  lemma RejectsCompressed(file: seq<byte>, pos: nat, end: nat, h: LocalHeader)
    requires LocalHeaderAt(file, pos, end, h) && h.compression != 0
    ensures Walk(file, pos, end) == Failure(Compressed(h.compression))
  {
  }

  /** An uncompressed file whose name is longer than 2048 bytes fails the walk. */
  lemma RejectsLongName(file: seq<byte>, pos: nat, end: nat, h: LocalHeader)
    requires LocalHeaderAt(file, pos, end, h) && h.compression == 0 && h.nameLen > MAX_NAME_LEN
    ensures Walk(file, pos, end) == Failure(NameTooLong(h.nameLen))
  {
  }

  /**
   * A turn that finds a file has read its signature before the end; the file's data starts
   * after its header and name and ends where the next turn begins.
   */
  lemma StepFound(file: seq<byte>, pos: nat, end: nat)
    requires Step(file, pos, end).Found?
    ensures var t := Step(file, pos, end);
      && pos + 4 <= end && pos + MIN_LOCAL_HEADER <= t.entry.fileOffset
      && t.entry.fileOffset + t.entry.fileLen == t.next
  {
  }

  /** A turn that finds a file, followed by a successful walk, is a successful walk. */
  lemma WalkFound(file: seq<byte>, pos: nat, end: nat, e: PakfileEntry, next: nat, rest: seq<PakfileEntry>)
    requires Step(file, pos, end) == Found(e, next) && Walk(file, next, end) == Success(rest)
    ensures Walk(file, pos, end) == Success([e] + rest)
  {
  }

  /** The entries of a successful walk follow each other: each file's data ends before the next starts. */
  lemma {:induction false} WalkAscending(file: seq<byte>, pos: nat, end: nat, es: seq<PakfileEntry>)
    requires Walk(file, pos, end) == Success(es)
    ensures forall i :: 0 < i < |es| ==> es[i - 1].fileOffset + es[i - 1].fileLen + MIN_LOCAL_HEADER <= es[i].fileOffset
    decreases if pos <= end then end - pos + 1 else 0
  {
    var t := Step(file, pos, end);
    if t.Found? {
      var rest := Walk(file, t.next, end).value;
      assert es == [t.entry] + rest;
      StepFound(file, pos, end);
      WalkAscending(file, t.next, end, rest);
      forall i | 0 < i < |es|
        ensures es[i - 1].fileOffset + es[i - 1].fileLen + MIN_LOCAL_HEADER <= es[i].fileOffset
      {
        assert es[i] == rest[i - 1];
        if i > 1 {
          assert es[i - 1] == rest[i - 2];
        }
      }
    }
  }

  // ---------------------------------------------------------------------------------------
  // Writing stored files and walking them back
  // ---------------------------------------------------------------------------------------

  /** A stored (uncompressed) file as an archiver writes it. */
  datatype StoredFile = StoredFile(name: seq<byte>, extra: seq<byte>, data: seq<byte>, crc32: nat)

  /** A file the reader accepts: short name, 16-bit extra length, lengths within 32 bits. */
  predicate StoredOk(x: StoredFile)
  {
    && |x.name| <= MAX_NAME_LEN && |x.extra| < TWO16 && x.crc32 < TWO32
    && |x.name| + |x.extra| + |x.data| < TWO32
  }

  /** Byte i of the local file header of x: version, flags, time and date written as zeros. */
  function HeaderByte(x: StoredFile, i: nat): byte
    requires StoredOk(x)
  {
    if i < 4 then Le32(PK34)[i]
    else if i < 14 then 0
    else if i < 18 then Le32(x.crc32)[i - 14]
    else if i < 22 then Le32(|x.data|)[i - 18]
    else if i < 26 then Le32(|x.data|)[i - 22]
    else if i < 28 then Le16(|x.name|)[i - 26]
    else if i < 30 then Le16(|x.extra|)[i - 28]
    else 0
  }

  /** The local file header of x. */
  function HeaderBytes(x: StoredFile): (r: seq<byte>)
    requires StoredOk(x)
    ensures |r| == MIN_LOCAL_HEADER
  {
    seq(MIN_LOCAL_HEADER, i requires 0 <= i < MIN_LOCAL_HEADER => HeaderByte(x, i))
  }

  /** The header the reader sees for x. */
  function HeaderOf(x: StoredFile): LocalHeader
  {
    LocalHeader(0, x.crc32, |x.data|, |x.name|, |x.extra|)
  }

  /** The bytes [lo, hi) of the header of x hold the little-endian encoding v of a field. */
  lemma HeaderField(x: StoredFile, lo: nat, v: seq<byte>)
    requires StoredOk(x) && lo + |v| <= MIN_LOCAL_HEADER
    requires forall k :: 0 <= k < |v| ==> HeaderByte(x, lo + k) == v[k]
    ensures HeaderBytes(x)[lo..lo + |v|] == v
  {
    var b := HeaderBytes(x);
    forall k | 0 <= k < |v| ensures b[lo..lo + |v|][k] == v[k] {
      assert b[lo + k] == HeaderByte(x, lo + k);
    }
  }

  /** A window of a window. */
  lemma Window(file: seq<byte>, p: nat, b: seq<byte>, lo: nat, hi: nat)
    requires p + |b| <= |file| && file[p..p + |b|] == b && lo <= hi <= |b|
    ensures file[p + lo..p + hi] == b[lo..hi]
  {
    forall k | 0 <= k < hi - lo ensures file[p + lo..p + hi][k] == b[lo..hi][k] {
      assert file[p + lo + k] == file[p..p + |b|][lo + k];
    }
  }

  /** The header of x begins with the local file header signature. */
  lemma SignatureRoundTrip(file: seq<byte>, p: nat, x: StoredFile)
    requires StoredOk(x) && p + MIN_LOCAL_HEADER <= |file|
    requires file[p..p + MIN_LOCAL_HEADER] == HeaderBytes(x)
    ensures U32At(file, p) == Some(PK34)
  {
    HeaderField(x, 0, Le32(PK34));
    Window(file, p, HeaderBytes(x), 0, 4);
  }

  /** The lengths at the end of the header of x read back as the lengths of its name and extra field. */
  lemma LengthsRoundTrip(file: seq<byte>, p: nat, x: StoredFile)
    requires StoredOk(x) && p + MIN_LOCAL_HEADER <= |file|
    requires file[p..p + MIN_LOCAL_HEADER] == HeaderBytes(x)
    ensures U16(file[p + 26..p + 28]) == |x.name| && U16(file[p + 28..p + 30]) == |x.extra|
  {
    HeaderField(x, 26, Le16(|x.name|));
    HeaderField(x, 28, Le16(|x.extra|));
    Window(file, p, HeaderBytes(x), 26, 28);
    Window(file, p, HeaderBytes(x), 28, 30);
  }

  /** The header of x, read back, is the header of x, behind the local file header signature. */
  lemma HeaderRoundTrip(file: seq<byte>, p: nat, x: StoredFile)
    requires StoredOk(x) && p + MIN_LOCAL_HEADER <= |file|
    requires file[p..p + MIN_LOCAL_HEADER] == HeaderBytes(x)
    ensures U32At(file, p) == Some(PK34) && HeaderAt(file, p) == Some(HeaderOf(x))
  {
    var b := HeaderBytes(x);
    SignatureRoundTrip(file, p, x);
    LengthsRoundTrip(file, p, x);
    HeaderField(x, 8, [0, 0]);
    HeaderField(x, 14, Le32(x.crc32));
    HeaderField(x, 22, Le32(|x.data|));
    Window(file, p, b, 8, 10);
    Window(file, p, b, 14, 18);
    Window(file, p, b, 22, 26);
    assert U16([0, 0]) == 0;
  }

  /** A stored file as it appears in the archive: header, name, extra field, data. */
  function LocalFile(x: StoredFile): (r: seq<byte>)
    requires StoredOk(x)
    ensures |r| == MIN_LOCAL_HEADER + |x.name| + |x.extra| + |x.data|
  {
    HeaderBytes(x) + x.name + x.extra + x.data
  }

  /** The parts of a local file laid out at p. */
  lemma LocalFileParts(file: seq<byte>, p: nat, x: StoredFile)
    requires StoredOk(x) && p + |LocalFile(x)| <= |file| && file[p..p + |LocalFile(x)|] == LocalFile(x)
    ensures file[p..p + MIN_LOCAL_HEADER] == HeaderBytes(x)
    ensures file[NameAt(p)..NameAt(p) + |x.name|] == x.name
    ensures p + |LocalFile(x)| == NextAt(p, HeaderOf(x))
  {
    var l := LocalFile(x);
    assert file[p..p + MIN_LOCAL_HEADER] == l[..MIN_LOCAL_HEADER];
    assert file[NameAt(p)..NameAt(p) + |x.name|] == l[MIN_LOCAL_HEADER..MIN_LOCAL_HEADER + |x.name|];
  }

  /** The entry the walk records for a stored file whose header is at p. */
  function EntryFor(p: nat, x: StoredFile): PakfileEntry
  {
    EntryOf(p, HeaderOf(x), x.name)
  }

  /** One stored file that fits before the end is found, and the loop goes on behind it. */
  lemma StepOverStored(file: seq<byte>, p: nat, end: nat, x: StoredFile)
    requires StoredOk(x) && p + LocalSize(x) <= |file| && file[p..p + LocalSize(x)] == LocalFile(x)
    requires p + LocalSize(x) <= end
    ensures Step(file, p, end) == Found(EntryFor(p, x), p + LocalSize(x))
  {
    LocalFileParts(file, p, x);
    HeaderRoundTrip(file, p, x);
  }

  /** Every file of xs is one the reader accepts. */
  predicate AllStoredOk(xs: seq<StoredFile>)
  {
    forall i :: 0 <= i < |xs| ==> StoredOk(xs[i])
  }

  /** Stored files one after another. */
  function Archive(xs: seq<StoredFile>): seq<byte>
    requires AllStoredOk(xs)
  {
    if xs == [] then [] else LocalFile(xs[0]) + Archive(xs[1..])
  }

  /** How many bytes the stored file x takes in the archive. */
  function LocalSize(x: StoredFile): nat
  {
    MIN_LOCAL_HEADER + |x.name| + |x.extra| + |x.data|
  }

  /** Where an archive of xs laid out from p ends. */
  function ArchiveEnd(p: nat, xs: seq<StoredFile>): nat
    decreases |xs|
  {
    if xs == [] then p else ArchiveEnd(p + LocalSize(xs[0]), xs[1..])
  }

  /** The stored files xs lie one after another in the file from p. */
  predicate LaidOut(file: seq<byte>, p: nat, xs: seq<StoredFile>)
    requires AllStoredOk(xs)
    decreases |xs|
  {
    xs != [] ==>
      && p + LocalSize(xs[0]) <= |file| && file[p..p + LocalSize(xs[0])] == LocalFile(xs[0])
      && LaidOut(file, p + LocalSize(xs[0]), xs[1..])
  }

  /** The entries the walk records for the stored files laid out from p. */
  function Entries(xs: seq<StoredFile>, p: nat): (r: seq<PakfileEntry>)
    requires AllStoredOk(xs)
    ensures |r| == |xs|
  {
    if xs == [] then [] else [EntryFor(p, xs[0])] + Entries(xs[1..], p + LocalSize(xs[0]))
  }

  /** An archive written at p is laid out there and ends after its bytes. */
  lemma {:induction false} ArchiveLaidOut(file: seq<byte>, p: nat, xs: seq<StoredFile>)
    requires AllStoredOk(xs)
    requires p + |Archive(xs)| <= |file| && file[p..p + |Archive(xs)|] == Archive(xs)
    ensures LaidOut(file, p, xs) && ArchiveEnd(p, xs) == p + |Archive(xs)|
    decreases |xs|
  {
    if xs != [] {
      var l := LocalFile(xs[0]);
      var more := Archive(xs[1..]);
      assert Archive(xs) == l + more;
      Split(file, p, l, more);
      ArchiveLaidOut(file, p + |l|, xs[1..]);
    }
  }

  /**
   * Round trip: stored files laid out one after another from p and followed by a central
   * directory header (or the end record), all before the lump end, are walked back as their
   * entries: each name normalised, each file's data located exactly, with its length and CRC.
   */
  lemma {:induction false} WalkArchive(file: seq<byte>, p: nat, end: nat, xs: seq<StoredFile>, sig: nat)
    requires AllStoredOk(xs) && LaidOut(file, p, xs)
    requires SignatureAt(file, ArchiveEnd(p, xs), end, sig) && (sig == PK12 || sig == PK56)
    ensures Walk(file, p, end) == Success(Entries(xs, p))
    decreases |xs|
  {
    if xs == [] {
      StopsAtDirectory(file, p, end, sig);
    } else {
      var x := xs[0];
      var next := p + LocalSize(x);
      var rest := Entries(xs[1..], next);
      WalkArchive(file, next, end, xs[1..], sig);
      ArchiveEndAfter(next, xs[1..]);
      StepOverStored(file, p, end, x);
      WalkFound(file, p, end, EntryFor(p, x), next, rest);
    }
  }

  /** An archive ends no earlier than it starts. */
  lemma {:induction false} ArchiveEndAfter(p: nat, xs: seq<StoredFile>)
    ensures p <= ArchiveEnd(p, xs)
    decreases |xs|
  {
    if xs != [] {
      ArchiveEndAfter(p + LocalSize(xs[0]), xs[1..]);
    }
  }

  /** The same, from the lump's start: the lump holds the archive and the signature behind it. */
  lemma PakfileRoundTrip(file: seq<byte>, pos: nat, lumpLen: nat, xs: seq<StoredFile>, sig: nat)
    requires AllStoredOk(xs)
    requires pos + lumpLen < TWO32 && |Archive(xs)| + 4 <= lumpLen
    requires pos + |Archive(xs)| <= |file| && file[pos..pos + |Archive(xs)|] == Archive(xs)
    requires U32At(file, pos + |Archive(xs)|) == Some(sig) && (sig == PK12 || sig == PK56)
    ensures ParsePakfile(file, pos, lumpLen) == Success(Entries(xs, pos))
  {
    ArchiveWalked(file, pos, pos + lumpLen, xs, sig);
    ParseGivesWalk(file, pos, lumpLen, Success(Entries(xs, pos)));
  }

  /** An archive written at p with a signature behind it, before end, is walked back as its entries. */
  lemma ArchiveWalked(file: seq<byte>, p: nat, end: nat, xs: seq<StoredFile>, sig: nat)
    requires AllStoredOk(xs)
    requires p + |Archive(xs)| <= |file| && file[p..p + |Archive(xs)|] == Archive(xs)
    requires SignatureAt(file, p + |Archive(xs)|, end, sig) && (sig == PK12 || sig == PK56)
    ensures WalksTo(file, p, end, Success(Entries(xs, p)))
  {
    ArchiveLaidOut(file, p, xs);
    WalkArchive(file, p, end, xs, sig);
  }

  /** The walk from pos to end gives r. */
  predicate WalksTo(file: seq<byte>, pos: nat, end: nat, r: Result<seq<PakfileEntry>, PakfileError>)
  {
    Walk(file, pos, end) == r
  }

  /** What the walk of a lump that ends before 4 GiB gives is what parsing the lump gives. */
  lemma ParseGivesWalk(file: seq<byte>, pos: nat, lumpLen: nat, r: Result<seq<PakfileEntry>, PakfileError>)
    requires 0 < lumpLen && pos + lumpLen < TWO32 && WalksTo(file, pos, pos + lumpLen, r)
    ensures ParsePakfile(file, pos, lumpLen) == r
  {
    ParseIsWalk(file, pos, lumpLen);
  }
}
