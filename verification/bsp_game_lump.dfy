/**
 * The game lump (lump 35) of a BSP map: a count, then a directory of 16-byte sub-lump
 * entries. Only the first `sprp` entry matters; its static prop data lies at an absolute
 * file offset and holds the model dictionary (128-byte names), the leaf array (16-bit
 * entries) and the static props (76 bytes in version 10, 80 in version 11), each run
 * preceded by its 32-bit count. Read from a map file held in memory.
 */
module BspGameLump {
  import opened Bytes
  import opened Wrappers
  import opened MemoryFields
  import CsgoUtils

  /** "sprp" as the id field of a directory entry: the bytes 'p' 'r' 'p' 's', little-endian. */
  const SPRP_ID: nat := 1936749168

  const MAX_STATIC_PROPS: nat := 65536
  const ENTRY_LEN: nat := 16
  const DICT_ENTRY_LEN: nat := 128
  const LEAF_ENTRY_LEN: nat := 2

  /** The largest counts the reader accepts: dictionary and leaf counts must stay below their limit. */
  const MAX_DICT_COUNT: nat := MAX_STATIC_PROPS - 1
  const MAX_LEAF_COUNT: nat := MAX_STATIC_PROPS * 100 - 1
  const MAX_PROP_COUNT: nat := MAX_STATIC_PROPS

  /** The `sprp` id is the four characters of its name in file order. */
  lemma SprpIsItsName()
    ensures SPRP_ID == U32(['p' as int, 'r' as int, 'p' as int, 's' as int])
  {
  }

  datatype GameLumpError =
    | LumpTooShort
    | ReadError
    | UnsupportedVersion(version: nat)
    | TooManyDictEntries(count: nat)
    | TooManyLeafEntries(count: nat)
    | TooManyProps(count: nat)

  /** A game lump directory entry; fileOfs is relative to the start of the map file. */
  datatype GameLumpEntry = GameLumpEntry(id: nat, flags: nat, version: nat, fileOfs: nat, fileLen: nat)

  /** The directory entry at p, read field by field; any missing byte fails the read. */
  function EntryAt(file: seq<byte>, p: nat): (r: Option<GameLumpEntry>)
    ensures r.Some? <==> p + ENTRY_LEN <= |file|
  {
    if p + ENTRY_LEN <= |file| then
      Some(GameLumpEntry(U32(file[p..p + 4]), U16(file[p + 4..p + 6]), U16(file[p + 6..p + 8]),
                         U32(file[p + 8..p + 12]), U32(file[p + 12..p + 16])))
    else None
  }

  /** Directory entry number j of a directory starting at start. */
  function EntryNo(file: seq<byte>, start: nat, j: nat): Option<GameLumpEntry>
  {
    EntryAt(file, start + ENTRY_LEN * j)
  }

  /** Entries k..i-1 are all readable and none of them is `sprp`. */
  predicate ClearBetween(file: seq<byte>, start: nat, k: nat, i: nat)
  {
    forall j :: k <= j < i ==> EntryNo(file, start, j).Some? && EntryNo(file, start, j).value.id != SPRP_ID
  }

  /** Entries k..count-1 are all readable. */
  predicate Readable(file: seq<byte>, start: nat, k: nat, count: nat)
  {
    forall j :: k <= j < count ==> EntryNo(file, start, j).Some?
  }

  datatype Found = Found(index: nat, entry: GameLumpEntry)

  /**
   * The search loop of ParseLump_GameLump from entry k on: the first `sprp` entry, none
   * when all remaining entries are read without one, and a read error at the first entry
   * the file does not hold.
   */
  function FindSprpFrom(file: seq<byte>, start: nat, count: nat, k: nat): (r: Result<Option<Found>, GameLumpError>)
    requires k <= count
    ensures r.Failure? ==> r.error == ReadError
    decreases count - k
  {
    if k == count then Success(None)
    else match EntryNo(file, start, k)
      case None => Failure(ReadError)
      case Some(e) => if e.id == SPRP_ID then Success(Some(Found(k, e))) else FindSprpFrom(file, start, count, k + 1)
  }

  /**
   * What the search finds from entry k on: a `sprp` entry preceded only by readable
   * entries that are not `sprp`; none when all remaining entries are readable and none is
   * `sprp`; a read error only when some remaining entry is unreadable.
   */
  lemma {:induction false} FindSprpFromMeans(file: seq<byte>, start: nat, count: nat, k: nat)
    requires k <= count
    ensures var r := FindSprpFrom(file, start, count, k);
      (r.Success? && r.value.Some?) ==>
        var f := r.value.value;
        && k <= f.index < count && EntryNo(file, start, f.index) == Some(f.entry) && f.entry.id == SPRP_ID
        && ClearBetween(file, start, k, f.index)
    ensures FindSprpFrom(file, start, count, k) == Success(None) ==> ClearBetween(file, start, k, count)
    ensures FindSprpFrom(file, start, count, k).Failure? ==> !Readable(file, start, k, count)
    decreases count - k
  {
    if k < count {
      var r := FindSprpFrom(file, start, count, k);
      match EntryNo(file, start, k)
      case None =>
        assert r == Failure(ReadError);
        assert !Readable(file, start, k, count) by {
          assert EntryNo(file, start, k).None?;
        }
      case Some(e) =>
        if e.id == SPRP_ID {
          assert r == Success(Some(Found(k, e)));
          assert ClearBetween(file, start, k, k);
        } else {
          FindSprpFromMeans(file, start, count, k + 1);
          assert r == FindSprpFrom(file, start, count, k + 1);
          ClearBetweenCons(file, start, k, count);
          if r.Success? && r.value.Some? {
            ClearBetweenCons(file, start, k, r.value.value.index);
          }
          if r.Failure? {
            assert !Readable(file, start, k + 1, count);
            assert !Readable(file, start, k, count);
          }
        }
    }
  }

  /** A readable entry k that is not `sprp` extends a clear stretch from k + 1 to one from k. */
  lemma ClearBetweenCons(file: seq<byte>, start: nat, k: nat, i: nat)
    requires k < i && EntryNo(file, start, k).Some? && EntryNo(file, start, k).value.id != SPRP_ID
    ensures ClearBetween(file, start, k + 1, i) ==> ClearBetween(file, start, k, i)
  {
  }

  // ---------------------------------------------------------------------------------------
  // Static prop records
  // ---------------------------------------------------------------------------------------

  /** The characters of a NUL-terminated name: everything before the first zero byte. */
  function CString(b: seq<byte>): (r: string)
    ensures |r| <= |b|
  {
    if b == [] || b[0] == 0 then [] else [b[0] as char] + CString(b[1..])
  }

  /** A dictionary entry's model path: its C string, normalised as a game file path. */
  function DictName(b: seq<byte>): string
  {
    CsgoUtils.NormalizeGameFilePath(CString(b))
  }

  /** A leaf array entry: a 16-bit value. */
  function Decode16(b: seq<byte>): nat
  {
    if |b| == 2 then U16(b) else 0
  }

  /** The uniform scale: implicit 1.0 in version 10, a stored float (kept as its bytes) in 11. */
  datatype Scale = UnitScale | ScaleBits(bits: seq<byte>)

  /**
   * A static prop; placement holds the six floats of origin and angles as their 24 bytes
   * (floating point is not modelled).
   */
  datatype StaticProp = StaticProp(placement: seq<byte>, modelIdx: nat, firstLeaf: nat, leafCount: nat, solid: nat, scale: Scale)

  /** Bytes per static prop record: 76 in version 10, 80 in version 11. */
  function PropLen(version: nat): nat
  {
    if version == 10 then 76 else 80
  }

  /**
   * A static prop record: placement, model index, first leaf, leaf count, solidity, 45
   * bytes skipped, then (version 11 only) the uniform scale.
   */
  function DecodeProp(version: nat, b: seq<byte>): StaticProp
  {
    if |b| != PropLen(version) then StaticProp([], 0, 0, 0, 0, UnitScale)
    else StaticProp(b[..24], U16(b[24..26]), U16(b[26..28]), U16(b[28..30]), b[30],
                    if version == 10 then UnitScale else ScaleBits(b[76..80]))
  }

  /** The decoder of static prop records of a version. */
  function PropDecoder(version: nat): seq<byte> -> StaticProp
  {
    b => DecodeProp(version, b)
  }

  function DictTooMany(n: nat): GameLumpError { TooManyDictEntries(n) }
  function LeavesTooMany(n: nat): GameLumpError { TooManyLeafEntries(n) }
  function PropsTooMany(n: nat): GameLumpError { TooManyProps(n) }

  /** What the game lump contributes to the map: the three static prop lists. */
  datatype StaticPropLump = StaticPropLump(modelDict: seq<string>, leaves: seq<nat>, props: seq<StaticProp>)

  const NO_STATIC_PROPS: StaticPropLump := StaticPropLump([], [], [])

  /**
   * A 32-bit count at p, rejected by tooMany above maxCount, then that many records of
   * size bytes; yields the records and the position after them.
   */
  function ReadCounted<T>(file: seq<byte>, p: nat, size: nat, maxCount: nat, decode: seq<byte> -> T,
                          tooMany: nat -> GameLumpError): (r: Result<(seq<T>, nat), GameLumpError>)
    ensures r.Success? ==> U32At(file, p).Some? && |r.value.0| == U32At(file, p).value <= maxCount
    ensures r.Success? ==> r.value.1 == p + 4 + size * |r.value.0|
  {
    match U32At(file, p)
    case None => Failure(ReadError)
    case Some(count) =>
      if count > maxCount then Failure(tooMany(count))
      else match ReadRecords(file, p + 4, size, count, decode)
        case None => Failure(ReadError)
        case Some(xs) => Success((xs, p + 4 + size * count))
  }

  /**
   * The static prop data of a `sprp` entry: its version must be 10 or 11; then the model
   * dictionary, the leaf array and the props, read from the entry's file offset on.
   * Yields the lists and the reader position after them.
   */
  function ParseSprp(file: seq<byte>, e: GameLumpEntry): (r: Result<(StaticPropLump, nat), GameLumpError>)
  {
    var v := e.version;
    if v != 10 && v != 11 then Failure(UnsupportedVersion(v))
    else
      var dict :- ReadCounted(file, e.fileOfs, DICT_ENTRY_LEN, MAX_DICT_COUNT, DictName, DictTooMany);
      var leaves :- ReadCounted(file, dict.1, LEAF_ENTRY_LEN, MAX_LEAF_COUNT, Decode16, LeavesTooMany);
      var props :- ReadCounted(file, leaves.1, PropLen(v), MAX_PROP_COUNT, PropDecoder(v), PropsTooMany);
      Success((StaticPropLump(dict.0, leaves.0, props.0), props.1))
  }

  /**
   * ParseLump_GameLump with the reader at pos, the lump's start, and the lump length from
   * the directory: yields the static prop lists and the reader position afterwards.
   */
  function ParseGameLump(file: seq<byte>, pos: nat, lumpLen: nat): (r: Result<(StaticPropLump, nat), GameLumpError>)
    ensures lumpLen < 4 ==> r == Failure(LumpTooShort)
  {
    if lumpLen < 4 then Failure(LumpTooShort)
    else match U32At(file, pos)
      case None => Failure(ReadError)
      case Some(count) =>
        match FindSprpFrom(file, pos + 4, count, 0)
        case Failure(err) => Failure(err)
        case Success(None) => Success((NO_STATIC_PROPS, pos + 4 + ENTRY_LEN * count))
        case Success(Some(f)) => ParseSprp(file, f.entry)
  }

  // ---------------------------------------------------------------------------------------
  // What the game lump reader promises
  // ---------------------------------------------------------------------------------------

  /** The directory's entry count, when the lump is long enough and the file holds it. */
  predicate CountIs(file: seq<byte>, pos: nat, lumpLen: nat, count: nat)
  {
    lumpLen >= 4 && U32At(file, pos) == Some(count)
  }

  /** A directory whose entries are all readable and none is `sprp` gives empty lists. */
  lemma GameLumpWithoutSprp(file: seq<byte>, pos: nat, lumpLen: nat, count: nat)
    requires CountIs(file, pos, lumpLen, count) && ClearBetween(file, pos + 4, 0, count)
    ensures ParseGameLump(file, pos, lumpLen) == Success((NO_STATIC_PROPS, pos + 4 + ENTRY_LEN * count))
  {
    FindSprpFromMeans(file, pos + 4, count, 0);
  }

  /**
   * Only the first `sprp` entry is used: the entries after it need not even be readable,
   * and its static prop data decides the outcome.
   */
  lemma GameLumpUsesFirstSprp(file: seq<byte>, pos: nat, lumpLen: nat, count: nat, k: nat, e: GameLumpEntry)
    requires CountIs(file, pos, lumpLen, count) && k < count
    requires ClearBetween(file, pos + 4, 0, k) && EntryNo(file, pos + 4, k) == Some(e) && e.id == SPRP_ID
    ensures ParseGameLump(file, pos, lumpLen) == ParseSprp(file, e)
  {
    FirstSprpFound(file, pos + 4, count, 0, k);
  }

  /** The search finds a `sprp` entry preceded only by readable entries that are not `sprp`. */
  lemma {:induction false} FirstSprpFound(file: seq<byte>, start: nat, count: nat, j: nat, k: nat)
    requires j <= k < count && ClearBetween(file, start, j, k)
    requires EntryNo(file, start, k).Some? && EntryNo(file, start, k).value.id == SPRP_ID
    ensures FindSprpFrom(file, start, count, j) == Success(Some(Found(k, EntryNo(file, start, k).value)))
    decreases k - j
  {
    var e := EntryNo(file, start, j).value;
    if j < k {
      assert EntryNo(file, start, j) == Some(e) && e.id != SPRP_ID;
      FirstSprpFound(file, start, count, j + 1, k);
      assert FindSprpFrom(file, start, count, j) == FindSprpFrom(file, start, count, j + 1);
    } else {
      assert FindSprpFrom(file, start, count, j) == Success(Some(Found(j, e)));
    }
  }

  /** The version of the `sprp` entry must be 10 or 11. */
  lemma SprpVersionChecked(file: seq<byte>, e: GameLumpEntry)
    ensures ParseSprp(file, e).Success? ==> e.version == 10 || e.version == 11
    ensures e.version != 10 && e.version != 11 ==> ParseSprp(file, e) == Failure(UnsupportedVersion(e.version))
  {
  }

  /** The counts the reader accepts stay within its limits. */
  lemma SprpLimits(file: seq<byte>, e: GameLumpEntry)
    requires ParseSprp(file, e).Success?
    ensures var s := ParseSprp(file, e).value.0;
      |s.modelDict| < MAX_STATIC_PROPS && |s.leaves| < MAX_STATIC_PROPS * 100 && |s.props| <= MAX_STATIC_PROPS
  {
  }

  /** A counted run that was read is the table of its record slots. */
  lemma ReadCountedTable<T>(file: seq<byte>, p: nat, size: nat, maxCount: nat, decode: seq<byte> -> T,
                            tooMany: nat -> GameLumpError)
    requires ReadCounted(file, p, size, maxCount, decode, tooMany).Success?
    ensures var xs := ReadCounted(file, p, size, maxCount, decode, tooMany).value.0;
      p + 4 + size * |xs| <= |file| && xs == RecordTable(file, p + 4, size, |xs|, decode)
  {
    var n := U32At(file, p).value;
    ReadRecordsIsTable(file, p + 4, size, n, decode);
    if n == 0 {
      assert p + 4 <= |file|;
    }
  }

  /** The three runs of the static prop data, where ParseSprp reads them. */
  predicate SprpRuns(file: seq<byte>, e: GameLumpEntry, dictAt: nat, leavesAt: nat, propsAt: nat)
  {
    && (e.version == 10 || e.version == 11) && dictAt == e.fileOfs
    && ReadCounted(file, dictAt, DICT_ENTRY_LEN, MAX_DICT_COUNT, DictName, DictTooMany).Success?
    && leavesAt == ReadCounted(file, dictAt, DICT_ENTRY_LEN, MAX_DICT_COUNT, DictName, DictTooMany).value.1
    && ReadCounted(file, leavesAt, LEAF_ENTRY_LEN, MAX_LEAF_COUNT, Decode16, LeavesTooMany).Success?
    && propsAt == ReadCounted(file, leavesAt, LEAF_ENTRY_LEN, MAX_LEAF_COUNT, Decode16, LeavesTooMany).value.1
    && ReadCounted(file, propsAt, PropLen(e.version), MAX_PROP_COUNT, PropDecoder(e.version), PropsTooMany).Success?
  }

  /** A successful ParseSprp read its three runs one after another. */
  lemma SprpRunsOf(file: seq<byte>, e: GameLumpEntry) returns (leavesAt: nat, propsAt: nat)
    requires ParseSprp(file, e).Success?
    ensures SprpRuns(file, e, e.fileOfs, leavesAt, propsAt)
    ensures var s := ParseSprp(file, e).value.0;
      && s.modelDict == ReadCounted(file, e.fileOfs, DICT_ENTRY_LEN, MAX_DICT_COUNT, DictName, DictTooMany).value.0
      && s.leaves == ReadCounted(file, leavesAt, LEAF_ENTRY_LEN, MAX_LEAF_COUNT, Decode16, LeavesTooMany).value.0
      && s.props == ReadCounted(file, propsAt, PropLen(e.version), MAX_PROP_COUNT, PropDecoder(e.version), PropsTooMany).value.0
  {
    leavesAt := ReadCounted(file, e.fileOfs, DICT_ENTRY_LEN, MAX_DICT_COUNT, DictName, DictTooMany).value.1;
    propsAt := ReadCounted(file, leavesAt, LEAF_ENTRY_LEN, MAX_LEAF_COUNT, Decode16, LeavesTooMany).value.1;
  }

  /**
   * Each record comes from its own slot: dictionary name i from the 128 bytes at
   * 4 + 128 i past the entry's offset.
   */
  lemma SprpDictFromSlots(file: seq<byte>, e: GameLumpEntry)
    requires ParseSprp(file, e).Success?
    ensures var s := ParseSprp(file, e).value.0;
      && e.fileOfs + 4 + DICT_ENTRY_LEN * |s.modelDict| <= |file|
      && s.modelDict == RecordTable(file, e.fileOfs + 4, DICT_ENTRY_LEN, |s.modelDict|, DictName)
  {
    var leavesAt, propsAt := SprpRunsOf(file, e);
    ReadCountedTable(file, e.fileOfs, DICT_ENTRY_LEN, MAX_DICT_COUNT, DictName, DictTooMany);
  }

  /** Every prop of a version decoded from a whole record has that version's scale. */
  lemma PropsScales(version: nat, file: seq<byte>, p: nat, n: nat)
    requires version == 10 || version == 11
    requires p + PropLen(version) * n <= |file|
    ensures var props := RecordTable(file, p, PropLen(version), n, PropDecoder(version));
      forall i :: 0 <= i < n ==>
        if version == 10 then props[i].scale == UnitScale
        else props[i].scale.ScaleBits? && |props[i].scale.bits| == 4
  {
    var size := PropLen(version);
    var props := RecordTable(file, p, size, n, PropDecoder(version));
    forall i | 0 <= i < n
      ensures if version == 10 then props[i].scale == UnitScale else props[i].scale.ScaleBits? && |props[i].scale.bits| == 4
    {
      RecordInside(size, i, n);
      var slot := file[p + size * i..p + size * i + size];
      assert props[i] == DecodeProp(version, slot);
    }
  }

  /** Version 10 props get the unit scale; version 11 props carry four bytes of scale. */
  lemma SprpScales(file: seq<byte>, e: GameLumpEntry)
    requires ParseSprp(file, e).Success?
    ensures var s := ParseSprp(file, e).value.0;
      forall i :: 0 <= i < |s.props| ==>
        if e.version == 10 then s.props[i].scale == UnitScale
        else s.props[i].scale.ScaleBits? && |s.props[i].scale.bits| == 4
  {
    var leavesAt, propsAt := SprpRunsOf(file, e);
    ReadCountedTable(file, propsAt, PropLen(e.version), MAX_PROP_COUNT, PropDecoder(e.version), PropsTooMany);
    var n := |ParseSprp(file, e).value.0.props|;
    PropsScales(e.version, file, propsAt + 4, n);
  }

  // ---------------------------------------------------------------------------------------
  // Writing static prop data and reading it back
  // ---------------------------------------------------------------------------------------

  /** A character as a byte (characters outside 1..255 are not written by this model). */
  function CharByte(c: char): byte
  {
    (c as int) % 256
  }

  function CharBytes(s: string): (r: seq<byte>)
    ensures |r| == |s|
  {
    seq(|s|, i requires 0 <= i < |s| => CharByte(s[i]))
  }

  /** A model path as a dictionary entry: its characters, NUL-padded to 128 bytes. */
  function DictBytes(name: string): seq<byte>
  {
    if |name| < DICT_ENTRY_LEN then CharBytes(name) + Zeros(DICT_ENTRY_LEN - |name|) else Zeros(DICT_ENTRY_LEN)
  }

  /** A path the dictionary can hold: shorter than an entry, NUL-free bytes, already normalised. */
  predicate NameOk(name: string)
  {
    && |name| < DICT_ENTRY_LEN
    && (forall i :: 0 <= i < |name| ==> 0 < name[i] as int < 256)
    && CsgoUtils.Normal(name)
  }

  lemma {:induction false} CStringOfPadded(name: string, pad: nat)
    requires forall i :: 0 <= i < |name| ==> 0 < name[i] as int < 256
    ensures CString(CharBytes(name) + Zeros(pad + 1)) == name
    decreases |name|
  {
    var b := CharBytes(name) + Zeros(pad + 1);
    if name == [] {
      assert b[0] == 0;
    } else {
      assert b[0] == name[0] as int && b[0] != 0;
      assert b[1..] == CharBytes(name[1..]) + Zeros(pad + 1);
      CStringOfPadded(name[1..], pad);
      assert (b[0] as char) == name[0];
      assert [name[0]] + name[1..] == name;
    }
  }

  /** A dictionary entry written from a valid path reads back as that path. */
  lemma DictNameRoundTrip(name: string)
    requires NameOk(name)
    ensures |DictBytes(name)| == DICT_ENTRY_LEN && DictName(DictBytes(name)) == name
  {
    CStringOfPadded(name, DICT_ENTRY_LEN - |name| - 1);
    CsgoUtils.NormalizeFromFixes(name, '\0');
  }

  function Encode16(x: nat): seq<byte>
  {
    Le16(x % TWO16)
  }

  /** A static prop record of the given version; the skipped bytes are written as zeros. */
  function EncodeProp(version: nat, x: StaticProp): seq<byte>
  {
    seq(PropLen(version), i requires 0 <= i < PropLen(version) => PropByte(x, i))
  }

  /** Byte i of a static prop record; the skipped bytes are written as zeros. */
  function PropByte(x: StaticProp, i: nat): byte
  {
    if i < 24 then (if i < |x.placement| then x.placement[i] else 0)
    else if i < 26 then Encode16(x.modelIdx)[i - 24]
    else if i < 28 then Encode16(x.firstLeaf)[i - 26]
    else if i < 30 then Encode16(x.leafCount)[i - 28]
    else if i == 30 then x.solid % 256
    else if i < 76 then 0
    else if x.scale.ScaleBits? && i - 76 < |x.scale.bits| then x.scale.bits[i - 76]
    else 0
  }

  /** A prop the given version can hold. */
  predicate PropOk(version: nat, x: StaticProp)
  {
    && |x.placement| == 24 && x.modelIdx < TWO16 && x.firstLeaf < TWO16 && x.leafCount < TWO16 && x.solid < 256
    && (if version == 10 then x.scale == UnitScale else x.scale.ScaleBits? && |x.scale.bits| == 4)
  }

  lemma PropRoundTrip(version: nat, x: StaticProp)
    requires version == 10 || version == 11
    requires PropOk(version, x)
    ensures |EncodeProp(version, x)| == PropLen(version) && DecodeProp(version, EncodeProp(version, x)) == x
  {
    var b := EncodeProp(version, x);
    assert b[..24] == x.placement;
    assert b[24..26] == [b[24], b[25]];
    assert b[26..28] == [b[26], b[27]];
    assert b[28..30] == [b[28], b[29]];
    assert b[24..26] == Encode16(x.modelIdx);
    assert b[26..28] == Encode16(x.firstLeaf);
    assert b[28..30] == Encode16(x.leafCount);
    if version == 11 {
      assert b[76..80] == x.scale.bits;
    }
  }

  /** A leaf index the 16-bit leaf array can hold. */
  predicate LeafOk(leaf: nat)
  {
    leaf < TWO16
  }

  /** Static prop data the reader accepts. */
  predicate LumpOk(version: nat, s: StaticPropLump)
  {
    && |s.modelDict| <= MAX_DICT_COUNT && |s.leaves| <= MAX_LEAF_COUNT && |s.props| <= MAX_PROP_COUNT
    && (forall i {:trigger NameOk(s.modelDict[i])} :: 0 <= i < |s.modelDict| ==> NameOk(s.modelDict[i]))
    && (forall i {:trigger LeafOk(s.leaves[i])} :: 0 <= i < |s.leaves| ==> LeafOk(s.leaves[i]))
    && (forall i {:trigger PropOk(version, s.props[i])} :: 0 <= i < |s.props| ==> PropOk(version, s.props[i]))
  }

  /** A counted run as the writer lays it out: the 32-bit count, then the encoded records. */
  function CountedRun<T>(xs: seq<T>, encode: T -> seq<byte>): seq<byte>
    requires |xs| < TWO32
  {
    Le32(|xs|) + EncodeRecords(xs, encode)
  }

  /**
   * The file holds at p the counted run of xs, whose count the reader accepts and whose
   * records decode back to them.
   */
  ghost predicate CountedRunAt<T>(file: seq<byte>, p: nat, xs: seq<T>, size: nat, maxCount: nat,
                                  encode: T -> seq<byte>, decode: seq<byte> -> T)
  {
    && |xs| <= maxCount && |xs| < TWO32 && RoundTrips(xs, size, encode, decode)
    && p + |CountedRun(xs, encode)| <= |file| && file[p..p + |CountedRun(xs, encode)|] == CountedRun(xs, encode)
  }

  /** The bytes of the static prop data: each list written after its count. */
  function EncodeSprp(version: nat, s: StaticPropLump): seq<byte>
    requires LumpOk(version, s)
  {
    CountedRun(s.modelDict, DictBytes) + CountedRun(s.leaves, Encode16) + CountedRun(s.props, PropEncoder(version))
  }

  /** A counted run written by the encoder is read back, ending right after it. */
  lemma ReadCountedRoundTrip<T>(file: seq<byte>, p: nat, size: nat, maxCount: nat, xs: seq<T>,
                                encode: T -> seq<byte>, decode: seq<byte> -> T, tooMany: nat -> GameLumpError)
    requires CountedRunAt(file, p, xs, size, maxCount, encode, decode)
    ensures ReadCounted(file, p, size, maxCount, decode, tooMany) == Success((xs, p + |CountedRun(xs, encode)|))
  {
    var enc := EncodeRecords(xs, encode);
    Split(file, p, Le32(|xs|), enc);
    RecordsRoundTrip(file, p + 4, size, xs, encode, decode);
    EncodeRecordsLength(xs, size, encode, decode);
  }

  /** Three counted runs written one after another are read back one after another. */
  lemma ThreeRunsRoundTrip<A, B, C>(file: seq<byte>, p: nat, d: nat, l: nat,
                                    xs: seq<A>, sa: nat, ma: nat, ea: A -> seq<byte>, da: seq<byte> -> A, ta: nat -> GameLumpError,
                                    ys: seq<B>, sb: nat, mb: nat, eb: B -> seq<byte>, db: seq<byte> -> B, tb: nat -> GameLumpError,
                                    zs: seq<C>, sc: nat, mc: nat, ec: C -> seq<byte>, dc: seq<byte> -> C, tc: nat -> GameLumpError)
    requires CountedRunAt(file, p, xs, sa, ma, ea, da) && d == p + |CountedRun(xs, ea)|
    requires CountedRunAt(file, d, ys, sb, mb, eb, db) && l == d + |CountedRun(ys, eb)|
    requires CountedRunAt(file, l, zs, sc, mc, ec, dc)
    ensures ReadCounted(file, p, sa, ma, da, ta) == Success((xs, d))
    ensures ReadCounted(file, d, sb, mb, db, tb) == Success((ys, l))
    ensures ReadCounted(file, l, sc, mc, dc, tc) == Success((zs, l + |CountedRun(zs, ec)|))
  {
    ReadCountedRoundTrip(file, p, sa, ma, xs, ea, da, ta);
    ReadCountedRoundTrip(file, d, sb, mb, ys, eb, db, tb);
    ReadCountedRoundTrip(file, l, sc, mc, zs, ec, dc, tc);
  }

  /** The three parts of written static prop data, each at the start of what follows. */
  lemma SprpParts(file: seq<byte>, p: nat, a: seq<byte>, b: seq<byte>, c: seq<byte>)
    requires p + |a + b + c| <= |file| && file[p..p + |a + b + c|] == a + b + c
    ensures file[p..p + |a|] == a
    ensures file[p + |a|..p + |a| + |b|] == b
    ensures file[p + |a| + |b|..p + |a| + |b| + |c|] == c
  {
    assert a + b + c == a + (b + c);
    Split(file, p, a, b + c);
    Split(file, p + |a|, b, c);
  }

  /** ParseSprp is its three runs, read one after another. */
  lemma ParseSprpOfRuns(file: seq<byte>, e: GameLumpEntry, dict: seq<string>, d: nat, leaves: seq<nat>, l: nat,
                        props: seq<StaticProp>, q: nat)
    requires e.version == 10 || e.version == 11
    requires ReadCounted(file, e.fileOfs, DICT_ENTRY_LEN, MAX_DICT_COUNT, DictName, DictTooMany) == Success((dict, d))
    requires ReadCounted(file, d, LEAF_ENTRY_LEN, MAX_LEAF_COUNT, Decode16, LeavesTooMany) == Success((leaves, l))
    requires ReadCounted(file, l, PropLen(e.version), MAX_PROP_COUNT, PropDecoder(e.version), PropsTooMany) == Success((props, q))
    ensures ParseSprp(file, e) == Success((StaticPropLump(dict, leaves, props), q))
  {
  }

  /** The encoder of static prop records of a version. */
  function PropEncoder(version: nat): StaticProp -> seq<byte>
  {
    x => EncodeProp(version, x)
  }

  /** Valid dictionary paths, leaves and props survive their record encodings. */
  lemma LumpRoundTrips(version: nat, s: StaticPropLump)
    requires (version == 10 || version == 11) && LumpOk(version, s)
    ensures RoundTrips(s.modelDict, DICT_ENTRY_LEN, DictBytes, DictName)
    ensures RoundTrips(s.leaves, LEAF_ENTRY_LEN, Encode16, Decode16)
    ensures RoundTrips(s.props, PropLen(version), PropEncoder(version), PropDecoder(version))
  {
    forall i | 0 <= i < |s.modelDict| ensures EncodesBack(s.modelDict[i], DICT_ENTRY_LEN, DictBytes, DictName) {
      DictNameRoundTrip(s.modelDict[i]);
    }
    forall i | 0 <= i < |s.leaves| ensures EncodesBack(s.leaves[i], LEAF_ENTRY_LEN, Encode16, Decode16) {
      assert LeafOk(s.leaves[i]);
    }
    forall i | 0 <= i < |s.props| ensures EncodesBack(s.props[i], PropLen(version), PropEncoder(version), PropDecoder(version)) {
      PropRoundTrip(version, s.props[i]);
    }
  }

  /** The three runs of static prop data, each found where the one before it ends, are read back. */
  lemma SprpRunsReadBack(file: seq<byte>, e: GameLumpEntry, s: StaticPropLump, d: nat, l: nat)
    requires e.version == 10 || e.version == 11
    requires CountedRunAt(file, e.fileOfs, s.modelDict, DICT_ENTRY_LEN, MAX_DICT_COUNT, DictBytes, DictName)
    requires d == e.fileOfs + |CountedRun(s.modelDict, DictBytes)|
    requires CountedRunAt(file, d, s.leaves, LEAF_ENTRY_LEN, MAX_LEAF_COUNT, Encode16, Decode16)
    requires l == d + |CountedRun(s.leaves, Encode16)|
    requires CountedRunAt(file, l, s.props, PropLen(e.version), MAX_PROP_COUNT, PropEncoder(e.version), PropDecoder(e.version))
    ensures ParseSprp(file, e) == Success((s, l + |CountedRun(s.props, PropEncoder(e.version))|))
  {
    ThreeRunsRoundTrip(file, e.fileOfs, d, l, s.modelDict, DICT_ENTRY_LEN, MAX_DICT_COUNT, DictBytes, DictName, DictTooMany,
                       s.leaves, LEAF_ENTRY_LEN, MAX_LEAF_COUNT, Encode16, Decode16, LeavesTooMany,
                       s.props, PropLen(e.version), MAX_PROP_COUNT, PropEncoder(e.version), PropDecoder(e.version), PropsTooMany);
    ParseSprpOfRuns(file, e, s.modelDict, d, s.leaves, l, s.props, l + |CountedRun(s.props, PropEncoder(e.version))|);
  }

  /** The three runs of valid static prop data, written one after another, are read back. */
  lemma SprpLaidOutReadBack(file: seq<byte>, e: GameLumpEntry, s: StaticPropLump)
    requires (e.version == 10 || e.version == 11) && LumpOk(e.version, s)
    requires var a := CountedRun(s.modelDict, DictBytes); var p := e.fileOfs;
      p + |a| <= |file| && file[p..p + |a|] == a
    requires var b := CountedRun(s.leaves, Encode16); var d := e.fileOfs + |CountedRun(s.modelDict, DictBytes)|;
      d + |b| <= |file| && file[d..d + |b|] == b
    requires var c := CountedRun(s.props, PropEncoder(e.version));
      var l := e.fileOfs + |CountedRun(s.modelDict, DictBytes)| + |CountedRun(s.leaves, Encode16)|;
      l + |c| <= |file| && file[l..l + |c|] == c
    ensures ParseSprp(file, e) == Success((s, e.fileOfs + |CountedRun(s.modelDict, DictBytes)|
      + |CountedRun(s.leaves, Encode16)| + |CountedRun(s.props, PropEncoder(e.version))|))
  {
    var d := e.fileOfs + |CountedRun(s.modelDict, DictBytes)|;
    LumpRoundTrips(e.version, s);
    SprpRunsReadBack(file, e, s, d, d + |CountedRun(s.leaves, Encode16)|);
  }

  /**
   * Static prop data written at the `sprp` entry's offset is read back unchanged, and the
   * reader ends right after it.
   */
  lemma SprpRoundTrip(file: seq<byte>, e: GameLumpEntry, s: StaticPropLump)
    requires (e.version == 10 || e.version == 11) && LumpOk(e.version, s)
    requires var w := EncodeSprp(e.version, s); e.fileOfs + |w| <= |file| && file[e.fileOfs..e.fileOfs + |w|] == w
    ensures ParseSprp(file, e) == Success((s, e.fileOfs + |EncodeSprp(e.version, s)|))
  {
    var p := e.fileOfs;
    var a := CountedRun(s.modelDict, DictBytes);
    var b := CountedRun(s.leaves, Encode16);
    var c := CountedRun(s.props, PropEncoder(e.version));
    assert EncodeSprp(e.version, s) == a + b + c;
    SprpParts(file, p, a, b, c);
    SprpLaidOutReadBack(file, e, s);
  }
}
