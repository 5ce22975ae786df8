/**
 * ParseSingleSolidPhyModel: a PHY collision model with exactly one solid, read from a file
 * held in memory. A 16-byte PHY header and an 80-byte surface header (with the ids `VPHY`
 * and `IVPS`) are followed by convex sections of 16-byte triangle records, the vertices
 * (16 bytes each) and a text section holding the surface property. Vertex positions are
 * floats and stay opaque bytes here.
 */
module PhyModel {
  import opened Bytes
  import opened Wrappers
  import opened MemoryFields
  import opened PhyMesh
  import AssetReader

  /** Bytes from the start of the model to its first section header. */
  const PHY_HEADER_SIZE: nat := 96
  const SECTION_HEADER_SIZE: nat := 16
  const TRIANGLE_SIZE: nat := 16
  const VERTEX_SIZE: nat := 16

  /** The value of the header size field the reader accepts. */
  const HEADER_SIZE_FIELD: nat := 16

  /** The limits on sections read, triangles per section and vertices. */
  const MAX_SECTIONS: nat := 16000
  const MAX_TRIANGLES: nat := 128000
  const MAX_VERTICES: nat := 256000

  /** "VPHY" and "IVPS" as little-endian 32-bit values. */
  const VPHY: nat := 0x5948_5056
  const IVPS: nat := 0x5350_5649

  /** The two ids are their four letters in file order. */
  lemma IdsSpellTheirNames()
    ensures VPHY == U32(['V' as int, 'P' as int, 'H' as int, 'Y' as int])
    ensures IVPS == U32(['I' as int, 'V' as int, 'P' as int, 'S' as int])
  {
  }

  datatype PhyError =
    | SmallerThanHeader
    | ReadError
    | BadHeaderSize(size: nat)
    | MultipleSolids
    | TextBeyondLimit
    | BadVphysicsId(id: nat)
    | BadIvpsField(field: nat)
    | SectionLimit
    | VerticesBeyondText
    | BadSectionHeader
    | TriangleLimit
    | VertexDataBeyondText
    | VertexLimit

  /** A vertex: the twelve bytes of its three float coordinates, as stored. */
  type Vertex = seq<byte>

  /** The sections' meshes and the surface property of the solid. */
  datatype PhyModel = PhyModel(sections: seq<TriMesh<Vertex>>, surfaceProp: string)

  /** x lies within the reading limit; None stands for no limit. */
  predicate Within(maxPos: Option<nat>, x: nat)
  {
    maxPos.None? || x <= maxPos.value
  }

  // ---------------------------------------------------------------------------------------
  // Header
  // ---------------------------------------------------------------------------------------

  /**
   * The PHY header and surface header from p0: the whole 96 bytes must lie within the limit;
   * the header size must be 16 and the solid count 1; the binary data size places the text
   * section, which must lie within the limit; the ids must be VPHY and IVPS. The result is
   * the text section's position. Reads are checked in the order ParseSingleSolidPhyModel makes them.
   */
  function ParseHeader(file: seq<byte>, p0: nat, maxPos: Option<nat>): (r: Result<nat, PhyError>)
    ensures r.Success? ==> p0 + PHY_HEADER_SIZE <= |file| && Within(maxPos, r.value) && p0 + 20 <= r.value
  {
    if !Within(maxPos, p0 + PHY_HEADER_SIZE) then Failure(SmallerThanHeader)
    else if p0 + 16 > |file| then Failure(ReadError)
    else if U32(file[p0..p0 + 4]) != HEADER_SIZE_FIELD then Failure(BadHeaderSize(U32(file[p0..p0 + 4])))
    else if U32(file[p0 + 8..p0 + 12]) != 1 then Failure(MultipleSolids)
    else if p0 + 20 > |file| then Failure(ReadError)
    else
      var textPos := p0 + 20 + U32(file[p0 + 16..p0 + 20]);
      if !Within(maxPos, textPos) then Failure(TextBeyondLimit)
      else if p0 + PHY_HEADER_SIZE > |file| then Failure(ReadError)
      else if U32(file[p0 + 20..p0 + 24]) != VPHY then Failure(BadVphysicsId(U32(file[p0 + 20..p0 + 24])))
      else if U32(file[p0 + 92..p0 + 96]) != IVPS then Failure(BadIvpsField(U32(file[p0 + 92..p0 + 96])))
      else Success(textPos)
  }

  /** The header checks: a model with a solid count other than 1 fails as MultipleSolids. */
  lemma RejectsMultipleSolids(file: seq<byte>, p0: nat, maxPos: Option<nat>)
    requires Within(maxPos, p0 + PHY_HEADER_SIZE) && p0 + 16 <= |file|
    requires U32(file[p0..p0 + 4]) == HEADER_SIZE_FIELD && U32(file[p0 + 8..p0 + 12]) != 1
    ensures ParseHeader(file, p0, maxPos) == Failure(MultipleSolids)
  {
  }

  /** A header that is accepted has size field 16, one solid, and both ids. */
  lemma HeaderAccepted(file: seq<byte>, p0: nat, maxPos: Option<nat>)
    requires ParseHeader(file, p0, maxPos).Success?
    ensures U32(file[p0..p0 + 4]) == HEADER_SIZE_FIELD && U32(file[p0 + 8..p0 + 12]) == 1
    ensures U32(file[p0 + 20..p0 + 24]) == VPHY && U32(file[p0 + 92..p0 + 96]) == IVPS
    ensures ParseHeader(file, p0, maxPos).value == p0 + 20 + U32(file[p0 + 16..p0 + 20])
  {
  }

  // ---------------------------------------------------------------------------------------
  // Sections
  // ---------------------------------------------------------------------------------------

  /** A section header: offset of the vertices from the section start, flags, triangle count. */
  datatype SectionHeader = SectionHeader(vertOffset: nat, flags: nat, triCount: nat)

  function SectionHeaderAt(file: seq<byte>, p: nat): (r: Option<SectionHeader>)
    ensures r.Some? <==> p + SECTION_HEADER_SIZE <= |file|
  {
    if p + SECTION_HEADER_SIZE <= |file| then
      Some(SectionHeader(U32(file[p..p + 4]), U32(file[p + 8..p + 12]), U32(file[p + 12..p + 16])))
    else None
  }

  /** A triangle record: three 16-bit vertex indices at 4, 8 and 12. */
  function FaceOf(rec: seq<byte>): Face
  {
    if |rec| == TRIANGLE_SIZE then Face(U16(rec[4..6]), U16(rec[8..10]), U16(rec[12..14])) else Face(0, 0, 0)
  }

  /** A vertex record: the three floats, without the unused fourth field. */
  function VertexOf(rec: seq<byte>): Vertex
  {
    if |rec| == VERTEX_SIZE then rec[..12] else []
  }

  /** The shrink-wrap flag (bit 0) of a section. */
  predicate ShrinkWrap(h: SectionHeader)
  {
    h.flags % 2 == 1
  }

  /** The larger of two indices. */
  function Max(a: int, b: int): int
  {
    if a < b then b else a
  }

  /** The highest vertex index after visiting the faces, starting from h. */
  function Highest(h: int, fs: seq<Face>): (r: int)
    decreases |fs|
  {
    if fs == [] then h else Highest(Max(Max(Max(h, fs[0].v1), fs[0].v2), fs[0].v3), fs[1..])
  }

  /** The highest index bounds every face's indices and the starting value, and is one of them. */
  lemma {:induction false} HighestBounds(h: int, fs: seq<Face>)
    ensures Highest(h, fs) >= h
    ensures forall i :: 0 <= i < |fs| ==> fs[i].v1 <= Highest(h, fs) && fs[i].v2 <= Highest(h, fs) && fs[i].v3 <= Highest(h, fs)
    ensures Highest(h, fs) == h || exists i :: 0 <= i < |fs| && Highest(h, fs) in {fs[i].v1, fs[i].v2, fs[i].v3}
    decreases |fs|
  {
    if fs != [] {
      var h1 := Max(Max(Max(h, fs[0].v1), fs[0].v2), fs[0].v3);
      HighestBounds(h1, fs[1..]);
      forall i | 1 <= i < |fs| ensures fs[i].v1 <= Highest(h, fs) && fs[i].v2 <= Highest(h, fs) && fs[i].v3 <= Highest(h, fs) {
        assert fs[i] == fs[1..][i - 1];
      }
      if Highest(h, fs) != h1 {
        var i :| 0 <= i < |fs[1..]| && Highest(h1, fs[1..]) in {fs[1..][i].v1, fs[1..][i].v2, fs[1..][i].v3};
        assert fs[1..][i] == fs[i + 1];
      }
    }
  }

  /** The state of the section loop. */
  datatype Scan = Scan(pos: nat, sectionsEnd: nat, verticesStart: nat, highest: int, sections: seq<seq<Face>>)

  /** One turn of the section loop: the loop ends, fails, or goes on from a new state. */
  datatype SectionTurn = Done | Bad(error: PhyError) | Next(scan: Scan)

  /**
   * One turn of the section loop: it ends when no section header fits before the end of
   * the sections; at most 16001 sections are read (the limit is checked before each). A
   * section's vertices must start no later than the text section, and they become the new
   * end of the sections; its triangles must fit before them, and there may be at most
   * 128000. A shrink-wrap section is read but dropped unless it is wanted, and so is an
   * empty one; the indices of a kept section raise the highest vertex index.
   */
  function SectionStep(file: seq<byte>, textPos: nat, keepWrapped: bool, s: Scan): (r: SectionTurn)
    requires s.sectionsEnd <= textPos
    ensures r.Bad? ==> r.error in {SectionLimit, ReadError, VerticesBeyondText, BadSectionHeader, TriangleLimit}
    ensures r.Done? <==> s.pos + SECTION_HEADER_SIZE > s.sectionsEnd
    ensures r.Next? ==> s.pos < r.scan.pos <= r.scan.sectionsEnd == r.scan.verticesStart <= textPos
  {
    if s.pos + SECTION_HEADER_SIZE > s.sectionsEnd then Done
    else if |s.sections| > MAX_SECTIONS then Bad(SectionLimit)
    else match SectionHeaderAt(file, s.pos)
      case None => Bad(ReadError)
      case Some(h) =>
        var ignore := ShrinkWrap(h) && !keepWrapped;
        var vstart := s.pos + h.vertOffset;
        var tris := s.pos + SECTION_HEADER_SIZE;
        if vstart > textPos then Bad(VerticesBeyondText)
        else if tris + h.triCount * TRIANGLE_SIZE > vstart then Bad(BadSectionHeader)
        else if h.triCount > MAX_TRIANGLES then Bad(TriangleLimit)
        else match ReadRecords(file, tris, TRIANGLE_SIZE, h.triCount, FaceOf)
          case None => Bad(ReadError)
          case Some(fs) =>
            var kept := if ignore || fs == [] then s.sections else s.sections + [fs];
            var highest := if ignore then s.highest else Highest(s.highest, fs);
            Next(Scan(tris + h.triCount * TRIANGLE_SIZE, vstart, vstart, highest, kept))
  }

  /** The section loop: turns until one ends it or fails. */
  function Sections(file: seq<byte>, textPos: nat, keepWrapped: bool, s: Scan): (r: Result<Scan, PhyError>)
    requires s.sectionsEnd <= textPos
    ensures r.Failure? ==> r.error in {SectionLimit, ReadError, VerticesBeyondText, BadSectionHeader, TriangleLimit}
    ensures r.Success? ==> r.value.pos + SECTION_HEADER_SIZE > r.value.sectionsEnd
    decreases textPos - s.pos
  {
    match SectionStep(file, textPos, keepWrapped, s)
    case Done => Success(s)
    case Bad(e) => Failure(e)
    case Next(s') => Sections(file, textPos, keepWrapped, s')
  }

  /** Every kept section is non-empty, has at most 128000 faces, and uses indices up to the highest. */
  predicate SectionsOk(ss: seq<seq<Face>>, highest: int)
  {
    forall k :: 0 <= k < |ss| ==> ss[k] != [] && |ss[k]| <= MAX_TRIANGLES && FacesBelow(ss[k], highest)
  }

  /** Every index of the faces is at most h. */
  predicate FacesBelow(fs: seq<Face>, h: int)
  {
    forall i :: 0 <= i < |fs| ==> fs[i].v1 <= h && fs[i].v2 <= h && fs[i].v3 <= h
  }

  /** Faces whose indices are at most h are also at most any larger h'. */
  lemma FacesBelowMore(fs: seq<Face>, h: int, h': int)
    requires FacesBelow(fs, h) && h <= h'
    ensures FacesBelow(fs, h')
  {
  }

  /** One more kept section keeps the sections in order. */
  lemma SectionsOkStep(ss: seq<seq<Face>>, h: int, fs: seq<Face>, h': int, kept: seq<seq<Face>>)
    requires SectionsOk(ss, h) && h <= h'
    requires kept == ss || (kept == ss + [fs] && fs != [] && |fs| <= MAX_TRIANGLES && FacesBelow(fs, h'))
    ensures SectionsOk(kept, h')
  {
    forall k | 0 <= k < |kept| ensures kept[k] != [] && |kept[k]| <= MAX_TRIANGLES && FacesBelow(kept[k], h') {
      if k < |ss| {
        assert kept[k] == ss[k];
        FacesBelowMore(ss[k], h, h');
      }
    }
  }

  /** What a loop turn keeps: the section order, the highest index bound, the section limit. */
  predicate Keeps(s: Scan, s': Scan)
  {
    && SectionsOk(s'.sections, s'.highest) && s'.highest >= s.highest
    && |s'.sections| <= MAX_SECTIONS + 1 && s.sections <= s'.sections
  }

  /** One turn keeps the sections in order, and adds at most one. */
  lemma StepKeeps(file: seq<byte>, textPos: nat, keepWrapped: bool, s: Scan)
    requires s.sectionsEnd <= textPos && SectionsOk(s.sections, s.highest) && |s.sections| <= MAX_SECTIONS + 1
    requires SectionStep(file, textPos, keepWrapped, s).Next?
    ensures Keeps(s, SectionStep(file, textPos, keepWrapped, s).scan)
  {
    var h := SectionHeaderAt(file, s.pos).value;
    var tris := s.pos + SECTION_HEADER_SIZE;
    var fs := ReadRecords(file, tris, TRIANGLE_SIZE, h.triCount, FaceOf).value;
    var ignore := ShrinkWrap(h) && !keepWrapped;
    var s' := SectionStep(file, textPos, keepWrapped, s).scan;
    HighestBounds(s.highest, fs);
    SectionsOkStep(s.sections, s.highest, fs, s'.highest, s'.sections);
  }

  /** Keeping is transitive. */
  lemma KeepsChain(s: Scan, s': Scan, s'': Scan)
    requires Keeps(s, s') && Keeps(s', s'')
    ensures Keeps(s, s'')
  {
  }

  /**
   * The loop keeps its sections in order and never lowers the highest index: every kept
   * section is non-empty, within the triangle limit and uses indices up to the final
   * highest index; at most 16001 sections are kept; the vertices start no later than the
   * text section.
   */
  lemma {:induction false} SectionsKeep(file: seq<byte>, textPos: nat, keepWrapped: bool, s: Scan)
    requires s.sectionsEnd <= textPos && SectionsOk(s.sections, s.highest) && |s.sections| <= MAX_SECTIONS + 1
    requires s.verticesStart <= textPos
    ensures var r := Sections(file, textPos, keepWrapped, s);
      r.Success? ==> Keeps(s, r.value) && r.value.verticesStart <= textPos
    decreases textPos - s.pos
  {
    match SectionStep(file, textPos, keepWrapped, s)
    case Done =>
    case Bad(_) =>
    case Next(s') =>
      StepKeeps(file, textPos, keepWrapped, s);
      SectionsKeep(file, textPos, keepWrapped, s');
      if Sections(file, textPos, keepWrapped, s').Success? {
        KeepsChain(s, s', Sections(file, textPos, keepWrapped, s').value);
      }
  }

  /**
   * A shrink-wrap section, when shrink-wrap shapes are not wanted, is read and checked but
   * changes neither the kept sections nor the highest index.
   */
  lemma ShrinkWrapDropped(file: seq<byte>, textPos: nat, s: Scan, h: SectionHeader, fs: seq<Face>)
    requires s.sectionsEnd <= textPos && s.pos + SECTION_HEADER_SIZE <= s.sectionsEnd && |s.sections| <= MAX_SECTIONS
    requires SectionHeaderAt(file, s.pos) == Some(h) && ShrinkWrap(h)
    requires s.pos + h.vertOffset <= textPos
    requires s.pos + SECTION_HEADER_SIZE + h.triCount * TRIANGLE_SIZE <= s.pos + h.vertOffset && h.triCount <= MAX_TRIANGLES
    requires ReadRecords(file, s.pos + SECTION_HEADER_SIZE, TRIANGLE_SIZE, h.triCount, FaceOf) == Some(fs)
    ensures var vstart := s.pos + h.vertOffset;
      SectionStep(file, textPos, false, s)
        == Next(s.(pos := s.pos + SECTION_HEADER_SIZE + h.triCount * TRIANGLE_SIZE, sectionsEnd := vstart, verticesStart := vstart))
  {
  }

  /** A section without triangles is dropped: it changes neither the kept sections nor the highest index. */
  lemma EmptySectionDropped(file: seq<byte>, textPos: nat, keepWrapped: bool, s: Scan, h: SectionHeader)
    requires s.sectionsEnd <= textPos && s.pos + SECTION_HEADER_SIZE <= s.sectionsEnd && |s.sections| <= MAX_SECTIONS
    requires SectionHeaderAt(file, s.pos) == Some(h) && h.triCount == 0
    requires s.pos + SECTION_HEADER_SIZE <= s.pos + h.vertOffset <= textPos
    ensures var vstart := s.pos + h.vertOffset;
      SectionStep(file, textPos, keepWrapped, s)
        == Next(s.(pos := s.pos + SECTION_HEADER_SIZE, sectionsEnd := vstart, verticesStart := vstart))
  {
    assert ReadRecords(file, s.pos + SECTION_HEADER_SIZE, TRIANGLE_SIZE, 0, FaceOf) == Some([]);
  }

  /** The section limit: with more than 16000 sections kept, a further section header fails the model. */
  lemma SectionLimitReached(file: seq<byte>, textPos: nat, keepWrapped: bool, s: Scan)
    requires s.sectionsEnd <= textPos && s.pos + SECTION_HEADER_SIZE <= s.sectionsEnd && |s.sections| > MAX_SECTIONS
    ensures Sections(file, textPos, keepWrapped, s) == Failure(SectionLimit)
  {
  }

  // ---------------------------------------------------------------------------------------
  // Vertices
  // ---------------------------------------------------------------------------------------

  /**
   * The vertices: none when no index was read; otherwise highest + 1 records from where the
   * last section header placed them, which must end no later than the text section, and at
   * most 256000 of them.
   */
  function Vertices(file: seq<byte>, textPos: nat, s: Scan): (r: Result<seq<Vertex>, PhyError>)
    ensures r.Success? ==> |r.value| == (if s.highest >= 0 then s.highest + 1 else 0)
  {
    if s.highest < 0 then Success([])
    else
      var num := s.highest + 1;
      if s.verticesStart + num * VERTEX_SIZE > textPos then Failure(VertexDataBeyondText)
      else if num > MAX_VERTICES then Failure(VertexLimit)
      else match ReadRecords(file, s.verticesStart, VERTEX_SIZE, num, VertexOf)
        case None => Failure(ReadError)
        case Some(vs) => Success(vs)
  }

  /** Face indices are 16-bit, so the highest index stays below 65536. */
  lemma {:induction false} HighestIs16Bit(h: int, fs: seq<Face>)
    requires h < TWO16 && forall i :: 0 <= i < |fs| ==> fs[i].v1 < TWO16 && fs[i].v2 < TWO16 && fs[i].v3 < TWO16
    ensures Highest(h, fs) < TWO16
    decreases |fs|
  {
    if fs != [] {
      HighestIs16Bit(Max(Max(Max(h, fs[0].v1), fs[0].v2), fs[0].v3), fs[1..]);
    }
  }

  /** Records read as faces carry 16-bit indices. */
  lemma FacesAre16Bit(file: seq<byte>, p: nat, count: nat, fs: seq<Face>)
    requires ReadRecords(file, p, TRIANGLE_SIZE, count, FaceOf) == Some(fs)
    ensures forall i :: 0 <= i < |fs| ==> fs[i].v1 < TWO16 && fs[i].v2 < TWO16 && fs[i].v3 < TWO16
  {
    ReadRecordsIsTable(file, p, TRIANGLE_SIZE, count, FaceOf);
  }

  /** One turn keeps the highest index below 65536. */
  lemma StepHighest16Bit(file: seq<byte>, textPos: nat, keepWrapped: bool, s: Scan)
    requires s.sectionsEnd <= textPos && s.highest < TWO16
    requires SectionStep(file, textPos, keepWrapped, s).Next?
    ensures SectionStep(file, textPos, keepWrapped, s).scan.highest < TWO16
  {
    var h := SectionHeaderAt(file, s.pos).value;
    var tris := s.pos + SECTION_HEADER_SIZE;
    var fs := ReadRecords(file, tris, TRIANGLE_SIZE, h.triCount, FaceOf).value;
    FacesAre16Bit(file, tris, h.triCount, fs);
    HighestIs16Bit(s.highest, fs);
  }

  /**
   * The section loop never raises the highest index to 65536 or more, so the vertex limit
   * of 256000 can never be reached: at most 65536 vertices are read.
   */
  lemma {:induction false} SectionsHighest16Bit(file: seq<byte>, textPos: nat, keepWrapped: bool, s: Scan)
    requires s.sectionsEnd <= textPos && s.highest < TWO16
    ensures Sections(file, textPos, keepWrapped, s).Success? ==> Sections(file, textPos, keepWrapped, s).value.highest < TWO16
    decreases textPos - s.pos
  {
    match SectionStep(file, textPos, keepWrapped, s)
    case Done =>
    case Bad(_) =>
    case Next(s') =>
      StepHighest16Bit(file, textPos, keepWrapped, s);
      SectionsHighest16Bit(file, textPos, keepWrapped, s');
  }

  // ---------------------------------------------------------------------------------------
  // Text section
  // ---------------------------------------------------------------------------------------

  const NEWLINE: byte := 10

  /** The position of the first newline at or after p, if the file has one. */
  function NewlineFrom(file: seq<byte>, p: nat): (r: Option<nat>)
    ensures r.Some? ==> p <= r.value < |file| && file[r.value] == NEWLINE
    ensures r.Some? ==> forall j :: p <= j < r.value ==> file[j] != NEWLINE
    ensures r.None? ==> forall j :: p <= j < |file| ==> file[j] != NEWLINE
    decreases |file| - p
  {
    if p >= |file| then None
    else if file[p] == NEWLINE then Some(p)
    else NewlineFrom(file, p + 1)
  }

  /**
   * ReadLine with the bytes left before the limit as its fail length: the bytes before the
   * next newline, when the newline lies before the limit (the line is shorter than the fail
   * length) and inside the file.
   */
  function LineAt(file: seq<byte>, p: nat, maxPos: Option<nat>): (r: Option<seq<byte>>)
    ensures r.Some? ==> p + |r.value| < |file| && NEWLINE !in r.value && file[p..p + |r.value| + 1] == r.value + [NEWLINE]
    ensures r.Some? ==> Within(maxPos, p + |r.value| + 1)
  {
    match NewlineFrom(file, p)
    case None => None
    case Some(j) =>
      if !Within(maxPos, j + 1) then None
      else
        assert file[p..j + 1] == file[p..j] + [NEWLINE];
        Some(file[p..j])
  }

  /** The line LineAt gives is what the asset reader's ReadLine delivers from a memory file. */
  lemma LineAtIsReadLine(file: seq<byte>, p: nat, maxPos: nat, line: seq<byte>)
    requires p <= maxPos && LineAt(file, p, Some(maxPos)) == Some(line)
    ensures AssetReader.ReadLine(MemoryReader(file, p), NEWLINE, maxPos - p)
            == AssetReader.Got(MemoryReader(file, p + |line| + 1), line, true)
  {
    AssetReader.ReadLineOfMemory(MemoryReader(file, p), NEWLINE, maxPos - p, [], line);
  }

  /** The prefix of a surface property line. */
  const SURFACEPROP_PREFIX: string := "\"surfaceprop\" \""

  predicate StartsWith(line: string, prefix: string)
  {
    |prefix| <= |line| && line[..|prefix|] == prefix
  }

  /**
   * The text loop: lines are read until one fails; "solid {" opens the solid block and "}"
   * closes it; inside the block, a line of at least 16 characters that ends with a quote and
   * starts with `"surfaceprop" "` gives the property between the quotes and ends the loop.
   * When no such line is read the property is empty.
   */
  function TextScan(file: seq<byte>, p: nat, maxPos: Option<nat>, inSolid: bool): (r: string)
    decreases |file| - p
  {
    match LineAt(file, p, maxPos)
    case None => ""
    case Some(bytes) =>
      var line := Chars(bytes);
      var next := p + |bytes| + 1;
      if line == "solid {" then TextScan(file, next, maxPos, true)
      else if line == "}" then TextScan(file, next, maxPos, false)
      else if inSolid && |line| >= 16 && line[|line| - 1] == '"' && StartsWith(line, SURFACEPROP_PREFIX) then
        line[15..|line| - 1]
      else TextScan(file, next, maxPos, inSolid)
  }

  /** The bytes of a string of 8-bit characters. */
  function Encode(s: string): (r: seq<byte>)
    requires forall i :: 0 <= i < |s| ==> s[i] as int < 256
    ensures |r| == |s| && Chars(r) == s
  {
    var r := seq(|s|, i requires 0 <= i < |s| => s[i] as int);
    assert forall i :: 0 <= i < |s| ==> Chars(r)[i] == s[i];
    r
  }

  /** A surface property value: 8-bit characters and no newline. */
  predicate PropValue(v: string)
  {
    forall i :: 0 <= i < |v| ==> v[i] as int < 256 && v[i] != '\n'
  }

  /** The line `"surfaceprop" "v"`. */
  function PropLine(v: string): string
  {
    SURFACEPROP_PREFIX + v + "\""
  }

  /** The first newline from p is at j when j holds one and none comes before it. */
  lemma {:induction false} FirstNewline(file: seq<byte>, p: nat, j: nat)
    requires p <= j < |file| && file[j] == NEWLINE && forall k :: p <= k < j ==> file[k] != NEWLINE
    ensures NewlineFrom(file, p) == Some(j)
    decreases j - p
  {
    if p < j {
      FirstNewline(file, p + 1, j);
    }
  }

  /** A line of 8-bit characters without a newline, then a newline, read at p. */
  lemma ReadsLine(file: seq<byte>, p: nat, maxPos: Option<nat>, line: string)
    requires forall i :: 0 <= i < |line| ==> line[i] as int < 256 && line[i] != '\n'
    requires p + |line| < |file| && file[p..p + |line| + 1] == Encode(line) + [NEWLINE]
    requires Within(maxPos, p + |line| + 1)
    ensures LineAt(file, p, maxPos) == Some(Encode(line))
  {
    var b := Encode(line);
    forall j | p <= j < p + |line| ensures file[j] != NEWLINE {
      assert file[j] == file[p..p + |line| + 1][j - p] == b[j - p];
      assert Chars(b)[j - p] == line[j - p];
    }
    assert file[p + |line|] == file[p..p + |line| + 1][|line|];
    FirstNewline(file, p, p + |line|);
    assert file[p..p + |line|] == file[p..p + |line| + 1][..|line|];
  }

  /** A property line is no block line and is recognised as one, giving v back. */
  lemma PropLineFacts(v: string)
    ensures var b := PropLine(v);
      && b != "solid {" && b != "}" && |b| >= 16 && b[|b| - 1] == '"'
      && StartsWith(b, SURFACEPROP_PREFIX) && b[15..|b| - 1] == v
  {
    var b := PropLine(v);
    assert b[..15] == SURFACEPROP_PREFIX;
    assert b[0] == '"';
  }

  /** Inside the solid block, the line `"surfaceprop" "v"` at p gives v. */
  lemma PropLineRead(file: seq<byte>, p: nat, maxPos: Option<nat>, v: string)
    requires PropValue(v)
    requires var b := PropLine(v);
      && p + |b| < |file| && file[p..p + |b| + 1] == Encode(b) + [NEWLINE] && Within(maxPos, p + |b| + 1)
    ensures TextScan(file, p, maxPos, true) == v
  {
    ReadsLine(file, p, maxPos, PropLine(v));
    PropLineFacts(v);
  }

  /**
   * Round trip of the text section: the lines `solid {` and `"surfaceprop" "v"` at the
   * text section, within the limit, give v.
   */
  lemma SurfacePropRoundTrip(file: seq<byte>, p: nat, maxPos: Option<nat>, v: string)
    requires PropValue(v)
    requires var a := "solid {"; var b := PropLine(v);
      && p + |a| + |b| + 2 <= |file|
      && file[p..p + |a| + 1] == Encode(a) + [NEWLINE]
      && file[p + |a| + 1..p + |a| + |b| + 2] == Encode(b) + [NEWLINE]
      && Within(maxPos, p + |a| + |b| + 2)
    ensures TextScan(file, p, maxPos, false) == v
  {
    ReadsLine(file, p, maxPos, "solid {");
    PropLineRead(file, p + 8, maxPos, v);
  }

  // ---------------------------------------------------------------------------------------
  // The whole model
  // ---------------------------------------------------------------------------------------

  /** Every face of every kept section refers to one of n vertices. */
  predicate AllFacesWithin(ss: seq<seq<Face>>, n: nat)
  {
    forall k :: 0 <= k < |ss| ==> FacesWithin(ss[k], n)
  }

  /** Sections whose indices are at most the highest refer to the highest + 1 vertices. */
  lemma SectionsWithinVertices(ss: seq<seq<Face>>, highest: int, n: nat)
    requires SectionsOk(ss, highest) && n == (if highest >= 0 then highest + 1 else 0)
    ensures AllFacesWithin(ss, n)
  {
    forall k | 0 <= k < |ss| ensures FacesWithin(ss[k], n) {
      assert ss[k][0] == ss[k][0];
    }
  }

  /** The meshes of the kept sections. */
  function Meshes(ss: seq<seq<Face>>, vs: seq<Vertex>): (r: seq<TriMesh<Vertex>>)
    requires AllFacesWithin(ss, |vs|)
    ensures |r| == |ss|
  {
    seq(|ss|, k requires 0 <= k < |ss| => BuildMesh(ss[k], vs))
  }

  /** The start of the section loop: at the first section header, no index read yet. */
  function StartScan(p0: nat, textPos: nat): Scan
  {
    Scan(p0 + PHY_HEADER_SIZE, textPos, 0, -1, [])
  }

  /** The reading limit as a position: from p0, maxCount bytes (None for no limit). */
  function Limit(p0: nat, maxCount: Option<nat>): Option<nat>
  {
    if maxCount.None? then None else Some(p0 + maxCount.value)
  }

  /** What the binary part of the model gives: the text section's place, the sections and the vertices. */
  datatype Binary = Binary(textPos: nat, scan: Scan, vertices: seq<Vertex>)

  /**
   * The binary part of the model from p0: the header, the sections and the vertices, in
   * that order; the first error ends it. The kept sections then use only the vertices read.
   */
  function ParseBinary(file: seq<byte>, p0: nat, maxCount: Option<nat>, keepWrapped: bool): (r: Result<Binary, PhyError>)
    ensures r.Success? ==> SectionsOk(r.value.scan.sections, r.value.scan.highest) && |r.value.scan.sections| <= MAX_SECTIONS + 1
    ensures r.Success? ==> AllFacesWithin(r.value.scan.sections, |r.value.vertices|)
  {
    match ParseHeader(file, p0, Limit(p0, maxCount))
    case Failure(e) => Failure(e)
    case Success(textPos) =>
      var s0 := StartScan(p0, textPos);
      match Sections(file, textPos, keepWrapped, s0)
      case Failure(e) => Failure(e)
      case Success(s) =>
        match Vertices(file, textPos, s)
        case Failure(e) => Failure(e)
        case Success(vs) =>
          SectionsKeep(file, textPos, keepWrapped, s0);
          SectionsWithinVertices(s.sections, s.highest, |vs|);
          Success(Binary(textPos, s, vs))
  }

  /**
   * ParseSingleSolidPhyModel on a memory file from p0, with maxCount bytes allowed (None for
   * no limit) and shrink-wrap shapes kept or not: the binary part, then the surface property
   * from the text section and a mesh per kept section.
   */
  function ParsePhy(file: seq<byte>, p0: nat, maxCount: Option<nat>, keepWrapped: bool): (r: Result<PhyModel, PhyError>)
    ensures r.Failure? <==> ParseBinary(file, p0, maxCount, keepWrapped).Failure?
    ensures r.Failure? ==> r.error == ParseBinary(file, p0, maxCount, keepWrapped).error
  {
    match ParseBinary(file, p0, maxCount, keepWrapped)
    case Failure(e) => Failure(e)
    case Success(b) =>
      Success(PhyModel(Meshes(b.scan.sections, b.vertices), TextScan(file, b.textPos, Limit(p0, maxCount), false)))
  }

  /**
   * A parsed model has at most 16001 sections; each is a non-empty mesh of at most 128000
   * triangles whose triangle and edge indices are vertices of the section, with unique edges
   * that cover every triangle side.
   */
  lemma ParsedMeshesWellFormed(file: seq<byte>, p0: nat, maxCount: Option<nat>, keepWrapped: bool)
    requires ParsePhy(file, p0, maxCount, keepWrapped).Success?
    ensures var m := ParsePhy(file, p0, maxCount, keepWrapped).value;
      && |m.sections| <= MAX_SECTIONS + 1
      && forall k :: 0 <= k < |m.sections| ==> MeshOk(m.sections[k])
  {
    var b := ParseBinary(file, p0, maxCount, keepWrapped).value;
    var m := ParsePhy(file, p0, maxCount, keepWrapped).value;
    assert m.sections == Meshes(b.scan.sections, b.vertices);
    forall k | 0 <= k < |m.sections| ensures MeshOk(m.sections[k]) {
      var fs := b.scan.sections[k];
      assert m.sections[k] == BuildMesh(fs, b.vertices);
      BuildMeshCorrect(fs, b.vertices);
      BuildMeshEdges(fs, b.vertices);
    }
  }

  /**
   * A section mesh as the collision code needs it: between 1 and 128000 triangles, triangle
   * and edge indices within the vertices, unique edges covering every triangle side.
   */
  predicate MeshOk(t: TriMesh<Vertex>)
  {
    && 0 < |t.tris| <= MAX_TRIANGLES
    && TrisWithin(t.tris, |t.vertices|) && EdgesWithin(t.edges, |t.vertices|)
    && NoDuplicateEdges(t.edges) && (forall i :: 0 <= i < |t.tris| ==> Covers(t.edges, t.tris[i]))
  }

  /** At most 65536 vertices are read, so the vertex limit of 256000 never fails a model. */
  lemma NoVertexLimit(file: seq<byte>, p0: nat, maxCount: Option<nat>, keepWrapped: bool)
    ensures ParseBinary(file, p0, maxCount, keepWrapped).Success? ==> |ParseBinary(file, p0, maxCount, keepWrapped).value.vertices| <= TWO16
    ensures ParsePhy(file, p0, maxCount, keepWrapped) != Failure(VertexLimit)
  {
    var maxPos := Limit(p0, maxCount);
    if ParseHeader(file, p0, maxPos).Success? {
      var textPos := ParseHeader(file, p0, maxPos).value;
      var s0 := StartScan(p0, textPos);
      SectionsHighest16Bit(file, textPos, keepWrapped, s0);
      if Sections(file, textPos, keepWrapped, s0).Success? {
        var s := Sections(file, textPos, keepWrapped, s0).value;
        assert Vertices(file, textPos, s) != Failure(VertexLimit);
      }
    }
  }
}
