/**
 * Brush separation: which brushes, and which of their sides, belong to each drawn
 * category of map geometry. A category names a brush test, a brush side test, or both;
 * the tests read the brush's contents bits and the side's texture info.
 */
module BrushSeparation {
  import opened Bits
  import opened Wrappers
  import opened BspMap

  datatype Category = Solid | PlayerClip | GrenadeClip | Ladder | Water | Sky

  /** The brush tests the categories use. */
  datatype BrushTest = IsBrushSolid | IsBrushPlayerClip | IsBrushGrenadeClip | IsBrushLadder | IsBrushWater

  /** The brush side tests the categories use. */
  datatype BrushSideTest = IsBrushSideSolid | IsBrushSideSky

  /** The texture whose sides never count as solid. */
  const TRIGGER_TEXTURE: string := "TOOLS/TOOLSTRIGGER"

  const NUL: char := '\0'

  /**
   * The C string that starts at `start` in a block of NUL-separated names: everything up to
   * the next NUL, or to the end of the block when no NUL follows.
   */
  function CStringAt(data: string, start: nat): (r: string)
    requires start <= |data|
    ensures start + |r| <= |data| && r == data[start..start + |r|]
    ensures forall i :: 0 <= i < |r| ==> r[i] != NUL
    ensures start + |r| == |data| || data[start + |r|] == NUL
    decreases |data| - start
  {
    if start == |data| || data[start] == NUL then []
    else [data[start]] + CStringAt(data, start + 1)
  }

  /** The side's texture info, texdata and name offset all lie inside their lists. */
  predicate SideTextureOk(m: Map, bs: BrushSide)
  {
    && 0 <= bs.texinfo < |m.texinfos|
    && m.texinfos[bs.texinfo].texdata < |m.texdatas|
    && m.texdatas[m.texinfos[bs.texinfo].texdata] < |m.texdataStringTable|
    && m.texdataStringTable[m.texdatas[m.texinfos[bs.texinfo].texdata]] <= |m.texdataStringData|
  }

  /** The texture name of a brush side, looked up through its texinfo and texdata. */
  function TextureName(m: Map, bs: BrushSide): string
    requires SideTextureOk(m, bs)
  {
    var ti := m.texinfos[bs.texinfo];
    CStringAt(m.texdataStringData, m.texdataStringTable[m.texdatas[ti.texdata]])
  }

  /** IS_BRUSH_*: the brush tests. */
  function BrushTestHolds(t: BrushTest, b: Brush): bool
  {
    match t
    case IsBrushSolid =>
      if BrushHasFlags(b, WATER) || BrushHasFlags(b, LADDER) then false
      else BrushHasFlags(b, SOLID) || BrushHasFlags(b, GRATE) || BrushHasFlags(b, WINDOW)
    case IsBrushPlayerClip => BrushHasFlags(b, PLAYERCLIP)
    case IsBrushGrenadeClip => BrushHasFlags(b, GRENADECLIP)
    case IsBrushLadder => BrushHasFlags(b, LADDER)
    case IsBrushWater => BrushHasFlags(b, WATER)
  }

  /** IS_BRUSHSIDE_*: the brush side tests. */
  function SideTestHolds(t: BrushSideTest, m: Map, bs: BrushSide): bool
    requires SideTextureOk(m, bs)
  {
    var ti := m.texinfos[bs.texinfo];
    match t
    case IsBrushSideSolid =>
      if TexInfoHasFlag(ti, SurfFlag.Sky) then false
      else TextureName(m, bs) != TRIGGER_TEXTURE
    case IsBrushSideSky => TexInfoHasFlag(ti, SurfFlag.Sky)
  }

  /**
   * getBrushCategoryTestFuncs: the brush test and the brush side test of a category; a
   * missing test is None.
   */
  function CategoryTests(cat: Category): (r: (Option<BrushTest>, Option<BrushSideTest>))
    ensures r.0.Some? <==> cat != Category.Sky
    ensures r.1.Some? <==> cat == Solid || cat == Category.Sky
  {
    match cat
    case Solid => (Some(IsBrushSolid), Some(IsBrushSideSolid))
    case PlayerClip => (Some(IsBrushPlayerClip), None)
    case GrenadeClip => (Some(IsBrushGrenadeClip), None)
    case Ladder => (Some(IsBrushLadder), None)
    case Water => (Some(IsBrushWater), None)
    case Sky => (None, Some(IsBrushSideSky))
  }

  /** A brush passes the brush test of a category; categories without one accept every brush. */
  predicate BrushInCategory(cat: Category, b: Brush)
  {
    var tests := CategoryTests(cat);
    tests.0.None? || BrushTestHolds(tests.0.value, b)
  }

  /** A side passes the side test of a category; categories without one accept every side. */
  predicate SideInCategory(cat: Category, m: Map, bs: BrushSide)
    requires SideTextureOk(m, bs)
  {
    var tests := CategoryTests(cat);
    tests.1.None? || SideTestHolds(tests.1.value, m, bs)
  }

  /** Every category has at least one test. */
  lemma EveryCategoryTests(cat: Category)
    ensures CategoryTests(cat).0.Some? || CategoryTests(cat).1.Some?
  {
  }

  /** The bits of a brush's contents word that the brush tests read. */
  lemma ContentsTests(b: Brush)
    ensures BrushHasFlags(b, SOLID) <==> Bit(b.contents, 0)
    ensures BrushHasFlags(b, WINDOW) <==> Bit(b.contents, 1)
    ensures BrushHasFlags(b, GRATE) <==> Bit(b.contents, 3)
    ensures BrushHasFlags(b, WATER) <==> Bit(b.contents, 5)
    ensures BrushHasFlags(b, PLAYERCLIP) <==> Bit(b.contents, 16)
    ensures BrushHasFlags(b, GRENADECLIP) <==> Bit(b.contents, 19)
    ensures BrushHasFlags(b, LADDER) <==> Bit(b.contents, 29)
  {
    ContentsBits();
    BrushHasFlagBit(b, 0);
    BrushHasFlagBit(b, 1);
    BrushHasFlagBit(b, 3);
    BrushHasFlagBit(b, 5);
    BrushHasFlagBit(b, 16);
    BrushHasFlagBit(b, 19);
    BrushHasFlagBit(b, 29);
  }

  /**
   * A brush is solid when it is neither water nor a ladder and is solid, a grate or a
   * window, read bit by bit.
   */
  lemma SolidBrushBits(b: Brush)
    ensures BrushInCategory(Solid, b) <==>
      !Bit(b.contents, 5) && !Bit(b.contents, 29) && (Bit(b.contents, 0) || Bit(b.contents, 3) || Bit(b.contents, 1))
  {
    ContentsTests(b);
  }

  /** Each single-flag category holds exactly when its contents bit is set. */
  lemma FlagCategoryBits(b: Brush)
    ensures BrushInCategory(PlayerClip, b) <==> Bit(b.contents, 16)
    ensures BrushInCategory(GrenadeClip, b) <==> Bit(b.contents, 19)
    ensures BrushInCategory(Ladder, b) <==> Bit(b.contents, 29)
    ensures BrushInCategory(Water, b) <==> Bit(b.contents, 5)
  {
    ContentsTests(b);
  }

  /** No brush is both solid and water, or both solid and a ladder. */
  lemma SolidExcludesWaterAndLadder(b: Brush)
    ensures !(BrushInCategory(Solid, b) && BrushInCategory(Water, b))
    ensures !(BrushInCategory(Solid, b) && BrushInCategory(Ladder, b))
  {
  }

  /** A side is solid exactly when it is not sky and its texture is not the trigger texture. */
  lemma SolidSideMeans(m: Map, bs: BrushSide)
    requires SideTextureOk(m, bs)
    ensures SideInCategory(Solid, m, bs) <==> !SideInCategory(Category.Sky, m, bs) && TextureName(m, bs) != TRIGGER_TEXTURE
  {
  }

  /**
   * The name lookup reads exactly the characters up to the first NUL (or the end): any
   * NUL-free run ending there is the name.
   */
  lemma {:induction false} CStringIs(data: string, start: nat, k: nat)
    requires start + k <= |data|
    requires forall i :: start <= i < start + k ==> data[i] != NUL
    requires start + k == |data| || data[start + k] == NUL
    ensures CStringAt(data, start) == data[start..start + k]
    decreases k
  {
    if k > 0 {
      CStringIs(data, start + 1, k - 1);
    }
  }

  /** A side named by the trigger texture and without the sky flag is neither solid nor sky. */
  lemma TriggerSideIsNeither(m: Map, bs: BrushSide, rest: string)
    requires SideTextureOk(m, bs) && !TexInfoHasFlag(m.texinfos[bs.texinfo], SurfFlag.Sky)
    requires var off := m.texdataStringTable[m.texdatas[m.texinfos[bs.texinfo].texdata]];
      m.texdataStringData[off..] == TRIGGER_TEXTURE + [NUL] + rest
    ensures !SideInCategory(Solid, m, bs) && !SideInCategory(Category.Sky, m, bs)
  {
    var off := m.texdataStringTable[m.texdatas[m.texinfos[bs.texinfo].texdata]];
    var data := m.texdataStringData;
    assert data[off..off + |TRIGGER_TEXTURE|] == TRIGGER_TEXTURE;
    CStringIs(data, off, |TRIGGER_TEXTURE|);
  }
}
