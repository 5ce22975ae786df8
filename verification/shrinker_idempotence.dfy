/**
 * Shrinking a shrunk map: the corrected shrinker leaves its own output unchanged, while
 * the script as written raises on its own output whenever the input map had no props.
 */
module ShrinkerIdempotence {
  import opened Wrappers
  import opened Bytes
  import opened Shrinker
  import opened ShrinkerProofs

  /** A directory whose entries all fit below 2^31 reads back, through the signed unpack, as written. */
  lemma ReadBack(o: seq<byte>, nd: seq<int>)
    requires |o| >= DIR_END && |nd| == 256
    requires forall i :: 0 <= i < 256 ==> OutEntry(o, i) == nd[i]
    requires forall i :: 0 <= i < 256 ==> nd[i] < TWO31
    ensures ParseDirectory(o) == Success(nd)
  {
    var d := ParseDirectory(o).value;
    forall i | 0 <= i < 256
      ensures d[i] == nd[i]
    {
      assert OutEntry(o, i) == nd[i] < TWO31;
      I32OfSmallU32(o[DIR_OFS + 4 * i..DIR_OFS + 4 * i + 4]);
    }
    assert d == nd;
  }

  /** Every entry BuildDir writes is below a bound that exceeds the last write position. */
  lemma {:induction false} BuildDirBelow(wl: seq<nat>, data: seq<seq<byte>>, oldDir: seq<int>, newDir: seq<int>, pos: nat, bound: int)
    requires |data| == 64 && |oldDir| == 256 && |newDir| == 256 && InDirectory(wl)
    requires forall i :: 0 <= i < 256 ==> newDir[i] < bound && oldDir[i] < bound
    requires pos + PaddedSize(wl, data) < bound
    ensures forall i :: 0 <= i < 256 ==> BuildDir(wl, data, oldDir, newDir, pos)[i] < bound
  {
    if wl != [] {
      var l := wl[0];
      var d := newDir[4 * l := pos][4 * l + 1 := |data[l]|][4 * l + 2 := oldDir[4 * l + 2]];
      BuildDirBelow(wl[1..], data, oldDir, d, pos + PadTo16(|data[l]|), bound);
    }
  }

  /** In a laid-out output, each listed lump other than the game lump reads back as collected. */
  lemma SecondLumps(o: seq<byte>, wl: seq<nat>, data: seq<seq<byte>>, patched: seq<seq<byte>>, dir: seq<int>, nd: seq<int>)
    requires |data| == 64 && |patched| == 64 && |dir| == 256 && InDirectory(wl) && Distinct(wl)
    requires |o| >= PAYLOAD_BASE && o[PAYLOAD_BASE..] == Body(wl, patched)
    requires nd == BuildDir(wl, data, dir, ZERO_DIR, PAYLOAD_BASE)
    requires forall i :: 0 <= i < 256 ==> OutEntry(o, i) == nd[i]
    requires forall j :: 0 <= j < 64 ==> |patched[j]| == |data[j]|
    ensures forall l :: l in wl ==> LumpSlice(o, nd, l) == patched[l]
  {
    forall l | l in wl
      ensures LumpSlice(o, nd, l) == patched[l]
    {
      var k :| 0 <= k < |wl| && wl[k] == l;
      LaidLump(o, wl, data, patched, dir, nd, k, l);
      assert OutEntry(o, 4 * l) == nd[4 * l] && OutEntry(o, 4 * l + 1) == nd[4 * l + 1];
    }
  }

  /** Sixteen bytes unpack to four signed integers, one per four-byte group. */
  lemma UnpackFour(b: seq<byte>)
    requires |b| == 16
    ensures UnpackI32s(b) == [I32(b[0..4]), I32(b[4..8]), I32(b[8..12]), I32(b[12..16])]
  {
    var r := UnpackI32s(b);
    assert r[0] == I32(b[0..4]) && r[1] == I32(b[4..8]) && r[2] == I32(b[8..12]) && r[3] == I32(b[12..16]);
  }

  /** The one sub-lump entry of a relocated game lump, with its small fields read as signed. */
  lemma RelocatedHeader(g: seq<byte>, ofs: nat, flagsVersion: int, sprp: seq<byte>)
    requires RelocatedGameLump(g, ofs, flagsVersion, sprp) && flagsVersion < TWO31 && ofs + |g| < TWO31
    ensures I32(g[0..4]) == 1
    ensures UnpackI32s(g[4..20]) == [SPRP_ID, flagsVersion, ofs + GAME_LUMP_HEADER, |sprp|]
  {
    var h := g[4..20];
    assert h[0..4] == g[4..8] && h[4..8] == g[8..12] && h[8..12] == g[12..16] && h[12..16] == g[16..20];
    UnpackFour(h);
    I32OfSmallU32(g[0..4]);
    I32OfSmallU32(g[4..8]);
    I32OfSmallU32(g[8..12]);
    I32OfSmallU32(g[12..16]);
    I32OfSmallU32(g[16..20]);
  }

  /** The sub-lump directory of a relocated game lump lists exactly its 'sprp' entry. */
  lemma RelocatedEntries(g: seq<byte>, ofs: nat, flagsVersion: int, sprp: seq<byte>)
    requires RelocatedGameLump(g, ofs, flagsVersion, sprp) && flagsVersion < TWO31 && ofs + |g| < TWO31
    ensures SubLumpEntries(g) == Success([SPRP_ID, flagsVersion, ofs + GAME_LUMP_HEADER, |sprp|])
  {
    RelocatedHeader(g, ofs, flagsVersion, sprp);
    assert Slice(g, 0, 4) == g[0..4];
    assert Slice(g, 4, 4 + 1 * 16) == g[4..20];
  }

  /** The sub-lump scan of a relocated game lump placed in o finds its one 'sprp' entry again. */
  lemma ExtractRelocated(o: seq<byte>, g: seq<byte>, ofs: nat, flagsVersion: int, sprp: seq<byte>)
    requires RelocatedGameLump(g, ofs, flagsVersion, sprp) && flagsVersion < TWO31
    requires ofs + |g| <= |o| < TWO31 && o[ofs..ofs + |g|] == g
    ensures ExtractSprp(o, g) == Success(Some((flagsVersion, sprp)))
  {
    RelocatedEntries(g, ofs, flagsVersion, sprp);
    var ints := [SPRP_ID, flagsVersion, ofs + GAME_LUMP_HEADER, |sprp|];
    assert FirstSprp(ints, 1, 0) == Some(0);
    assert o[ofs + GAME_LUMP_HEADER..ofs + GAME_LUMP_HEADER + |sprp|] == g[GAME_LUMP_HEADER..];
  }

  /**
   * With the corrected game lump step, the game lump the output holds is turned back into
   * the game lump the first run collected.
   */
  lemma SecondGameLump(f: seq<byte>, raw: seq<byte>, o: seq<byte>, data: seq<seq<byte>>, nd: seq<int>, patched: seq<seq<byte>>)
    requires |data| == 64 && |nd| == 256 && GameLump(f, raw) == Success(data[GAME_LUMP])
    requires PatchGameLump(data, nd) == Success(patched)
    requires LumpAt(o, GAME_LUMP, patched[GAME_LUMP]) && OutEntry(o, 4 * GAME_LUMP) == nd[4 * GAME_LUMP] && |o| < TWO31
    ensures GameLump(o, patched[GAME_LUMP]) == Success(data[GAME_LUMP])
  {
    if data[GAME_LUMP] != [] {
      assert GameLumpFor(f, raw, true) == Success(data[GAME_LUMP]);
      GameLumpCases(f, raw, true, data[GAME_LUMP]);
      var e := ExtractSprp(f, raw).value.value;
      GameLumpPatchedRelocated(f, raw, true, data, nd, patched);
      ExtractRelocated(o, patched[GAME_LUMP], nd[4 * GAME_LUMP], e.0, e.1);
    }
  }

  /** Collecting from a second file whose lumps read back as the first run's collects the same lumps. */
  lemma CollectAgain(f: seq<byte>, dir: seq<int>, o: seq<byte>, nd: seq<int>, wl: seq<nat>, e: seq<seq<byte>>, data: seq<seq<byte>>, fixed: bool)
    requires |dir| == 256 && |nd| == 256 && |e| == 64 && InDirectory(wl)
    requires CollectLumps(f, dir, wl, e, fixed) == Success(data)
    requires forall l :: l in wl && l != GAME_LUMP ==> LumpSlice(o, nd, l) == data[l]
    requires GAME_LUMP in wl ==> GameLumpFor(o, LumpSlice(o, nd, GAME_LUMP), fixed) == Success(data[GAME_LUMP])
    ensures CollectLumps(o, nd, wl, e, fixed) == Success(data)
  {
    var r := CollectLumps(o, nd, wl, e, fixed);
    forall l | 0 <= l < 64
      ensures r.value[l] == data[l]
    {
    }
    assert r.value == data;
  }

  /** Building the directory again on top of the new one gives the new one: versions are kept. */
  lemma VersionsKept(wl: seq<nat>, data: seq<seq<byte>>, dir: seq<int>, nd: seq<int>)
    requires |data| == 64 && |dir| == 256 && InDirectory(wl) && Distinct(wl)
    requires nd == BuildDir(wl, data, dir, ZERO_DIR, PAYLOAD_BASE)
    ensures BuildDir(wl, data, nd, ZERO_DIR, PAYLOAD_BASE) == nd
  {
    forall l | l in wl
      ensures nd[4 * l + 2] == dir[4 * l + 2]
    {
      var k :| 0 <= k < |wl| && wl[k] == l;
      BuildDirEntry(wl, data, dir, ZERO_DIR, PAYLOAD_BASE, k);
    }
    BuildDirVersions(wl, data, nd, dir, ZERO_DIR, PAYLOAD_BASE);
  }

  /** The run on the output retraces the first run, with the new directory as its input directory. */
  lemma SecondPlan(o: seq<byte>, wl: seq<nat>, fixed: bool, p: Plan)
    requires InDirectory(wl) && |p.newDir| == 256 && |p.data| == 64
    requires ParseDirectory(o) == Success(p.newDir)
    requires CollectLumps(o, p.newDir, wl, seq(64, _ => []), fixed) == Success(p.data)
    requires BuildDir(wl, p.data, p.newDir, ZERO_DIR, PAYLOAD_BASE) == p.newDir
    requires PatchGameLump(p.data, p.newDir) == Success(p.patched)
    ensures MakePlan(o, wl, fixed) == Success(Plan(p.newDir, p.data, p.newDir, p.patched))
  {
  }

  /** Assembling the same plan on the output reproduces it: header and revision bytes are copied. */
  lemma AssembleAgain(f: seq<byte>, o: seq<byte>, wl: seq<nat>, p: Plan, q: Plan)
    requires InDirectory(wl) && |p.newDir| == 256 && |p.patched| == 64
    requires q.newDir == p.newDir && q.patched == p.patched
    requires Assemble(f, wl, p) == Success(o) && |f| >= DIR_END + 4
    ensures Assemble(o, wl, q) == Success(o)
  {
    var dirBytes := PackU32s(p.newDir).value;
    var rest := Zeros(4) + Body(wl, p.patched);
    assert o == f[0..DIR_OFS] + dirBytes + f[DIR_END..DIR_END + 4] + rest;
    assert o[0..DIR_OFS] == f[0..DIR_OFS];
    assert o[DIR_END..DIR_END + 4] == f[DIR_END..DIR_END + 4];
  }

  /** Every entry of the new directory of a plan fits below 2^31 when the output does. */
  lemma PlanDirBelow(f: seq<byte>, wl: seq<nat>, p: Plan, o: seq<byte>)
    requires InDirectory(wl) && |p.dir| == 256 && |p.data| == 64 && |p.patched| == 64
    requires ParseDirectory(f) == Success(p.dir)
    requires p.newDir == BuildDir(wl, p.data, p.dir, ZERO_DIR, PAYLOAD_BASE)
    requires forall l :: 0 <= l < 64 ==> |p.patched[l]| == |p.data[l]|
    requires |o| == PAYLOAD_BASE + PaddedSize(wl, p.patched) && |o| < TWO31
    ensures forall i :: 0 <= i < 256 ==> p.newDir[i] < TWO31
  {
    PaddedSizeSameLengths(wl, p.data, p.patched);
    assert forall i :: 0 <= i < 256 ==> ZERO_DIR[i] < TWO31 && p.dir[i] < TWO31;
    BuildDirBelow(wl, p.data, p.dir, ZERO_DIR, PAYLOAD_BASE, TWO31);
  }

  /** The corrected script turns the output's game lump back into the game lump the plan collected. */
  lemma GameLumpAgain(f: seq<byte>, wl: seq<nat>, p: Plan, o: seq<byte>)
    requires InDirectory(wl) && Distinct(wl) && GAME_LUMP in wl
    requires |p.dir| == 256 && |p.data| == 64 && |p.newDir| == 256 && |p.patched| == 64
    requires CollectLumps(f, p.dir, wl, seq(64, _ => []), true) == Success(p.data)
    requires p.newDir == BuildDir(wl, p.data, p.dir, ZERO_DIR, PAYLOAD_BASE)
    requires PatchGameLump(p.data, p.newDir) == Success(p.patched)
    requires forall l :: 0 <= l < 64 ==> |p.patched[l]| == |p.data[l]|
    requires |o| >= PAYLOAD_BASE && o[PAYLOAD_BASE..] == Body(wl, p.patched) && |o| < TWO31
    requires forall i :: 0 <= i < 256 ==> OutEntry(o, i) == p.newDir[i]
    ensures GameLump(o, p.patched[GAME_LUMP]) == Success(p.data[GAME_LUMP])
  {
    var k :| 0 <= k < |wl| && wl[k] == GAME_LUMP;
    LaidLump(o, wl, p.data, p.patched, p.dir, p.newDir, k, GAME_LUMP);
    var raw := LumpSlice(f, p.dir, GAME_LUMP);
    assert GameLump(f, raw) == Success(p.data[GAME_LUMP]) by {
      assert GameLumpFor(f, raw, true) == Success(p.data[GAME_LUMP]);
    }
    SecondGameLump(f, raw, o, p.data, p.newDir, p.patched);
  }

  /** The corrected script collects from the output the lumps the plan collected from the input. */
  lemma LumpsAgain(f: seq<byte>, wl: seq<nat>, p: Plan, o: seq<byte>)
    requires InDirectory(wl) && Distinct(wl) && |p.dir| == 256 && |p.data| == 64 && |p.newDir| == 256 && |p.patched| == 64
    requires CollectLumps(f, p.dir, wl, seq(64, _ => []), true) == Success(p.data)
    requires p.newDir == BuildDir(wl, p.data, p.dir, ZERO_DIR, PAYLOAD_BASE)
    requires PatchGameLump(p.data, p.newDir) == Success(p.patched)
    requires forall l :: 0 <= l < 64 ==> |p.patched[l]| == |p.data[l]|
    requires forall l :: 0 <= l < 64 && l != GAME_LUMP ==> p.patched[l] == p.data[l]
    requires |o| >= PAYLOAD_BASE && o[PAYLOAD_BASE..] == Body(wl, p.patched) && |o| < TWO31
    requires forall i :: 0 <= i < 256 ==> OutEntry(o, i) == p.newDir[i]
    ensures CollectLumps(o, p.newDir, wl, seq(64, _ => []), true) == Success(p.data)
  {
    SecondLumps(o, wl, p.data, p.patched, p.dir, p.newDir);
    if GAME_LUMP in wl {
      GameLumpAgain(f, wl, p, o);
    }
    CollectAgain(f, p.dir, o, p.newDir, wl, seq(64, _ => []), p.data, true);
  }

  /**
   * Bytes laid out from a plan (its new directory packed, its patched lumps in the payload
   * region) are read by the corrected script into the same plan, with the new directory as
   * the input directory.
   */
  lemma ReshrinkLaid(f: seq<byte>, wl: seq<nat>, p: Plan, o: seq<byte>)
    requires InDirectory(wl) && Distinct(wl) && |p.dir| == 256 && |p.data| == 64 && |p.newDir| == 256 && |p.patched| == 64
    requires ParseDirectory(f) == Success(p.dir)
    requires CollectLumps(f, p.dir, wl, seq(64, _ => []), true) == Success(p.data)
    requires p.newDir == BuildDir(wl, p.data, p.dir, ZERO_DIR, PAYLOAD_BASE)
    requires PatchGameLump(p.data, p.newDir) == Success(p.patched)
    requires forall l :: 0 <= l < 64 ==> |p.patched[l]| == |p.data[l]|
    requires forall l :: 0 <= l < 64 && l != GAME_LUMP ==> p.patched[l] == p.data[l]
    requires |o| == PAYLOAD_BASE + PaddedSize(wl, p.patched) && o[PAYLOAD_BASE..] == Body(wl, p.patched) && |o| < TWO31
    requires forall i :: 0 <= i < 256 ==> OutEntry(o, i) == p.newDir[i]
    ensures MakePlan(o, wl, true) == Success(Plan(p.newDir, p.data, p.newDir, p.patched))
  {
    PlanDirBelow(f, wl, p, o);
    ReadBack(o, p.newDir);
    LumpsAgain(f, wl, p, o);
    VersionsKept(wl, p.data, p.dir, p.newDir);
    SecondPlan(o, wl, true, p);
  }

  /**
   * Running the corrected script on the bytes a plan was assembled into yields the same
   * plan (with the new directory as input directory) and the same bytes.
   */
  lemma ReshrinkPlan(f: seq<byte>, wl: seq<nat>, p: Plan, o: seq<byte>)
    requires InDirectory(wl) && Distinct(wl) && |p.dir| == 256 && |p.data| == 64 && |p.newDir| == 256 && |p.patched| == 64
    requires ParseDirectory(f) == Success(p.dir)
    requires CollectLumps(f, p.dir, wl, seq(64, _ => []), true) == Success(p.data)
    requires p.newDir == BuildDir(wl, p.data, p.dir, ZERO_DIR, PAYLOAD_BASE)
    requires PatchGameLump(p.data, p.newDir) == Success(p.patched)
    requires forall l :: 0 <= l < 64 ==> |p.patched[l]| == |p.data[l]|
    requires forall l :: 0 <= l < 64 && l != GAME_LUMP ==> p.patched[l] == p.data[l]
    requires Assemble(f, wl, p) == Success(o) && |f| >= DIR_END + 4 && |o| < TWO31
    ensures MakePlan(o, wl, true) == Success(Plan(p.newDir, p.data, p.newDir, p.patched))
    ensures Assemble(o, wl, Plan(p.newDir, p.data, p.newDir, p.patched)) == Success(o)
  {
    AssembledOutput(f, wl, p, o);
    ReshrinkLaid(f, wl, p, o);
    AssembleAgain(f, o, wl, p, Plan(p.newDir, p.data, p.newDir, p.patched));
  }

  /** Shrinking (with the corrected game lump step) the output of a shrink reproduces it. */
  lemma ReshrinkWith(f: seq<byte>, wl: seq<nat>, o: seq<byte>)
    requires InDirectory(wl) && Distinct(wl) && ShrinkWith(f, wl, true) == Success(o)
    requires |f| >= DIR_END + 4 && |o| < TWO31
    ensures ShrinkWith(o, wl, true) == Success(o)
  {
    var p := MakePlan(f, wl, true).value;
    PlanShape(f, wl, true, p);
    ReshrinkPlan(f, wl, p, o);
  }

  /**
   * The corrected shrinker is idempotent: shrinking its output (of a map with the revision
   * field and an output below 2 GiB, so every offset reads back as a non-negative signed value)
   * gives back the same bytes.
   */
  lemma ShrinkIdempotent(f: seq<byte>, o: seq<byte>)
    requires Shrink(f) == Success(o) && |f| >= DIR_END + 4 && |o| < TWO31
    ensures Shrink(o) == Success(o)
  {
    WhitelistIsValid();
    ReshrinkWith(f, WHITELIST, o);
  }

  /** Bytes whose game lump entry has length zero are rejected by the script as written. */
  lemma EmptyGameLumpRejected(o: seq<byte>, wl: seq<nat>)
    requires InDirectory(wl) && GAME_LUMP in wl && |o| >= DIR_END && OutEntry(o, 4 * GAME_LUMP + 1) == 0
    ensures ShrinkWith(o, wl, false).Failure?
  {
    var d := ParseDirectory(o).value;
    I32OfSmallU32(o[DIR_OFS + 4 * (4 * GAME_LUMP + 1)..DIR_OFS + 4 * (4 * GAME_LUMP + 1) + 4]);
    assert d[4 * GAME_LUMP + 1] == 0;
    assert LumpSlice(o, d, GAME_LUMP) == [];
    assert CollectLumps(o, d, wl, seq(64, _ => []), false).Failure?;
  }

  /**
   * The script as written raises on its own output whenever the input's game lump holds no
   * props: the output's game lump is then empty, and unpacking its count needs four bytes.
   */
  lemma AsWrittenRejectsOwnOutput(f: seq<byte>, o: seq<byte>)
    requires ShrinkAsWritten(f) == Success(o) && ParseDirectory(f).Success?
    requires NoProps(f, LumpSlice(f, ParseDirectory(f).value, GAME_LUMP))
    ensures ShrinkAsWritten(o).Failure?
  {
    WhitelistIsValid();
    RejectsOwnOutput(f, WHITELIST, o);
  }

  /** RejectsOwnOutput for any list of distinct lumps that includes the game lump. */
  lemma RejectsOwnOutput(f: seq<byte>, wl: seq<nat>, o: seq<byte>)
    requires InDirectory(wl) && Distinct(wl) && ShrinkWith(f, wl, false) == Success(o)
    requires GAME_LUMP in wl && ParseDirectory(f).Success?
    requires NoProps(f, LumpSlice(f, ParseDirectory(f).value, GAME_LUMP))
    ensures ShrinkWith(o, wl, false).Failure?
  {
    var k :| 0 <= k < |wl| && wl[k] == GAME_LUMP;
    ShrinkGameLumpAbsent(f, wl, false, o, k);
    EmptyGameLumpRejected(o, wl);
  }

  /** The two game lump steps collect the same lumps when the game lump holds at least a count. */
  lemma {:induction false} CollectAgrees(f: seq<byte>, dir: seq<int>, wl: seq<nat>, data: seq<seq<byte>>)
    requires |dir| == 256 && |data| == 64 && InDirectory(wl) && |LumpSlice(f, dir, GAME_LUMP)| >= 4
    ensures CollectLumps(f, dir, wl, data, true) == CollectLumps(f, dir, wl, data, false)
    decreases |wl|
  {
    if wl != [] {
      var l := wl[0];
      var raw := LumpSlice(f, dir, l);
      var step := if l == GAME_LUMP then GameLumpFor(f, raw, true) else Success(raw);
      assert step == (if l == GAME_LUMP then GameLumpFor(f, raw, false) else Success(raw));
      if step.Success? {
        CollectAgrees(f, dir, wl[1..], data[l := step.value]);
      }
    }
  }

  /** With a game lump of at least four bytes, both game lump steps make the same plan. */
  lemma PlanAgrees(f: seq<byte>, wl: seq<nat>)
    requires InDirectory(wl) && ParseDirectory(f).Success? && |LumpSlice(f, ParseDirectory(f).value, GAME_LUMP)| >= 4
    ensures MakePlan(f, wl, true) == MakePlan(f, wl, false)
  {
    CollectAgrees(f, ParseDirectory(f).value, wl, seq(64, _ => []));
  }

  /** With a game lump of at least four bytes, the script as written and the corrected one agree. */
  lemma AsWrittenAgrees(f: seq<byte>)
    requires ParseDirectory(f).Success? && |LumpSlice(f, ParseDirectory(f).value, GAME_LUMP)| >= 4
    ensures ShrinkAsWritten(f) == Shrink(f)
  {
    WhitelistIsValid();
    PlanAgrees(f, WHITELIST);
  }

  /** A game lump shorter than four bytes makes the script as written raise. */
  lemma AsWrittenShortGameLump(f: seq<byte>)
    requires ParseDirectory(f).Success? && |LumpSlice(f, ParseDirectory(f).value, GAME_LUMP)| < 4
    ensures ShrinkAsWritten(f).Failure?
  {
    WhitelistIsValid();
    assert CollectLumps(f, ParseDirectory(f).value, WHITELIST, seq(64, _ => []), false).Failure?;
  }
}
