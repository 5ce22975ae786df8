/**
 * Properties of the BSP shrinker, stated on its output bytes: where each kept
 * lump lands, what the rewritten directory says, how large the file is, how the
 * game lump is rebuilt, and that shrinking a shrunk file changes nothing.
 */
module ShrinkerProofs {
  import opened Wrappers
  import opened Bytes
  import opened Shrinker

  /** Entry i of the directory of an output file, read back as the unsigned value that was packed. */
  function OutEntry(o: seq<byte>, i: nat): nat
    requires i < 256 && |o| >= DIR_END
  {
    U32(o[DIR_OFS + 4 * i..DIR_OFS + 4 * i + 4])
  }

  /** Entry i of the directory of an input file, as the script unpacks it (signed). */
  function InEntry(f: seq<byte>, i: nat): int
    requires i < 256 && |f| >= DIR_END
  {
    I32(f[DIR_OFS + 4 * i..DIR_OFS + 4 * i + 4])
  }

  /** Sum of the 16-byte padded sizes of a list of lengths. */
  function PaddedTotal(lens: seq<nat>): (r: nat)
    ensures r % 16 == 0
  {
    if lens == [] then 0 else PadTo16(lens[0]) + PaddedTotal(lens[1..])
  }

  /** Lump data starts 16-byte aligned because the payload base is. */
  lemma PayloadAligned(t: nat)
    requires t % 16 == 0
    ensures (PAYLOAD_BASE + t) % 16 == 0
  {
  }

  /** The lengths of the listed lumps. */
  function Lens(wl: seq<nat>, data: seq<seq<byte>>): (r: seq<nat>)
    requires |data| == 64 && InDirectory(wl)
    ensures |r| == |wl|
  {
    seq(|wl|, j requires 0 <= j < |wl| => |data[wl[j]]|)
  }

  /** The lengths an output directory declares for the listed lumps. */
  function DeclaredLens(o: seq<byte>, wl: seq<nat>): (r: seq<nat>)
    requires |o| >= DIR_END && InDirectory(wl)
    ensures |r| == |wl|
  {
    seq(|wl|, j requires 0 <= j < |wl| => OutEntry(o, 4 * wl[j] + 1))
  }

  lemma {:induction false} PaddedSizeIsTotal(wl: seq<nat>, data: seq<seq<byte>>)
    requires |data| == 64 && InDirectory(wl)
    ensures PaddedSize(wl, data) == PaddedTotal(Lens(wl, data))
  {
    if wl != [] {
      PaddedSizeIsTotal(wl[1..], data);
      assert Lens(wl, data)[1..] == Lens(wl[1..], data);
    }
  }

  /** The payload size is additive: the lumps before position k, then the lumps from k on. */
  lemma {:induction false} PaddedSizeSplit(wl: seq<nat>, data: seq<seq<byte>>, k: nat)
    requires |data| == 64 && InDirectory(wl) && k <= |wl|
    ensures PaddedSize(wl, data) == PaddedSize(wl[..k], data) + PaddedSize(wl[k..], data)
  {
    if k == 0 {
      assert wl[..0] == [] && wl[0..] == wl;
    } else {
      PaddedSizeSplit(wl[1..], data, k - 1);
      assert wl[1..][..k - 1] == wl[..k][1..];
      assert wl[1..][k - 1..] == wl[k..];
    }
  }

  /** Only the lengths of the lumps matter to the padded size. */
  lemma {:induction false} PaddedSizeSameLengths(wl: seq<nat>, a: seq<seq<byte>>, b: seq<seq<byte>>)
    requires |a| == 64 && |b| == 64 && InDirectory(wl)
    requires forall l :: 0 <= l < 64 ==> |a[l]| == |b[l]|
    ensures PaddedSize(wl, a) == PaddedSize(wl, b)
  {
    if wl != [] {
      PaddedSizeSameLengths(wl[1..], a, b);
    }
  }

  /** The k-th listed lump sits in the payload region right after the padded lumps before it. */
  /** x sits in body at offset at. */
  predicate Within(body: seq<byte>, at: nat, x: seq<byte>) {
    at + |x| <= |body| && body[at..at + |x|] == x
  }

  /** What sits in rest at p sits in head + rest at |head| + p. */
  lemma WithinShift(head: seq<byte>, rest: seq<byte>, p: nat, x: seq<byte>)
    requires Within(rest, p, x)
    ensures Within(head + rest, |head| + p, x)
  {
    assert (head + rest)[|head|..] == rest;
    assert (head + rest)[|head| + p..|head| + p + |x|] == (head + rest)[|head|..][p..p + |x|];
  }

  lemma SliceOfPrefix(d: seq<byte>, z: seq<byte>, rest: seq<byte>)
    ensures Within(d + z + rest, 0, d)
  {
    assert (d + z + rest)[0..|d|] == d;
  }

  /** The k-th listed lump sits in the payload after the padded lumps listed before it. */
  lemma {:induction false} BodyAt(wl: seq<nat>, data: seq<seq<byte>>, k: nat)
    requires |data| == 64 && InDirectory(wl) && k < |wl|
    ensures Within(Body(wl, data), PaddedSize(wl[..k], data), data[wl[k]])
  {
    var d := data[wl[0]];
    var head := d + Zeros(PadTo16(|d|) - |d|);
    var rest := Body(wl[1..], data);
    assert Body(wl, data) == head + rest;
    if k == 0 {
      assert wl[..0] == [];
      SliceOfPrefix(d, Zeros(PadTo16(|d|) - |d|), rest);
    } else {
      var tail := wl[1..];
      BodyAt(tail, data, k - 1);
      assert tail[k - 1] == wl[k];
      assert wl[..k] == [wl[0]] + tail[..k - 1];
      var p := PaddedSize(tail[..k - 1], data);
      assert PaddedSize(wl[..k], data) == |head| + p;
      WithinShift(head, rest, p, data[wl[k]]);
    }
  }

  /** Directory entries of lumps that are not listed keep their initial value. */
  lemma {:induction false} BuildDirOther(wl: seq<nat>, data: seq<seq<byte>>, oldDir: seq<int>, newDir: seq<int>, pos: nat, i: nat)
    requires |data| == 64 && |oldDir| == 256 && |newDir| == 256 && InDirectory(wl)
    requires i < 256 && i / 4 !in wl
    ensures BuildDir(wl, data, oldDir, newDir, pos)[i] == newDir[i]
  {
    if wl != [] {
      var l := wl[0];
      var d := newDir[4 * l := pos][4 * l + 1 := |data[l]|][4 * l + 2 := oldDir[4 * l + 2]];
      assert i / 4 != l;
      BuildDirOther(wl[1..], data, oldDir, d, pos + PadTo16(|data[l]|), i);
    }
  }

  /** The entry of the k-th listed lump: (position after the lumps before it, length, old version). */
  lemma {:induction false} BuildDirEntry(wl: seq<nat>, data: seq<seq<byte>>, oldDir: seq<int>, newDir: seq<int>, pos: nat, k: nat)
    requires |data| == 64 && |oldDir| == 256 && |newDir| == 256 && InDirectory(wl) && Distinct(wl)
    requires k < |wl|
    ensures BuildDir(wl, data, oldDir, newDir, pos)[4 * wl[k]] == pos + PaddedSize(wl[..k], data)
    ensures BuildDir(wl, data, oldDir, newDir, pos)[4 * wl[k] + 1] == |data[wl[k]]|
    ensures BuildDir(wl, data, oldDir, newDir, pos)[4 * wl[k] + 2] == oldDir[4 * wl[k] + 2]
    ensures BuildDir(wl, data, oldDir, newDir, pos)[4 * wl[k] + 3] == newDir[4 * wl[k] + 3]
  {
    var l := wl[0];
    var d := newDir[4 * l := pos][4 * l + 1 := |data[l]|][4 * l + 2 := oldDir[4 * l + 2]];
    var pos' := pos + PadTo16(|data[l]|);
    var r := BuildDir(wl, data, oldDir, newDir, pos);
    assert r == BuildDir(wl[1..], data, oldDir, d, pos');
    if k == 0 {
      assert wl[..0] == [];
      assert l !in wl[1..] by {
        forall j | 0 <= j < |wl[1..]| ensures wl[1..][j] != l {
          assert wl[1..][j] == wl[j + 1];
        }
      }
      BuildDirOther(wl[1..], data, oldDir, d, pos', 4 * l);
      BuildDirOther(wl[1..], data, oldDir, d, pos', 4 * l + 1);
      BuildDirOther(wl[1..], data, oldDir, d, pos', 4 * l + 2);
      BuildDirOther(wl[1..], data, oldDir, d, pos', 4 * l + 3);
    } else {
      BuildDirEntry(wl[1..], data, oldDir, d, pos', k - 1);
      assert wl[1..][k - 1] == wl[k];
      assert wl[..k][1..] == wl[1..][..k - 1];
      assert wl[k] != l;
    }
  }

  /** The new directory reads only the version fields of the listed lumps from the old one. */
  lemma {:induction false} BuildDirVersions(wl: seq<nat>, data: seq<seq<byte>>, a: seq<int>, b: seq<int>, newDir: seq<int>, pos: nat)
    requires |data| == 64 && |a| == 256 && |b| == 256 && |newDir| == 256 && InDirectory(wl)
    requires forall l :: l in wl ==> a[4 * l + 2] == b[4 * l + 2]
    ensures BuildDir(wl, data, a, newDir, pos) == BuildDir(wl, data, b, newDir, pos)
  {
    if wl != [] {
      var l := wl[0];
      var d := newDir[4 * l := pos][4 * l + 1 := |data[l]|][4 * l + 2 := a[4 * l + 2]];
      assert l in wl;
      assert forall m :: m in wl[1..] ==> m in wl;
      BuildDirVersions(wl[1..], data, a, b, d, pos + PadTo16(|data[l]|));
    }
  }

  /** The steps of a successful run, one equation each. */
  lemma PlanSteps(f: seq<byte>, wl: seq<nat>, fixed: bool, p: Plan)
    requires InDirectory(wl) && MakePlan(f, wl, fixed) == Success(p)
    ensures ParseDirectory(f) == Success(p.dir)
    ensures CollectLumps(f, p.dir, wl, seq(64, _ => []), fixed) == Success(p.data)
    ensures p.newDir == BuildDir(wl, p.data, p.dir, ZERO_DIR, PAYLOAD_BASE)
    ensures PatchGameLump(p.data, p.newDir) == Success(p.patched)
  {
  }

  /** A collected game lump is empty or longer than its rebuilt header. */
  lemma CollectedGameLump(f: seq<byte>, dir: seq<int>, wl: seq<nat>, fixed: bool, data: seq<seq<byte>>)
    requires |dir| == 256 && InDirectory(wl)
    requires CollectLumps(f, dir, wl, seq(64, _ => []), fixed) == Success(data)
    ensures |data| == 64
    ensures data[GAME_LUMP] == [] || |data[GAME_LUMP]| > GAME_LUMP_HEADER
  {
    if GAME_LUMP in wl {
      var raw := LumpSlice(f, dir, GAME_LUMP);
      assert GameLumpFor(f, raw, fixed) == Success(data[GAME_LUMP]);
    }
  }

  /** Patching the game lump's offset field changes no lump's length and no other lump. */
  lemma PatchFacts(data: seq<seq<byte>>, newDir: seq<int>, patched: seq<seq<byte>>)
    requires |data| == 64 && |newDir| == 256 && PatchGameLump(data, newDir) == Success(patched)
    requires data[GAME_LUMP] == [] || |data[GAME_LUMP]| > GAME_LUMP_HEADER
    ensures |patched| == 64
    ensures forall l :: 0 <= l < 64 ==> |patched[l]| == |data[l]|
    ensures forall l :: 0 <= l < 64 && l != GAME_LUMP ==> patched[l] == data[l]
  {
  }

  /** The intermediate values of a successful run and how they relate. */
  lemma PlanShape(f: seq<byte>, wl: seq<nat>, fixed: bool, p: Plan)
    requires InDirectory(wl) && MakePlan(f, wl, fixed) == Success(p)
    ensures ParseDirectory(f) == Success(p.dir)
    ensures CollectLumps(f, p.dir, wl, seq(64, _ => []), fixed) == Success(p.data)
    ensures p.newDir == BuildDir(wl, p.data, p.dir, ZERO_DIR, PAYLOAD_BASE)
    ensures PatchGameLump(p.data, p.newDir) == Success(p.patched)
    ensures forall l :: 0 <= l < 64 ==> |p.patched[l]| == |p.data[l]|
    ensures forall l :: 0 <= l < 64 && l != GAME_LUMP ==> p.patched[l] == p.data[l]
    ensures p.data[GAME_LUMP] == [] || |p.data[GAME_LUMP]| > GAME_LUMP_HEADER
  {
    PlanSteps(f, wl, fixed, p);
    CollectedGameLump(f, p.dir, wl, fixed, p.data);
    PatchFacts(p.data, p.newDir, p.patched);
  }

  /** The directory region of the bytes Assemble produces holds the packed new directory. */
  lemma AssembledDirectory(f: seq<byte>, wl: seq<nat>, p: Plan, o: seq<byte>)
    requires InDirectory(wl) && |p.newDir| == 256 && |p.patched| == 64 && Assemble(f, wl, p) == Success(o)
    requires |f| >= DIR_END
    ensures |o| >= DIR_END
    ensures o[..DIR_OFS] == f[..DIR_OFS]
    ensures forall i :: 0 <= i < 256 ==> OutEntry(o, i) == p.newDir[i]
  {
    var dirBytes := PackU32s(p.newDir).value;
    var rest := Slice(f, DIR_END, DIR_END + 4) + Zeros(4) + Body(wl, p.patched);
    assert o == f[..DIR_OFS] + dirBytes + rest;
    forall i | 0 <= i < 256
      ensures OutEntry(o, i) == p.newDir[i]
    {
      assert o[DIR_OFS + 4 * i..DIR_OFS + 4 * i + 4] == dirBytes[4 * i..4 * i + 4];
    }
  }

  /** Behind the directory, the bytes Assemble produces hold the revision, four zeros and the payload. */
  lemma AssembledPayload(f: seq<byte>, wl: seq<nat>, p: Plan, o: seq<byte>)
    requires InDirectory(wl) && |p.newDir| == 256 && |p.patched| == 64 && Assemble(f, wl, p) == Success(o)
    requires |f| >= DIR_END + 4
    ensures |o| == PAYLOAD_BASE + PaddedSize(wl, p.patched)
    ensures o[DIR_END..DIR_END + 4] == f[DIR_END..DIR_END + 4]
    ensures o[DIR_END + 4..PAYLOAD_BASE] == Zeros(4)
    ensures o[PAYLOAD_BASE..] == Body(wl, p.patched)
  {
    var head := f[..DIR_OFS] + PackU32s(p.newDir).value;
    var body := Body(wl, p.patched);
    assert o == head + f[DIR_END..DIR_END + 4] + Zeros(4) + body;
    assert |head| == DIR_END;
  }

  /**
   * A header cut inside the map revision: the slice of the revision comes out short, so the
   * four zeros and the payload follow right after it, before the 1040 the directory assumes.
   */
  lemma AssembledShortPayload(f: seq<byte>, wl: seq<nat>, p: Plan, o: seq<byte>)
    requires InDirectory(wl) && |p.newDir| == 256 && |p.patched| == 64 && Assemble(f, wl, p) == Success(o)
    requires DIR_END <= |f| < DIR_END + 4
    ensures |o| == |f| + 4 + PaddedSize(wl, p.patched)
    ensures o[DIR_END..] == f[DIR_END..] + Zeros(4) + Body(wl, p.patched)
  {
    var head := f[..DIR_OFS] + PackU32s(p.newDir).value;
    var body := Body(wl, p.patched);
    assert Slice(f, DIR_END, DIR_END + 4) == f[DIR_END..];
    assert o == head + f[DIR_END..] + Zeros(4) + body;
    assert |head| == DIR_END;
    assert o[DIR_END..] == f[DIR_END..] + Zeros(4) + body;
  }

  /** The bytes Assemble produces: header, the packed new directory, revision, zeros, payload. */
  lemma AssembledOutput(f: seq<byte>, wl: seq<nat>, p: Plan, o: seq<byte>)
    requires InDirectory(wl) && |p.newDir| == 256 && |p.patched| == 64 && Assemble(f, wl, p) == Success(o)
    requires |f| >= DIR_END
    ensures |o| >= DIR_END
    ensures o[..DIR_OFS] == f[..DIR_OFS]
    ensures forall i :: 0 <= i < 256 ==> OutEntry(o, i) == p.newDir[i]
    ensures |f| >= DIR_END + 4 ==> |o| == PAYLOAD_BASE + PaddedSize(wl, p.patched)
    ensures |f| >= DIR_END + 4 ==> o[DIR_END..DIR_END + 4] == f[DIR_END..DIR_END + 4]
    ensures |f| >= DIR_END + 4 ==> o[DIR_END + 4..PAYLOAD_BASE] == Zeros(4)
    ensures |f| >= DIR_END + 4 ==> o[PAYLOAD_BASE..] == Body(wl, p.patched)
    ensures |f| < DIR_END + 4 ==> |o| == |f| + 4 + PaddedSize(wl, p.patched)
    ensures |f| < DIR_END + 4 ==> o[DIR_END..] == f[DIR_END..] + Zeros(4) + Body(wl, p.patched)
  {
    AssembledDirectory(f, wl, p, o);
    if |f| >= DIR_END + 4 {
      AssembledPayload(f, wl, p, o);
    } else {
      AssembledShortPayload(f, wl, p, o);
    }
  }

  /** The bytes of a successful run: header, the packed new directory, revision, zeros, payload. */
  lemma ShrinkOutput(f: seq<byte>, wl: seq<nat>, fixed: bool, o: seq<byte>)
    requires InDirectory(wl) && ShrinkWith(f, wl, fixed) == Success(o)
    ensures MakePlan(f, wl, fixed).Success?
    ensures |f| >= DIR_END && |o| >= DIR_END
    ensures o[..DIR_OFS] == f[..DIR_OFS]
    ensures forall i :: 0 <= i < 256 ==> OutEntry(o, i) == MakePlan(f, wl, fixed).value.newDir[i]
    ensures |f| >= DIR_END + 4 ==> |o| == PAYLOAD_BASE + PaddedSize(wl, MakePlan(f, wl, fixed).value.patched)
    ensures |f| >= DIR_END + 4 ==> o[DIR_END..DIR_END + 4] == f[DIR_END..DIR_END + 4]
    ensures |f| >= DIR_END + 4 ==> o[DIR_END + 4..PAYLOAD_BASE] == Zeros(4)
    ensures |f| >= DIR_END + 4 ==> o[PAYLOAD_BASE..] == Body(wl, MakePlan(f, wl, fixed).value.patched)
    ensures |f| < DIR_END + 4 ==> |o| == |f| + 4 + PaddedSize(wl, MakePlan(f, wl, fixed).value.patched)
    ensures |f| < DIR_END + 4 ==> o[DIR_END..] == f[DIR_END..] + Zeros(4) + Body(wl, MakePlan(f, wl, fixed).value.patched)
  {
    AssembledOutput(f, wl, MakePlan(f, wl, fixed).value, o);
  }

  /** The whitelist names 20 distinct directory entries, the game lump among them. */
  lemma WhitelistIsValid()
    ensures InDirectory(WHITELIST) && Distinct(WHITELIST) && GAME_LUMP in WHITELIST
  {
    assert WHITELIST[16] == GAME_LUMP;
    assert forall k :: 0 < k < |WHITELIST| ==> WHITELIST[k - 1] < WHITELIST[k];
    AscendingDistinct(WHITELIST);
  }

  /** A strictly ascending list names no lump twice. */
  lemma AscendingDistinct(wl: seq<nat>)
    requires forall k :: 0 < k < |wl| ==> wl[k - 1] < wl[k]
    ensures Distinct(wl)
  {
    forall j, k | 0 <= j < k < |wl|
      ensures wl[j] < wl[k]
    {
      var i := j;
      while i < k
        invariant j <= i <= k && (i == j || wl[j] < wl[i])
      {
        i := i + 1;
      }
    }
  }

  /** The game lump holds no props: too short for a count, or no 'sprp' entry, or an empty one. */
  predicate NoProps(f: seq<byte>, raw: seq<byte>) {
    |raw| < 4 ||
    (ExtractSprp(f, raw).Success? &&
     (ExtractSprp(f, raw).value.None? || ExtractSprp(f, raw).value.value.1 == []))
  }

  /** The game lump step yields nothing exactly when there are no props, and otherwise the rebuilt lump. */
  lemma GameLumpCases(f: seq<byte>, raw: seq<byte>, fixed: bool, g: seq<byte>)
    requires GameLumpFor(f, raw, fixed) == Success(g)
    ensures g == [] <==> NoProps(f, raw)
    ensures g != [] ==> ExtractSprp(f, raw).Success? && ExtractSprp(f, raw).value.Some?
    ensures g != [] ==> ExtractSprp(f, raw).value.value.1 != []
    ensures g != [] ==> RebuiltGameLump(ExtractSprp(f, raw).value.value.0, ExtractSprp(f, raw).value.value.1) == Success(g)
  {
    if |raw| >= 4 {
      assert GameLumpAsWritten(f, raw) == Success(g);
    }
  }

  /** The lengths an output directory declares are the lengths of the lumps the run collected. */
  lemma DeclaredLensOfPlan(f: seq<byte>, wl: seq<nat>, fixed: bool, o: seq<byte>)
    requires InDirectory(wl) && Distinct(wl) && ShrinkWith(f, wl, fixed) == Success(o)
    ensures MakePlan(f, wl, fixed).Success? && |o| >= DIR_END
    ensures DeclaredLens(o, wl) == Lens(wl, MakePlan(f, wl, fixed).value.data)
  {
    ShrinkOutput(f, wl, fixed, o);
    var p := MakePlan(f, wl, fixed).value;
    PlanShape(f, wl, fixed, p);
    forall j | 0 <= j < |wl|
      ensures DeclaredLens(o, wl)[j] == |p.data[wl[j]]|
    {
      BuildDirEntry(wl, p.data, p.dir, ZERO_DIR, PAYLOAD_BASE, j);
    }
  }

  /** The lengths of the lumps listed before position k. */
  lemma LensPrefix(wl: seq<nat>, data: seq<seq<byte>>, k: nat)
    requires |data| == 64 && InDirectory(wl) && k <= |wl|
    ensures InDirectory(wl[..k]) && Lens(wl[..k], data) == Lens(wl, data)[..k]
  {
  }

  /** The write position of the k-th listed lump is the aligned total of the lumps before it. */
  lemma AlignedOffset(wl: seq<nat>, data: seq<seq<byte>>, k: nat, x: int)
    requires |data| == 64 && InDirectory(wl) && k < |wl|
    requires InDirectory(wl[..k]) && x == PAYLOAD_BASE + PaddedSize(wl[..k], data)
    ensures x == PAYLOAD_BASE + PaddedTotal(Lens(wl, data)[..k]) && x % 16 == 0
  {
    LensPrefix(wl, data, k);
    PaddedSizeIsTotal(wl[..k], data);
    PayloadAligned(PaddedTotal(Lens(wl, data)[..k]));
  }

  /** The entry BuildDir writes for the k-th listed lump, in terms of the listed lumps' lengths. */
  lemma BuiltEntry(wl: seq<nat>, data: seq<seq<byte>>, dir: seq<int>, nd: seq<int>, k: nat, l: nat)
    requires |data| == 64 && |dir| == 256 && InDirectory(wl) && Distinct(wl) && k < |wl| && wl[k] == l
    requires nd == BuildDir(wl, data, dir, ZERO_DIR, PAYLOAD_BASE)
    ensures l < 64
    ensures nd[4 * l] == PAYLOAD_BASE + PaddedTotal(Lens(wl, data)[..k])
    ensures nd[4 * l] % 16 == 0
    ensures nd[4 * l + 1] == |data[l]|
    ensures nd[4 * l + 3] == 0
  {
    BuildDirEntry(wl, data, dir, ZERO_DIR, PAYLOAD_BASE, k);
    assert InDirectory(wl[..k]);
    AlignedOffset(wl, data, k, nd[4 * l]);
  }

  /** The new directory entry of the k-th listed lump, in terms of the collected lumps. */
  lemma PlanEntry(f: seq<byte>, wl: seq<nat>, fixed: bool, p: Plan, k: nat)
    requires InDirectory(wl) && Distinct(wl) && MakePlan(f, wl, fixed) == Success(p) && k < |wl|
    ensures |f| >= DIR_END
    ensures p.newDir[4 * wl[k]] == PAYLOAD_BASE + PaddedTotal(Lens(wl, p.data)[..k])
    ensures p.newDir[4 * wl[k]] % 16 == 0
    ensures p.newDir[4 * wl[k] + 1] == |p.data[wl[k]]|
    ensures p.newDir[4 * wl[k] + 3] == 0
  {
    PlanSteps(f, wl, fixed, p);
    BuiltEntry(wl, p.data, p.dir, p.newDir, k, wl[k]);
  }

  /** A listed lump keeps the version field of the input directory. */
  lemma VersionCopied(f: seq<byte>, wl: seq<nat>, data: seq<seq<byte>>, dir: seq<int>, newDir: seq<int>, k: nat)
    requires |data| == 64 && InDirectory(wl) && Distinct(wl) && k < |wl|
    requires ParseDirectory(f) == Success(dir) && newDir == BuildDir(wl, data, dir, ZERO_DIR, PAYLOAD_BASE)
    ensures |f| >= DIR_END
    ensures newDir[4 * wl[k] + 2] == InEntry(f, 4 * wl[k] + 2)
  {
    BuildDirEntry(wl, data, dir, ZERO_DIR, PAYLOAD_BASE, k);
  }

  lemma PlanVersion(f: seq<byte>, wl: seq<nat>, fixed: bool, p: Plan, k: nat)
    requires InDirectory(wl) && Distinct(wl) && MakePlan(f, wl, fixed) == Success(p) && k < |wl|
    ensures |f| >= DIR_END
    ensures p.newDir[4 * wl[k] + 2] == InEntry(f, 4 * wl[k] + 2)
  {
    PlanSteps(f, wl, fixed, p);
    VersionCopied(f, wl, p.data, p.dir, p.newDir, k);
  }

  /**
   * The output's entry for the k-th listed lump: its offset is PAYLOAD_BASE plus the padded
   * lengths the output declares for the lumps listed before it (so 16-byte aligned), its
   * version is the input's, and its four_cc field is zero.
   */
  predicate EntryLaidOut(f: seq<byte>, o: seq<byte>, wl: seq<nat>, k: nat) {
    InDirectory(wl) && k < |wl| && |f| >= DIR_END && |o| >= DIR_END &&
    OutEntry(o, 4 * wl[k]) == PAYLOAD_BASE + PaddedTotal(DeclaredLens(o, wl)[..k]) &&
    OutEntry(o, 4 * wl[k]) % 16 == 0 &&
    OutEntry(o, 4 * wl[k] + 2) == InEntry(f, 4 * wl[k] + 2) &&
    OutEntry(o, 4 * wl[k] + 3) == 0
  }

  /** The entry of the k-th listed lump in bytes whose directory is a plan's new directory. */
  lemma EntryOfPlan(f: seq<byte>, wl: seq<nat>, fixed: bool, p: Plan, o: seq<byte>, k: nat)
    requires InDirectory(wl) && Distinct(wl) && MakePlan(f, wl, fixed) == Success(p) && k < |wl|
    requires |o| >= DIR_END && forall i :: 0 <= i < 256 ==> OutEntry(o, i) == p.newDir[i]
    requires DeclaredLens(o, wl) == Lens(wl, p.data)
    ensures EntryLaidOut(f, o, wl, k)
  {
    var l := wl[k];
    PlanEntry(f, wl, fixed, p, k);
    PlanVersion(f, wl, fixed, p, k);
    assert OutEntry(o, 4 * l) == p.newDir[4 * l];
    assert OutEntry(o, 4 * l + 2) == p.newDir[4 * l + 2];
    assert OutEntry(o, 4 * l + 3) == p.newDir[4 * l + 3];
  }

  /**
   * Each listed lump's new directory entry: its offset is PAYLOAD_BASE plus the padded lengths
   * of the lumps listed before it (so 16-byte aligned), its version is the input's, and its
   * four_cc field is zero.
   */
  lemma ShrinkDirectory(f: seq<byte>, wl: seq<nat>, fixed: bool, o: seq<byte>, k: nat)
    requires InDirectory(wl) && Distinct(wl) && ShrinkWith(f, wl, fixed) == Success(o) && k < |wl|
    ensures EntryLaidOut(f, o, wl, k)
  {
    ShrinkOutput(f, wl, fixed, o);
    DeclaredLensOfPlan(f, wl, fixed, o);
    EntryOfPlan(f, wl, fixed, MakePlan(f, wl, fixed).value, o, k);
  }

  /** Directory entries of lumps that are not listed are zero. */
  lemma ShrinkDropsUnlisted(f: seq<byte>, wl: seq<nat>, fixed: bool, o: seq<byte>, i: nat)
    requires InDirectory(wl) && ShrinkWith(f, wl, fixed) == Success(o) && i < 256 && i / 4 !in wl
    ensures |o| >= DIR_END && OutEntry(o, i) == 0
  {
    ShrinkOutput(f, wl, fixed, o);
    var p := MakePlan(f, wl, fixed).value;
    PlanShape(f, wl, fixed, p);
    BuildDirOther(wl, p.data, p.dir, ZERO_DIR, PAYLOAD_BASE, i);
  }

  /** In the payload region, the k-th listed lump's bytes sit at its new offset minus the base. */
  lemma BodyLump(wl: seq<nat>, data: seq<seq<byte>>, patched: seq<seq<byte>>, dir: seq<int>, nd: seq<int>, k: nat, l: nat)
    requires |data| == 64 && |patched| == 64 && |dir| == 256 && InDirectory(wl) && Distinct(wl) && k < |wl| && wl[k] == l
    requires forall j :: 0 <= j < 64 ==> |patched[j]| == |data[j]|
    requires nd == BuildDir(wl, data, dir, ZERO_DIR, PAYLOAD_BASE)
    ensures l < 64 && PAYLOAD_BASE <= nd[4 * l]
    ensures nd[4 * l + 1] == |patched[l]|
    ensures nd[4 * l] - PAYLOAD_BASE + |patched[l]| <= |Body(wl, patched)|
    ensures Body(wl, patched)[nd[4 * l] - PAYLOAD_BASE..nd[4 * l] - PAYLOAD_BASE + |patched[l]|] == patched[l]
  {
    var before := wl[..k];
    assert InDirectory(before);
    BuildDirEntry(wl, data, dir, ZERO_DIR, PAYLOAD_BASE, k);
    assert nd[4 * l] == PAYLOAD_BASE + PaddedSize(before, data) && nd[4 * l + 1] == |data[l]|;
    PaddedSizeSameLengths(before, data, patched);
    BodyAt(wl, patched, k);
    assert nd[4 * l] - PAYLOAD_BASE == PaddedSize(before, patched);
  }

  /** The layout facts of a plan, without the lump contents. */
  lemma PlanLayout(f: seq<byte>, wl: seq<nat>, fixed: bool, p: Plan)
    requires InDirectory(wl) && MakePlan(f, wl, fixed) == Success(p)
    ensures p.newDir == BuildDir(wl, p.data, p.dir, ZERO_DIR, PAYLOAD_BASE)
    ensures forall l :: 0 <= l < 64 ==> |p.patched[l]| == |p.data[l]|
  {
    PlanShape(f, wl, fixed, p);
  }

  /** Bytes at a given place of the payload region sit at that place plus the base in the file. */
  lemma PlaceInPayload(o: seq<byte>, body: seq<byte>, ofs: int, n: nat, lump: seq<byte>)
    requires PAYLOAD_BASE <= |o| && o[PAYLOAD_BASE..] == body
    requires PAYLOAD_BASE <= ofs && ofs - PAYLOAD_BASE + n <= |body|
    requires body[ofs - PAYLOAD_BASE..ofs - PAYLOAD_BASE + n] == lump
    ensures ofs + n <= |o| && o[ofs..ofs + n] == lump
  {
    assert o[ofs..ofs + n] == o[PAYLOAD_BASE..][ofs - PAYLOAD_BASE..ofs - PAYLOAD_BASE + n];
  }

  /** In an output laid out from a plan, the k-th listed lump's bytes sit where its entry points. */
  lemma LaidLump(o: seq<byte>, wl: seq<nat>, data: seq<seq<byte>>, patched: seq<seq<byte>>, dir: seq<int>, newDir: seq<int>, k: nat, l: nat)
    requires |data| == 64 && |patched| == 64 && |dir| == 256 && InDirectory(wl) && Distinct(wl) && k < |wl| && wl[k] == l
    requires |o| >= PAYLOAD_BASE && o[PAYLOAD_BASE..] == Body(wl, patched)
    requires newDir == BuildDir(wl, data, dir, ZERO_DIR, PAYLOAD_BASE)
    requires forall i :: 0 <= i < 256 ==> OutEntry(o, i) == newDir[i]
    requires forall j :: 0 <= j < 64 ==> |patched[j]| == |data[j]|
    ensures LumpAt(o, l, patched[l])
  {
    BodyLump(wl, data, patched, dir, newDir, k, l);
    PlaceInPayload(o, Body(wl, patched), newDir[4 * l], |patched[l]|, patched[l]);
  }

  /** The k-th listed lump l's (patched) bytes sit in the output where its new entry points. */
  lemma LumpInOutput(f: seq<byte>, wl: seq<nat>, fixed: bool, o: seq<byte>, k: nat, l: nat)
    requires InDirectory(wl) && Distinct(wl) && ShrinkWith(f, wl, fixed) == Success(o) && k < |wl| && wl[k] == l
    requires |f| >= DIR_END + 4
    ensures MakePlan(f, wl, fixed).Success? && LumpAt(o, l, MakePlan(f, wl, fixed).value.patched[l])
  {
    ShrinkOutput(f, wl, fixed, o);
    var p := MakePlan(f, wl, fixed).value;
    PlanLayout(f, wl, fixed, p);
    LaidLump(o, wl, p.data, p.patched, p.dir, p.newDir, k, l);
  }

  /**
   * The output's size is the 1040-byte header plus every listed lump padded to 16 bytes, and the
   * ident/version bytes and the map revision are copied, followed by four zero bytes. An input
   * cut inside the map revision (1032 to 1035 bytes) gives an output that many bytes shorter
   * than its directory declares: the short revision slice is copied as it is.
   */
  lemma ShrinkSize(f: seq<byte>, wl: seq<nat>, fixed: bool, o: seq<byte>)
    requires InDirectory(wl) && Distinct(wl) && ShrinkWith(f, wl, fixed) == Success(o)
    ensures |f| >= DIR_END + 4 ==> |o| == PAYLOAD_BASE + PaddedTotal(DeclaredLens(o, wl))
    ensures |f| < DIR_END + 4 ==> |f| >= DIR_END && |o| + (DIR_END + 4 - |f|) == PAYLOAD_BASE + PaddedTotal(DeclaredLens(o, wl))
    ensures o[..DIR_OFS] == f[..DIR_OFS]
    ensures |f| >= DIR_END + 4 ==> o[DIR_END..DIR_END + 4] == f[DIR_END..DIR_END + 4]
    ensures |f| >= DIR_END + 4 ==> forall i :: DIR_END + 4 <= i < PAYLOAD_BASE ==> o[i] == 0
    ensures |f| < DIR_END + 4 ==> o[DIR_END..|f|] == f[DIR_END..]
    ensures |f| < DIR_END + 4 ==> forall i :: |f| <= i < |f| + 4 ==> o[i] == 0
  {
    if |f| >= DIR_END + 4 {
      ShrinkSizeLong(f, wl, fixed, o);
    } else {
      ShrinkSizeShort(f, wl, fixed, o);
    }
  }

  /** ShrinkSize for an input that reaches past the version field. */
  lemma ShrinkSizeLong(f: seq<byte>, wl: seq<nat>, fixed: bool, o: seq<byte>)
    requires InDirectory(wl) && Distinct(wl) && ShrinkWith(f, wl, fixed) == Success(o)
    requires |f| >= DIR_END + 4
    ensures |o| == PAYLOAD_BASE + PaddedTotal(DeclaredLens(o, wl))
    ensures o[..DIR_OFS] == f[..DIR_OFS]
    ensures o[DIR_END..DIR_END + 4] == f[DIR_END..DIR_END + 4]
    ensures forall i :: DIR_END + 4 <= i < PAYLOAD_BASE ==> o[i] == 0
  {
    ShrinkOutput(f, wl, fixed, o);
    DeclaredLensOfPlan(f, wl, fixed, o);
    var p := MakePlan(f, wl, fixed).value;
    PlanShape(f, wl, fixed, p);
    PaddedSizeSameLengths(wl, p.data, p.patched);
    PaddedSizeIsTotal(wl, p.data);
    forall i | DIR_END + 4 <= i < PAYLOAD_BASE
      ensures o[i] == 0
    {
      assert o[i] == o[DIR_END + 4..PAYLOAD_BASE][i - (DIR_END + 4)];
    }
  }

  /** ShrinkSize for an input that ends inside the version field's four bytes. */
  lemma ShrinkSizeShort(f: seq<byte>, wl: seq<nat>, fixed: bool, o: seq<byte>)
    requires InDirectory(wl) && Distinct(wl) && ShrinkWith(f, wl, fixed) == Success(o)
    requires |f| < DIR_END + 4
    ensures |f| >= DIR_END && |o| + (DIR_END + 4 - |f|) == PAYLOAD_BASE + PaddedTotal(DeclaredLens(o, wl))
    ensures o[..DIR_OFS] == f[..DIR_OFS]
    ensures o[DIR_END..|f|] == f[DIR_END..]
    ensures forall i :: |f| <= i < |f| + 4 ==> o[i] == 0
  {
    ShrinkOutput(f, wl, fixed, o);
    DeclaredLensOfPlan(f, wl, fixed, o);
    var p := MakePlan(f, wl, fixed).value;
    PlanShape(f, wl, fixed, p);
    PaddedSizeSameLengths(wl, p.data, p.patched);
    PaddedSizeIsTotal(wl, p.data);
    var tail := f[DIR_END..] + Zeros(4) + Body(wl, p.patched);
    assert o[DIR_END..] == tail;
    assert o[DIR_END..|f|] == tail[..|f| - DIR_END];
    forall i | |f| <= i < |f| + 4
      ensures o[i] == 0
    {
      assert o[i] == tail[i - DIR_END];
    }
  }

  /** The output's directory entry for lump l addresses (in bounds) exactly the bytes x. */
  predicate LumpAt(o: seq<byte>, l: nat, x: seq<byte>) {
    l < 64 && |o| >= DIR_END && OutEntry(o, 4 * l) + OutEntry(o, 4 * l + 1) <= |o| &&
    o[OutEntry(o, 4 * l)..OutEntry(o, 4 * l) + OutEntry(o, 4 * l + 1)] == x
  }

  /** The input's lump l is present in the output: the output's entry addresses the same bytes. */
  predicate LumpKept(f: seq<byte>, o: seq<byte>, l: nat) {
    l < 64 && ParseDirectory(f).Success? && LumpAt(o, l, LumpSlice(f, ParseDirectory(f).value, l))
  }

  /** Rewrites the bytes an output entry addresses with an equal sequence. */
  lemma LumpAtEqual(f: seq<byte>, o: seq<byte>, l: nat, x: seq<byte>)
    requires l < 64 && ParseDirectory(f).Success? && LumpAt(o, l, x)
    requires x == LumpSlice(f, ParseDirectory(f).value, l)
    ensures LumpKept(f, o, l)
  {
  }

  /**
   * Every listed lump other than the game lump is copied byte for byte: the bytes the output's
   * entry addresses are the bytes the input's entry addresses (with Python's clamping slice).
   */
  lemma ShrinkKeepsLump(f: seq<byte>, wl: seq<nat>, fixed: bool, o: seq<byte>, k: nat)
    requires InDirectory(wl) && Distinct(wl) && ShrinkWith(f, wl, fixed) == Success(o) && k < |wl|
    requires |f| >= DIR_END + 4 && wl[k] != GAME_LUMP
    ensures LumpKept(f, o, wl[k])
  {
    var l := wl[k];
    LumpInOutput(f, wl, fixed, o, k, l);
    var p := MakePlan(f, wl, fixed).value;
    assert p.patched[l] == LumpSlice(f, ParseDirectory(f).value, l) by {
      PlanShape(f, wl, fixed, p);
      assert l in wl;
    }
    LumpAtEqual(f, o, l, p.patched[l]);
  }

  /**
   * A game lump as the output holds it, placed at ofs: one 'sprp' sub-lump entry
   * {1, 'sprp', flags/version, ofs + 20, length} followed by the sub-lump's bytes, so the
   * entry's offset field points just past the 20-byte header in the output file.
   */
  predicate RelocatedGameLump(g: seq<byte>, ofs: int, flagsVersion: int, sprp: seq<byte>) {
    |g| == GAME_LUMP_HEADER + |sprp| &&
    U32(g[0..4]) == 1 && U32(g[4..8]) == SPRP_ID && U32(g[8..12]) == flagsVersion &&
    U32(g[12..16]) == ofs + GAME_LUMP_HEADER && U32(g[16..20]) == |sprp| && g[20..] == sprp
  }

  /** Patching the offset field of a rebuilt game lump relocates it. */
  lemma PatchRelocates(g: seq<byte>, ofs: int, flagsVersion: int, sprp: seq<byte>)
    requires RebuiltGameLump(flagsVersion, sprp) == Success(g) && 0 <= ofs + GAME_LUMP_HEADER < TWO32
    ensures RelocatedGameLump(Slice(g, 0, 12) + Le32(ofs + GAME_LUMP_HEADER) + Slice(g, 16, |g|), ofs, flagsVersion, sprp)
  {
    var a := g[0..12];
    var b := g[16..];
    assert Slice(g, 0, 12) == a && Slice(g, 16, |g|) == b;
    Splice(a, Le32(ofs + GAME_LUMP_HEADER), b);
    assert a[0..4] == g[0..4] && a[4..8] == g[4..8] && a[8..12] == g[8..12];
    assert b[0..4] == g[16..20] && b[4..] == g[20..];
  }

  /** The pieces of twelve bytes, a four-byte field and a tail, put side by side. */
  lemma Splice(a: seq<byte>, m: seq<byte>, b: seq<byte>)
    requires |a| == 12 && |m| == 4
    ensures (a + m + b)[0..4] == a[0..4] && (a + m + b)[4..8] == a[4..8] && (a + m + b)[8..12] == a[8..12]
    ensures (a + m + b)[12..16] == m && (a + m + b)[16..] == b
  {
  }

  /** The game lump step's result is empty exactly when there are no props, and patching keeps that. */
  lemma GameLumpPatchedEmpty(f: seq<byte>, raw: seq<byte>, fixed: bool, data: seq<seq<byte>>, newDir: seq<int>, patched: seq<seq<byte>>)
    requires |data| == 64 && |newDir| == 256 && GameLumpFor(f, raw, fixed) == Success(data[GAME_LUMP])
    requires PatchGameLump(data, newDir) == Success(patched)
    ensures |patched| == 64
    ensures data[GAME_LUMP] == [] <==> NoProps(f, raw)
    ensures patched[GAME_LUMP] == [] <==> data[GAME_LUMP] == []
  {
    GameLumpCases(f, raw, fixed, data[GAME_LUMP]);
  }

  /** A non-empty game lump step result, once its offset field is patched, is relocated. */
  lemma GameLumpPatchedRelocated(f: seq<byte>, raw: seq<byte>, fixed: bool, data: seq<seq<byte>>, newDir: seq<int>, patched: seq<seq<byte>>)
    requires |data| == 64 && |newDir| == 256 && GameLumpFor(f, raw, fixed) == Success(data[GAME_LUMP])
    requires PatchGameLump(data, newDir) == Success(patched) && data[GAME_LUMP] != []
    ensures |patched| == 64
    ensures ExtractSprp(f, raw).Success? && ExtractSprp(f, raw).value.Some?
    ensures RelocatedGameLump(patched[GAME_LUMP], newDir[4 * GAME_LUMP],
                              ExtractSprp(f, raw).value.value.0, ExtractSprp(f, raw).value.value.1)
  {
    var g := data[GAME_LUMP];
    GameLumpCases(f, raw, fixed, g);
    var e := ExtractSprp(f, raw).value.value;
    PatchedGameLump(data, newDir, patched);
    PatchRelocates(g, newDir[4 * GAME_LUMP], e.0, e.1);
  }

  /** A successful patch of a non-empty game lump rewrites its offset field and nothing else. */
  lemma PatchedGameLump(data: seq<seq<byte>>, newDir: seq<int>, patched: seq<seq<byte>>)
    requires |data| == 64 && |newDir| == 256 && data[GAME_LUMP] != []
    requires PatchGameLump(data, newDir) == Success(patched)
    ensures |patched| == 64 && 0 <= newDir[4 * GAME_LUMP] + GAME_LUMP_HEADER < TWO32
    ensures var g := data[GAME_LUMP];
      patched[GAME_LUMP] == Slice(g, 0, 12) + Le32(newDir[4 * GAME_LUMP] + GAME_LUMP_HEADER) + Slice(g, 16, |g|)
    ensures forall k :: 0 <= k < 64 && k != GAME_LUMP ==> patched[k] == data[k]
  {
  }

  /** The game lump of a plan, once patched, is relocated to its new offset (when not empty). */
  lemma PlanGameLump(f: seq<byte>, wl: seq<nat>, fixed: bool, p: Plan)
    requires InDirectory(wl) && MakePlan(f, wl, fixed) == Success(p) && GAME_LUMP in wl
    ensures ParseDirectory(f) == Success(p.dir)
    ensures p.data[GAME_LUMP] == [] <==> NoProps(f, LumpSlice(f, p.dir, GAME_LUMP))
    ensures p.patched[GAME_LUMP] == [] <==> p.data[GAME_LUMP] == []
    ensures p.data[GAME_LUMP] != [] ==>
              ExtractSprp(f, LumpSlice(f, p.dir, GAME_LUMP)).Success? &&
              ExtractSprp(f, LumpSlice(f, p.dir, GAME_LUMP)).value.Some? &&
              RelocatedGameLump(p.patched[GAME_LUMP], p.newDir[4 * GAME_LUMP],
                                ExtractSprp(f, LumpSlice(f, p.dir, GAME_LUMP)).value.value.0,
                                ExtractSprp(f, LumpSlice(f, p.dir, GAME_LUMP)).value.value.1)
  {
    PlanSteps(f, wl, fixed, p);
    var raw := LumpSlice(f, p.dir, GAME_LUMP);
    assert GameLumpFor(f, raw, fixed) == Success(p.data[GAME_LUMP]);
    GameLumpPatchedEmpty(f, raw, fixed, p.data, p.newDir, p.patched);
    if p.data[GAME_LUMP] != [] {
      GameLumpPatchedRelocated(f, raw, fixed, p.data, p.newDir, p.patched);
    }
  }

  /**
   * The output's game lump entry has length zero exactly when the input's game lump holds no
   * props (its offset is then the write position the lumps before it reached).
   */
  lemma ShrinkGameLumpAbsent(f: seq<byte>, wl: seq<nat>, fixed: bool, o: seq<byte>, k: nat)
    requires InDirectory(wl) && Distinct(wl) && ShrinkWith(f, wl, fixed) == Success(o)
    requires k < |wl| && wl[k] == GAME_LUMP
    ensures ParseDirectory(f).Success? && |o| >= DIR_END
    ensures OutEntry(o, 4 * GAME_LUMP + 1) == 0 <==> NoProps(f, LumpSlice(f, ParseDirectory(f).value, GAME_LUMP))
  {
    ShrinkOutput(f, wl, fixed, o);
    var p := MakePlan(f, wl, fixed).value;
    PlanEntry(f, wl, fixed, p, k);
    PlanGameLump(f, wl, fixed, p);
  }

  /** The output's game lump entry addresses a relocated game lump holding the given sub-lump. */
  predicate GameLumpAt(o: seq<byte>, flagsVersion: int, sprp: seq<byte>) {
    |o| >= DIR_END && OutEntry(o, 4 * GAME_LUMP) + OutEntry(o, 4 * GAME_LUMP + 1) <= |o| &&
    RelocatedGameLump(o[OutEntry(o, 4 * GAME_LUMP)..OutEntry(o, 4 * GAME_LUMP) + OutEntry(o, 4 * GAME_LUMP + 1)],
                      OutEntry(o, 4 * GAME_LUMP), flagsVersion, sprp)
  }

  /** The input holds a 'sprp' sub-lump and the output's game lump is it, relocated. */
  predicate SprpRelocated(f: seq<byte>, o: seq<byte>) {
    ParseDirectory(f).Success? &&
    var raw := LumpSlice(f, ParseDirectory(f).value, GAME_LUMP);
    ExtractSprp(f, raw).Success? && ExtractSprp(f, raw).value.Some? &&
    GameLumpAt(o, ExtractSprp(f, raw).value.value.0, ExtractSprp(f, raw).value.value.1)
  }

  /** Moving the relocation facts of the plan's game lump over to the output bytes. */
  lemma RelocatedAt(f: seq<byte>, o: seq<byte>, dir: seq<int>, g: seq<byte>, ofs: int)
    requires ParseDirectory(f) == Success(dir) && LumpAt(o, GAME_LUMP, g) && OutEntry(o, 4 * GAME_LUMP) == ofs
    requires ExtractSprp(f, LumpSlice(f, dir, GAME_LUMP)).Success? && ExtractSprp(f, LumpSlice(f, dir, GAME_LUMP)).value.Some?
    requires RelocatedGameLump(g, ofs, ExtractSprp(f, LumpSlice(f, dir, GAME_LUMP)).value.value.0,
                               ExtractSprp(f, LumpSlice(f, dir, GAME_LUMP)).value.value.1)
    ensures SprpRelocated(f, o)
  {
  }

  /**
   * When the output's game lump is not empty, it is the input's first 'sprp' sub-lump behind a
   * one-entry header whose offset field points into the output itself.
   */
  lemma ShrinkGameLumpRebuilt(f: seq<byte>, wl: seq<nat>, fixed: bool, o: seq<byte>, k: nat)
    requires InDirectory(wl) && Distinct(wl) && ShrinkWith(f, wl, fixed) == Success(o)
    requires k < |wl| && wl[k] == GAME_LUMP && |f| >= DIR_END + 4
    requires |o| >= DIR_END && OutEntry(o, 4 * GAME_LUMP + 1) != 0
    ensures SprpRelocated(f, o)
  {
    ShrinkOutput(f, wl, fixed, o);
    var p := MakePlan(f, wl, fixed).value;
    LumpInOutput(f, wl, fixed, o, k, GAME_LUMP);
    assert p.data[GAME_LUMP] != [] && OutEntry(o, 4 * GAME_LUMP) == p.newDir[4 * GAME_LUMP] by {
      PlanEntry(f, wl, fixed, p, k);
      assert OutEntry(o, 4 * GAME_LUMP + 1) == p.newDir[4 * GAME_LUMP + 1];
    }
    assert GAME_LUMP in wl;
    PlanGameLump(f, wl, fixed, p);
    RelocatedAt(f, o, p.dir, p.patched[GAME_LUMP], p.newDir[4 * GAME_LUMP]);
  }

  /**
   * Directory entries are unpacked signed but packed unsigned: a listed lump whose version
   * field reads negative makes the run raise when the new directory is packed.
   */
  lemma NegativeVersionRejected(f: seq<byte>, wl: seq<nat>, fixed: bool, k: nat)
    requires InDirectory(wl) && Distinct(wl) && k < |wl| && MakePlan(f, wl, fixed).Success?
    requires |f| >= DIR_END && InEntry(f, 4 * wl[k] + 2) < 0
    ensures ShrinkWith(f, wl, fixed).Failure?
  {
    var p := MakePlan(f, wl, fixed).value;
    PlanVersion(f, wl, fixed, p, k);
    assert PackU32s(p.newDir).Failure?;
  }
}
