/**
 * The BSP map shrinker: a pure function from the bytes of a CS:GO map file to
 * the bytes of a smaller map file that keeps only the lumps the simulator
 * parses. The 64-entry lump directory (16 bytes per entry at offset 8) is read
 * as signed 32-bit integers, whitelisted lumps are copied in whitelist order to
 * 16-byte aligned positions from offset 1040, and the game lump (35) is rebuilt
 * so that it holds only its first static-prop ('sprp') sub-lump.
 */
module Shrinker {
  import opened Wrappers
  import opened Bytes

  const DIR_OFS: int := 8
  const DIR_END: int := 1032
  const PAYLOAD_BASE: nat := 1040
  const GAME_LUMP: nat := 35
  /** 'sprp' read as a little-endian 32-bit integer. */
  const SPRP_ID: int := 1936749168
  /** Size of the rebuilt game lump's header: a count and one 16-byte sub-lump entry. */
  const GAME_LUMP_HEADER: nat := 20

  /** The directory the new one is built on: every entry zero. */
  const ZERO_DIR: seq<int> := seq(256, _ => 0)

  /** The lumps the simulator parses, in the order they are laid out. */
  const WHITELIST: seq<nat> := [0, 1, 2, 3, 5, 6, 7, 10, 12, 13, 14, 17, 18, 19, 26, 33, 35, 40, 43, 44]

  /** Python's struct.error: a byte count that does not fit the format, or a value '<L' cannot hold. */
  datatype Error = StructError

  /** Every whitelisted index names one of the 64 directory entries. */
  predicate InDirectory(wl: seq<nat>) {
    forall k :: 0 <= k < |wl| ==> wl[k] < 64
  }

  /** No lump index is listed twice. */
  predicate Distinct(wl: seq<nat>) {
    forall j, k :: 0 <= j < k < |wl| ==> wl[j] != wl[k]
  }

  /** struct.unpack('<' + 'i' * n, b) for a byte string of exactly 4n bytes. */
  function UnpackI32s(b: seq<byte>): (r: seq<int>)
    requires |b| % 4 == 0
    ensures |r| == |b| / 4
    ensures forall i :: 0 <= i < |r| ==> r[i] == I32(b[4 * i..4 * i + 4])
  {
    seq(|b| / 4, i requires 0 <= i < |b| / 4 => I32(b[4 * i..4 * i + 4]))
  }

  /** struct.pack('<' + 'L' * n, *xs): fails unless every value fits in an unsigned 32-bit field. */
  function PackU32s(xs: seq<int>): (r: Result<seq<byte>, Error>)
    ensures r.Success? <==> forall i :: 0 <= i < |xs| ==> 0 <= xs[i] < TWO32
    ensures r.Success? ==> |r.value| == 4 * |xs|
    ensures r.Success? ==> forall i :: 0 <= i < |xs| ==> U32(r.value[4 * i..4 * i + 4]) == xs[i]
  {
    if xs == [] then Success([])
    else if xs[0] < 0 || xs[0] >= TWO32 then Failure(StructError)
    else
      var rest := PackU32s(xs[1..]);
      if rest.Failure? then Failure(StructError)
      else
        var r := Le32(xs[0]) + rest.value;
        assert forall i :: 1 <= i < |xs| ==> r[4 * i..4 * i + 4] == rest.value[4 * (i - 1)..4 * (i - 1) + 4];
        Success(r)
  }

  /** Unpacking what was packed gives back every value below 2^31. */
  lemma UnpackPacked(xs: seq<int>)
    requires forall i :: 0 <= i < |xs| ==> 0 <= xs[i] < TWO31
    ensures PackU32s(xs).Success?
    ensures UnpackI32s(PackU32s(xs).value) == xs
  {
  }

  /** The lump directory: 256 signed integers (offset, length, version, four_cc per lump). */
  function ParseDirectory(f: seq<byte>): (r: Result<seq<int>, Error>)
    ensures r.Success? <==> |f| >= DIR_END
    ensures r.Success? ==> |r.value| == 256
    ensures r.Success? ==> forall i :: 0 <= i < 256 ==> r.value[i] == I32(f[DIR_OFS + 4 * i..DIR_OFS + 4 * i + 4])
  {
    var b := Slice(f, DIR_OFS, DIR_END);
    if |b| != 1024 then Failure(StructError)
    else
      assert b == f[DIR_OFS..DIR_END];
      DirectoryWords(f);
      Success(UnpackI32s(b))
  }

  /** The i-th four-byte word of the directory block is the word at DIR_OFS + 4i of the file. */
  lemma DirectoryWords(f: seq<byte>)
    requires |f| >= DIR_END
    ensures forall i :: 0 <= i < 256 ==> UnpackI32s(f[DIR_OFS..DIR_END])[i] == I32(f[DIR_OFS + 4 * i..DIR_OFS + 4 * i + 4])
  {
    var b := f[DIR_OFS..DIR_END];
    forall i | 0 <= i < 256
      ensures UnpackI32s(b)[i] == I32(f[DIR_OFS + 4 * i..DIR_OFS + 4 * i + 4])
    {
      SubSlice(f, DIR_OFS, DIR_END, 4 * i, 4 * i + 4);
    }
  }

  /** A slice of a slice is a slice of the original sequence. */
  lemma SubSlice<T>(s: seq<T>, lo: nat, hi: nat, i: nat, j: nat)
    requires lo <= hi <= |s| && i <= j <= hi - lo
    ensures s[lo..hi][i..j] == s[lo + i..lo + j]
  {
    forall t | 0 <= t < j - i
      ensures s[lo..hi][i..j][t] == s[lo + i..lo + j][t]
    {
    }
  }

  /** n sixteen-byte sub-lump entries hold 4n four-byte words. */
  lemma SixteenWords(n: nat)
    ensures (16 * n) % 4 == 0 && (16 * n) / 4 == 4 * n
  {
  }

  /** The bytes a directory entry addresses, read with Python's clamping slice. */
  function LumpSlice(f: seq<byte>, dir: seq<int>, lump: nat): seq<byte>
    requires |dir| == 256 && lump < 64
  {
    Slice(f, dir[4 * lump], dir[4 * lump] + dir[4 * lump + 1])
  }

  /** Index of the first of the first count sub-lump entries whose id is 'sprp', scanning from k. */
  function FirstSprp(ints: seq<int>, count: nat, k: nat): (r: Option<nat>)
    requires 4 * count <= |ints|
    decreases count - k
    ensures r.Some? ==> k <= r.value < count && ints[4 * r.value] == SPRP_ID
    ensures r.Some? ==> forall j :: k <= j < r.value ==> ints[4 * j] != SPRP_ID
    ensures r.None? ==> forall j :: k <= j < count ==> ints[4 * j] != SPRP_ID
  {
    if k >= count then None
    else if ints[4 * k] == SPRP_ID then Some(k)
    else FirstSprp(ints, count, k + 1)
  }

  /** The new game lump: five LE u32 {1, 'sprp', flagsversion, 0, len} followed by the sprp bytes. */
  function RebuiltGameLump(flagsVersion: int, sprp: seq<byte>): (r: Result<seq<byte>, Error>)
    ensures r.Success? <==> 0 <= flagsVersion < TWO32 && |sprp| < TWO32
    ensures r.Success? ==> |r.value| == GAME_LUMP_HEADER + |sprp|
    ensures r.Success? ==> U32(r.value[0..4]) == 1 && U32(r.value[4..8]) == SPRP_ID
    ensures r.Success? ==> U32(r.value[8..12]) == flagsVersion && U32(r.value[12..16]) == 0
    ensures r.Success? ==> U32(r.value[16..20]) == |sprp| && r.value[20..] == sprp
  {
    if flagsVersion < 0 || flagsVersion >= TWO32 || |sprp| >= TWO32 then Failure(StructError)
    else
      var r := Le32(1) + Le32(SPRP_ID) + Le32(flagsVersion) + Le32(0) + Le32(|sprp|) + sprp;
      FiveWords(Le32(1), Le32(SPRP_ID), Le32(flagsVersion), Le32(0), Le32(|sprp|), sprp);
      Success(r)
  }

  /** Where five four-byte words and a tail sit in their concatenation. */
  lemma FiveWords(a: seq<byte>, b: seq<byte>, c: seq<byte>, d: seq<byte>, e: seq<byte>, tail: seq<byte>)
    requires |a| == 4 && |b| == 4 && |c| == 4 && |d| == 4 && |e| == 4
    ensures var r := a + b + c + d + e + tail;
      r[0..4] == a && r[4..8] == b && r[8..12] == c && r[12..16] == d && r[16..20] == e && r[20..] == tail
  {
    var r := a + b + c + d + e + tail;
    assert r[0..4] == a;
    assert r[4..8] == b;
    assert r[8..12] == c;
    assert r[12..16] == d;
    assert r[16..20] == e;
    assert r[20..] == tail;
  }

  /**
   * The sub-lump directory of a game lump: the count is unpacked from the first four bytes
   * (raising when there are fewer), then count 16-byte entries must follow (a negative count
   * asks for none), each read as four signed integers (id, flags/version, offset, length).
   */
  function SubLumpEntries(lump: seq<byte>): (r: Result<seq<int>, Error>)
    ensures |lump| < 4 ==> r.Failure?
    ensures r.Success? ==> |r.value| % 4 == 0 && 4 + 4 * |r.value| <= |lump|
    ensures r.Success? ==> |r.value| == 4 * (if I32(lump[0..4]) < 0 then 0 else I32(lump[0..4]))
  {
    var head := Slice(lump, 0, 4);
    if |head| != 4 then Failure(StructError)
    else
      assert head == lump[0..4];
      EntryWords(lump, I32(head))
  }

  /**
   * The count entries after the four-byte count, as signed integers: the bytes lump[4:4+16*count]
   * must be exactly 16 per entry (none for a negative count).
   */
  function EntryWords(lump: seq<byte>, count: int): (r: Result<seq<int>, Error>)
    requires |lump| >= 4
    ensures r.Success? ==> |r.value| % 4 == 0 && 4 + 4 * |r.value| <= |lump|
    ensures r.Success? ==> |r.value| == 4 * (if count < 0 then 0 else count)
  {
    var n: nat := if count < 0 then 0 else count;
    var dirBytes := Slice(lump, 4, 4 + count * 16);
    if |dirBytes| != 16 * n then Failure(StructError)
    else
      SixteenWords(n);
      Success(UnpackI32s(dirBytes))
  }

  /**
   * The sub-lump scan of the script: the first 'sprp' entry yields its flags/version field
   * and its bytes, read from the whole input file; no such entry yields None.
   */
  function ExtractSprp(f: seq<byte>, lump: seq<byte>): (r: Result<Option<(int, seq<byte>)>, Error>)
    ensures |lump| < 4 ==> r.Failure?
    ensures r.Success? && r.value.Some? ==> r.value.value.0 < TWO31
  {
    var ints :- SubLumpEntries(lump);
    match FirstSprp(ints, |ints| / 4, 0)
    case None => Success(None)
    case Some(k) =>
      Success(Some((ints[4 * k + 1], Slice(f, ints[4 * k + 2], ints[4 * k + 2] + ints[4 * k + 3]))))
  }

  /**
   * The game lump step as the script performs it: an absent or empty 'sprp' sub-lump leaves
   * the game lump empty; otherwise it is rebuilt around that sub-lump alone.
   */
  function GameLumpAsWritten(f: seq<byte>, lump: seq<byte>): (r: Result<seq<byte>, Error>)
    ensures |lump| < 4 ==> r.Failure?
    ensures r.Success? && r.value != [] ==> |r.value| > GAME_LUMP_HEADER
  {
    var found :- ExtractSprp(f, lump);
    match found
    case None => Success([])
    case Some((flagsVersion, sprp)) =>
      if |sprp| == 0 then Success([]) else RebuiltGameLump(flagsVersion, sprp)
  }

  /** The game lump step with a game lump too short to hold a count treated as holding no props. */
  function GameLump(f: seq<byte>, lump: seq<byte>): (r: Result<seq<byte>, Error>)
    ensures |lump| < 4 ==> r == Success([])
    ensures |lump| >= 4 ==> r == GameLumpAsWritten(f, lump)
  {
    if |lump| < 4 then Success([]) else GameLumpAsWritten(f, lump)
  }

  function GameLumpFor(f: seq<byte>, lump: seq<byte>, fixed: bool): Result<seq<byte>, Error>
  {
    if fixed then GameLump(f, lump) else GameLumpAsWritten(f, lump)
  }

  /** Copies every whitelisted lump's bytes into its slot of data, rebuilding the game lump. */
  function CollectLumps(f: seq<byte>, dir: seq<int>, wl: seq<nat>, data: seq<seq<byte>>, fixed: bool)
    : (r: Result<seq<seq<byte>>, Error>)
    requires |dir| == 256 && |data| == 64 && InDirectory(wl)
    decreases |wl|
    ensures r.Failure? <==> GAME_LUMP in wl && GameLumpFor(f, LumpSlice(f, dir, GAME_LUMP), fixed).Failure?
    ensures r.Success? ==> |r.value| == 64
    ensures r.Success? ==> forall l :: 0 <= l < 64 && l !in wl ==> r.value[l] == data[l]
    ensures r.Success? ==> forall l :: l in wl && l != GAME_LUMP ==> r.value[l] == LumpSlice(f, dir, l)
    ensures r.Success? && GAME_LUMP in wl ==>
              GameLumpFor(f, LumpSlice(f, dir, GAME_LUMP), fixed) == Success(r.value[GAME_LUMP])
  {
    if wl == [] then Success(data)
    else
      var l := wl[0];
      var raw := LumpSlice(f, dir, l);
      var lumpData :- if l == GAME_LUMP then GameLumpFor(f, raw, fixed) else Success(raw);
      assert forall m :: m in wl[1..] ==> m in wl;
      assert forall m :: m in wl ==> m == l || m in wl[1..];
      CollectLumps(f, dir, wl[1..], data[l := lumpData], fixed)
  }

  /** A length rounded up to the next multiple of 16, the way the script pads each lump. */
  function PadTo16(n: nat): (r: nat)
    ensures r % 16 == 0 && n <= r < n + 16
  {
    if n % 16 != 0 then n + (16 - n % 16) else n
  }

  /** Total padded size of the listed lumps. */
  function PaddedSize(wl: seq<nat>, data: seq<seq<byte>>): (r: nat)
    requires |data| == 64 && InDirectory(wl)
    ensures r % 16 == 0
  {
    if wl == [] then 0 else PadTo16(|data[wl[0]]|) + PaddedSize(wl[1..], data)
  }

  /**
   * The new directory, filled in whitelist order: each lump gets (write position, length,
   * original version); the write position then advances by the padded length.
   */
  function BuildDir(wl: seq<nat>, data: seq<seq<byte>>, oldDir: seq<int>, newDir: seq<int>, pos: nat)
    : (r: seq<int>)
    requires |data| == 64 && |oldDir| == 256 && |newDir| == 256 && InDirectory(wl)
    ensures |r| == 256
    decreases |wl|
  {
    if wl == [] then newDir
    else
      var l := wl[0];
      var d := newDir[4 * l := pos][4 * l + 1 := |data[l]|][4 * l + 2 := oldDir[4 * l + 2]];
      BuildDir(wl[1..], data, oldDir, d, pos + PadTo16(|data[l]|))
  }

  /** Writes (game lump offset + 20) as LE u32 over bytes 12..16 of a non-empty game lump. */
  function PatchGameLump(data: seq<seq<byte>>, newDir: seq<int>): (r: Result<seq<seq<byte>>, Error>)
    requires |data| == 64 && |newDir| == 256
  {
    var g := data[GAME_LUMP];
    if |g| == 0 then Success(data)
    else
      var ofs := newDir[4 * GAME_LUMP] + GAME_LUMP_HEADER;
      if ofs < 0 || ofs >= TWO32 then Failure(StructError)
      else Success(data[GAME_LUMP := Slice(g, 0, 12) + Le32(ofs) + Slice(g, 16, |g|)])
  }

  /** The payload region: each listed lump followed by zeros up to a 16-byte boundary. */
  function Body(wl: seq<nat>, data: seq<seq<byte>>): (r: seq<byte>)
    requires |data| == 64 && InDirectory(wl)
    ensures |r| == PaddedSize(wl, data)
  {
    if wl == [] then []
    else
      var d := data[wl[0]];
      d + Zeros(PadTo16(|d|) - |d|) + Body(wl[1..], data)
  }

  /** The intermediate values of one run of the script. */
  datatype Plan = Plan(dir: seq<int>, data: seq<seq<byte>>, newDir: seq<int>, patched: seq<seq<byte>>)

  function MakePlan(f: seq<byte>, wl: seq<nat>, fixed: bool): (r: Result<Plan, Error>)
    requires InDirectory(wl)
    ensures r.Success? ==> |r.value.dir| == 256 && |r.value.data| == 64
    ensures r.Success? ==> |r.value.newDir| == 256 && |r.value.patched| == 64
  {
    var dir :- ParseDirectory(f);
    var data :- CollectLumps(f, dir, wl, seq(64, _ => []), fixed);
    var newDir := BuildDir(wl, data, dir, ZERO_DIR, PAYLOAD_BASE);
    var patched :- PatchGameLump(data, newDir);
    Success(Plan(dir, data, newDir, patched))
  }

  /** The output file: header, new directory, map revision, four zero bytes, payload region. */
  function Assemble(f: seq<byte>, wl: seq<nat>, p: Plan): Result<seq<byte>, Error>
    requires InDirectory(wl) && |p.newDir| == 256 && |p.patched| == 64
  {
    var dirBytes :- PackU32s(p.newDir);
    Success(Slice(f, 0, DIR_OFS) + dirBytes + Slice(f, DIR_END, DIR_END + 4) + Zeros(4) + Body(wl, p.patched))
  }

  /** The assembled file keeps the input's header and map revision. */
  lemma AssembleKeeps(f: seq<byte>, wl: seq<nat>, p: Plan)
    requires InDirectory(wl) && |p.newDir| == 256 && |p.patched| == 64
    ensures |f| >= DIR_END && Assemble(f, wl, p).Success? ==> Kept(f, Assemble(f, wl, p).value)
  {
    if |f| >= DIR_END && Assemble(f, wl, p).Success? {
      var o := Assemble(f, wl, p).value;
      var rev := Slice(f, DIR_END, DIR_END + 4);
      var head := Slice(f, 0, DIR_OFS) + PackU32s(p.newDir).value;
      assert o == head + (rev + Zeros(4) + Body(wl, p.patched));
      assert |head| == DIR_END;
      assert o[..DIR_OFS] == head[..DIR_OFS];
      if |f| >= DIR_END + 4 {
        assert o[DIR_END..DIR_END + 4] == rev;
      }
    }
  }

  /**
   * What every output keeps of its input: the 8-byte header, and the 4-byte map revision after
   * the directory when the input is long enough to hold one.
   */
  predicate Kept(f: seq<byte>, o: seq<byte>)
  {
    && |f| >= DIR_END && |o| >= DIR_END + 4 && o[..DIR_OFS] == f[..DIR_OFS]
    && (|f| >= DIR_END + 4 ==> o[DIR_END..DIR_END + 4] == f[DIR_END..DIR_END + 4])
  }

  function ShrinkWith(f: seq<byte>, wl: seq<nat>, fixed: bool): (r: Result<seq<byte>, Error>)
    requires InDirectory(wl)
    ensures |f| < DIR_END ==> r.Failure?
    ensures r.Success? ==> Kept(f, r.value)
  {
    var p :- MakePlan(f, wl, fixed);
    AssembleKeeps(f, wl, p);
    Assemble(f, wl, p)
  }

  /** The script as written. */
  function ShrinkAsWritten(f: seq<byte>): (r: Result<seq<byte>, Error>)
    ensures |f| < DIR_END ==> r.Failure?
    ensures r.Success? ==> Kept(f, r.value)
  {
    ShrinkWith(f, WHITELIST, false)
  }

  /** The script with a game lump shorter than four bytes treated as holding no props. */
  function Shrink(f: seq<byte>): (r: Result<seq<byte>, Error>)
    ensures |f| < DIR_END ==> r.Failure?
    ensures r.Success? ==> Kept(f, r.value)
  {
    ShrinkWith(f, WHITELIST, true)
  }
}
