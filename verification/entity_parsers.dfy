/**
 * The entity parsers of the map loader: every block of the entity lump is looked up by its
 * classname; player spawns go into the priority-sorted spawn list and func_brush entities
 * into their own list.
 */
module EntityParsers {
  import opened Wrappers
  import opened BspEntities
  import opened SpawnOrder
  import CsgoUtils
  import BspMap
  import AssetReader
  import Bytes

  // ---------------------------------------------------------------------------------------
  // Key-value lookup
  // ---------------------------------------------------------------------------------------

  /** The index of the first pair with the key, or |kvs| when there is none. */
  function FirstWithKey(kvs: seq<KeyValue>, key: string): (r: nat)
    ensures r <= |kvs|
    ensures forall j :: 0 <= j < r ==> kvs[j].key != key
    ensures r < |kvs| ==> kvs[r].key == key
  {
    if kvs == [] then 0
    else if kvs[0].key == key then 0
    else 1 + FirstWithKey(kvs[1..], key)
  }

  /**
   * multimap::find on the pairs of a block: the value of the first pair read with the key.
   * The pairs of a block are kept in a multimap, which keeps pairs of equal keys in the order
   * they were inserted; find yields the first of them.
   */
  function Find(kvs: seq<KeyValue>, key: string): (r: Option<string>)
    ensures r.None? <==> forall j :: 0 <= j < |kvs| ==> kvs[j].key != key
    ensures r.Some? ==> exists j :: 0 <= j < |kvs| && kvs[j] == KeyValue(key, r.value)
  {
    var j := FirstWithKey(kvs, key);
    if j < |kvs| then Some(kvs[j].value) else None
  }

  /** An earlier pair with the key wins over every later one. */
  lemma FindFirstWins(a: seq<KeyValue>, b: seq<KeyValue>, key: string, value: string)
    ensures Find(a, key).None? ==> Find(a + [KeyValue(key, value)] + b, key) == Some(value)
    ensures Find(a, key).Some? ==> Find(a + [KeyValue(key, value)] + b, key) == Find(a, key)
  {
    var s := a + [KeyValue(key, value)] + b;
    assert forall j :: 0 <= j < |a| ==> s[j] == a[j];
    FirstWithKeyPrefix(a, [KeyValue(key, value)] + b, key);
    assert s == a + ([KeyValue(key, value)] + b);
  }

  /** The first pair with the key in a + b lies in a when a has one, else in b. */
  lemma {:induction false} FirstWithKeyPrefix(a: seq<KeyValue>, b: seq<KeyValue>, key: string)
    ensures FirstWithKey(a + b, key) == if FirstWithKey(a, key) < |a| then FirstWithKey(a, key) else |a| + FirstWithKey(b, key)
  {
    if a != [] {
      assert (a + b)[0] == a[0] && (a + b)[1..] == a[1..] + b;
      FirstWithKeyPrefix(a[1..], b, key);
    } else {
      assert a + b == b;
    }
  }

  // ---------------------------------------------------------------------------------------
  // Entities
  // ---------------------------------------------------------------------------------------

  /**
   * The parts of entity parsing that are not modelled: the value of one float token (strtold,
   * 0 when it cannot be read), and the verdict of the worldspawn, trigger_push and
   * prop_dynamic parsers, which collect into lists this model does not keep.
   */
  datatype Handlers = Handlers(floatOf: string -> real, otherOk: (string, seq<KeyValue>) -> bool)

  /** ParseFloatsFromString: one float per space-separated token. */
  function Floats(s: string, h: Handlers): (r: seq<real>)
    ensures |r| == |CsgoUtils.SplitString(s, ' ')|
  {
    var parts := CsgoUtils.SplitString(s, ' ');
    seq(|parts|, k requires 0 <= k < |parts| => h.floatOf(parts[k]))
  }

  /** A three-component vector from a value, which needs at least three tokens. */
  function Vector3(s: string, h: Handlers): (r: Option<seq<real>>)
    ensures r.Some? <==> |CsgoUtils.SplitString(s, ' ')| >= 3
    ensures r.Some? ==> |r.value| == 3 && r.value == Floats(s, h)[..3]
  {
    var f := Floats(s, h);
    if |f| < 3 then None else Some(f[..3])
  }

  /** The integer value of an optional key, with the default when the key is missing. */
  function IntOr(kvs: seq<KeyValue>, key: string, parseDefault: int, missing: int): int
  {
    match Find(kvs, key)
    case None => missing
    case Some(v) => CsgoUtils.ParseIntFromString(v, parseDefault)
  }

  datatype FuncBrush = FuncBrush(model: string, origin: seq<real>, angles: seq<real>, solidity: int, startDisabled: bool)

  /** What the entity parsers collect. */
  datatype Collected = Collected(spawns: seq<Spawn>, funcBrushes: seq<FuncBrush>)

  /** A spawn block: rejected, disabled (and skipped), or an enabled spawn. */
  datatype SpawnRead = BadSpawn | Disabled | Enabled(spawn: Spawn)

  /**
   * ParseEntity_info_player_counterterrorist (the terrorist parser delegates to it): a spawn
   * whose enabled value reads as 0 is skipped; otherwise origin and angles are required with
   * three components each, and the priority defaults to 0. The parsed 64-bit value is stored
   * in the spawn's int16_t priority, so it wraps modulo 2^16.
   */
  function ReadSpawn(kvs: seq<KeyValue>, h: Handlers): (r: SpawnRead)
    ensures r.Disabled? <==> Find(kvs, "enabled").Some? && CsgoUtils.ParseIntFromString(Find(kvs, "enabled").value, 0) == 0
    ensures r.BadSpawn? ==> (!r.Disabled? && (Find(kvs, "origin").None? || Find(kvs, "angles").None?
      || Vector3(Find(kvs, "origin").value, h).None? || Vector3(Find(kvs, "angles").value, h).None?))
    ensures r.Enabled? ==> Find(kvs, "priority").None? ==> r.spawn.priority == 0
    ensures r.Enabled? ==> |r.spawn.origin| == 3 && |r.spawn.angles| == 3
    ensures r.Enabled? ==> -0x8000 <= r.spawn.priority < 0x8000
    ensures r.Enabled? ==> r.spawn.priority == AssetReader.ToInt16(IntOr(kvs, "priority", 0, 0))
  {
    var en := Find(kvs, "enabled");
    if en.Some? && CsgoUtils.ParseIntFromString(en.value, 0) == 0 then Disabled
    else
      var o := Find(kvs, "origin");
      var a := Find(kvs, "angles");
      if o.None? || a.None? then BadSpawn
      else match (Vector3(o.value, h), Vector3(a.value, h))
        case (Some(ov), Some(av)) => Enabled(Spawn(ov, av, AssetReader.ToInt16(IntOr(kvs, "priority", 0, 0))))
        case _ => BadSpawn
  }

  /**
   * ParseEntity_func_brush: origin is required with three components; angles are optional
   * but need three components when present (zero otherwise); a Solidity value defaults to 1
   * when it cannot be read and the missing key means 0; StartDisabled holds only for 1. The
   * Solidity value is stored in an int16_t, so it wraps modulo 2^16.
   */
  function ReadFuncBrush(kvs: seq<KeyValue>, h: Handlers): (r: Option<FuncBrush>)
    ensures r.Some? <==> (Find(kvs, "origin").Some? && Vector3(Find(kvs, "origin").value, h).Some?
      && (Find(kvs, "angles").None? || Vector3(Find(kvs, "angles").value, h).Some?))
    ensures r.Some? ==> r.value.model == (if Find(kvs, "model").Some? then Find(kvs, "model").value else "")
    ensures r.Some? && Find(kvs, "angles").None? ==> r.value.angles == [0.0, 0.0, 0.0]
    ensures r.Some? && Find(kvs, "Solidity").None? ==> r.value.solidity == 0
    ensures r.Some? ==> -0x8000 <= r.value.solidity < 0x8000
    ensures r.Some? ==> r.value.solidity == AssetReader.ToInt16(IntOr(kvs, "Solidity", 1, 0))
    ensures r.Some? ==> (r.value.startDisabled <==> IntOr(kvs, "StartDisabled", 0, 0) == 1)
  {
    var model := match Find(kvs, "model") case Some(m) => m case None => "";
    var o := Find(kvs, "origin");
    if o.None? then None
    else match Vector3(o.value, h)
      case None => None
      case Some(ov) =>
        var a := Find(kvs, "angles");
        var av := if a.None? then Some([0.0, 0.0, 0.0]) else Vector3(a.value, h);
        if av.None? then None
        else Some(FuncBrush(model, ov, av.value, AssetReader.ToInt16(IntOr(kvs, "Solidity", 1, 0)), IntOr(kvs, "StartDisabled", 0, 0) == 1))
  }

  /** A func_brush block without Solidity and StartDisabled is solid, toggled with its visibility. */
  lemma FuncBrushDefaultsSolid(kvs: seq<KeyValue>, h: Handlers)
    requires ReadFuncBrush(kvs, h).Some?
    requires Find(kvs, "Solidity").None? && Find(kvs, "StartDisabled").None?
    ensures var fb := ReadFuncBrush(kvs, h).value;
      fb.solidity == 0 && !fb.startDisabled && BspMap.FuncBrushIsSolid(fb.solidity, fb.startDisabled)
  {
  }

  /** What Find gives on the block of origin, angles and priority, in that order. */
  lemma SpawnBlockFinds(origin: string, angles: string, p: string)
    ensures var kvs := [KeyValue("origin", origin), KeyValue("angles", angles), KeyValue("priority", p)];
      && Find(kvs, "enabled").None? && Find(kvs, "origin") == Some(origin)
      && Find(kvs, "angles") == Some(angles) && Find(kvs, "priority") == Some(p)
  {
    var kvs := [KeyValue("origin", origin), KeyValue("angles", angles), KeyValue("priority", p)];
    assert "origin"[0] != "angles"[0] && "origin"[0] != "priority"[0] && "angles"[0] != "priority"[0];
    assert "origin"[0] != "enabled"[0] && "angles"[0] != "enabled"[0] && "priority"[0] != "enabled"[0];
    assert FirstWithKey(kvs[2..], "priority") == 0 && FirstWithKey(kvs[1..], "priority") == 1;
    assert FirstWithKey(kvs, "priority") == 2;
    assert FirstWithKey(kvs[1..], "angles") == 0 && FirstWithKey(kvs, "angles") == 1;
  }

  /**
   * The int16_t priority wraps: a priority written as 40000 is stored as -25536, so the spawn
   * sorts in front of a priority-0 spawn instead of behind it.
   */
  lemma PriorityWrapSortsFirst(origin: string, angles: string, h: Handlers, first: Spawn)
    requires |CsgoUtils.SplitString(origin, ' ')| >= 3 && |CsgoUtils.SplitString(angles, ' ')| >= 3
    requires first.priority == 0
    ensures var r := ReadSpawn([KeyValue("origin", origin), KeyValue("angles", angles), KeyValue("priority", CsgoUtils.ShowInt(40000))], h);
            r.Enabled? && r.spawn.priority == -25536 && InsertSpawn([first], r.spawn) == [r.spawn, first]
  {
    var kvs := [KeyValue("origin", origin), KeyValue("angles", angles), KeyValue("priority", CsgoUtils.ShowInt(40000))];
    SpawnBlockFinds(origin, angles, CsgoUtils.ShowInt(40000));
    CsgoUtils.ParseIntOfShowInt(40000, 0);
    assert IntOr(kvs, "priority", 0, 0) == 40000;
    var r := ReadSpawn(kvs, h);
    assert r.Enabled?;
    assert AssetReader.ToInt16(40000) == -25536;
    InsertInFront(first, r.spawn);
  }

  /** A spawn of lower priority is inserted in front of the only spawn. */
  lemma InsertInFront(first: Spawn, x: Spawn)
    requires x.priority < first.priority
    ensures InsertSpawn([first], x) == [x, first]
  {
    assert FirstGreater([first], x.priority) == 0;
  }

  /** The int16_t Solidity wraps: a Solidity written as 65537 is stored as 1, never solid. */
  lemma SolidityWrapNeverSolid(origin: string, h: Handlers)
    requires |CsgoUtils.SplitString(origin, ' ')| >= 3
    ensures var r := ReadFuncBrush([KeyValue("origin", origin), KeyValue("Solidity", CsgoUtils.ShowInt(65537))], h);
            r.Some? && r.value.solidity == 1 && !BspMap.FuncBrushIsSolid(r.value.solidity, r.value.startDisabled)
  {
    var kvs := [KeyValue("origin", origin), KeyValue("Solidity", CsgoUtils.ShowInt(65537))];
    CsgoUtils.ParseIntOfShowInt(65537, 1);
    assert "origin"[0] != "Solidity"[0] && "origin"[0] != "angles"[0] && "Solidity"[0] != "angles"[0];
    assert FirstWithKey(kvs[1..], "Solidity") == 0;
    assert FirstWithKey(kvs, "Solidity") == 1;
    assert Find(kvs, "origin") == Some(origin) && Find(kvs, "angles").None?;
    assert Find(kvs, "Solidity") == Some(CsgoUtils.ShowInt(65537));
    assert IntOr(kvs, "Solidity", 1, 0) == 65537;
    assert AssetReader.ToInt16(65537) == 1;
    assert ReadFuncBrush(kvs, h).Some?;
  }

  predicate IsSpawnClass(cn: string)
  {
    cn == "info_player_terrorist" || cn == "info_player_counterterrorist"
  }

  predicate IsOtherClass(cn: string)
  {
    cn == "worldspawn" || cn == "trigger_push" || cn == "prop_dynamic" || cn == "prop_dynamic_override"
  }

  /**
   * ParseEntity: every block needs a classname; spawns are inserted by priority and
   * func_brush blocks appended. The other classes the program parses (worldspawn,
   * trigger_push, prop_dynamic) are judged by a handler, and any unknown class is ignored.
   */
  function ParseEntity(kvs: seq<KeyValue>, c: Collected, h: Handlers): (r: Option<Collected>)
    ensures Find(kvs, "classname").None? ==> r.None?
    ensures r.Some? && !IsSpawnClass(Find(kvs, "classname").value) ==> r.value.spawns == c.spawns
    ensures r.Some? && Find(kvs, "classname").value != "func_brush" ==> r.value.funcBrushes == c.funcBrushes
  {
    match Find(kvs, "classname")
    case None => None
    case Some(cn) =>
      if IsSpawnClass(cn) then
        match ReadSpawn(kvs, h)
        case BadSpawn => None
        case Disabled => Some(c)
        case Enabled(sp) => Some(c.(spawns := InsertSpawn(c.spawns, sp)))
      else if cn == "func_brush" then
        match ReadFuncBrush(kvs, h)
        case None => None
        case Some(fb) => Some(c.(funcBrushes := c.funcBrushes + [fb]))
      else if IsOtherClass(cn) then
        if h.otherOk(cn, kvs) then Some(c) else None
      else Some(c)
  }

  /**
   * The blocks parsed in lump order; the first failing block fails the lump. The spawn list
   * afterwards is the blocks' enabled spawns inserted in block order.
   */
  function ParseEntities(blocks: seq<seq<KeyValue>>, c: Collected, h: Handlers): (r: Option<Collected>)
    ensures r.Some? ==> r.value.spawns == InsertEach(c.spawns, SpawnsOf(blocks, h))
    decreases |blocks|
  {
    if blocks == [] then Some(c)
    else match ParseEntity(blocks[0], c, h)
      case None => None
      case Some(c1) =>
        ParseEntitySpawns(blocks[0], c, h);
        InsertEachConcat(c.spawns, SpawnOfBlock(blocks[0], h), SpawnsOf(blocks[1..], h));
        ParseEntities(blocks[1..], c1, h)
  }

  /**
   * ParseLump_Entities: the lump's blocks, each handed to the entity parser in order. The
   * reader hands each block over as soon as its `}` line is read; the lump fails if any line
   * or any block fails, so reading the blocks first and parsing them afterwards yields the
   * same outcome.
   */
  function ParseEntityLump(data: string, lumpPos: nat, lumpLen: nat, c: Collected, h: Handlers): (r: Option<Collected>)
    ensures EntityLumpBlocks(data, lumpPos, lumpLen).None? ==> r.None?
  {
    match EntityLumpBlocks(data, lumpPos, lumpLen)
    case None => None
    case Some(blocks) => ParseEntities(blocks, c, h)
  }

  /** The spawn a block contributes: one for an enabled spawn block, none otherwise. */
  function SpawnOfBlock(kvs: seq<KeyValue>, h: Handlers): (r: seq<Spawn>)
    ensures |r| <= 1
  {
    match Find(kvs, "classname")
    case None => []
    case Some(cn) =>
      if IsSpawnClass(cn) && ReadSpawn(kvs, h).Enabled? then [ReadSpawn(kvs, h).spawn] else []
  }

  /** The spawns a list of blocks contributes, in block order. */
  function SpawnsOf(blocks: seq<seq<KeyValue>>, h: Handlers): seq<Spawn>
  {
    if blocks == [] then [] else SpawnOfBlock(blocks[0], h) + SpawnsOf(blocks[1..], h)
  }

  /** One block inserts its spawn, if it has one, and changes nothing else in the spawn list. */
  lemma ParseEntitySpawns(kvs: seq<KeyValue>, c: Collected, h: Handlers)
    requires ParseEntity(kvs, c, h).Some?
    ensures ParseEntity(kvs, c, h).value.spawns == InsertEach(c.spawns, SpawnOfBlock(kvs, h))
  {
    var mine := SpawnOfBlock(kvs, h);
    if mine != [] {
      assert mine[1..] == [];
    }
  }

  /**
   * Parsing a list of blocks sorts their enabled spawns stably by priority into the spawn
   * list: the list stays sorted, it gains exactly those spawns, and within each priority they
   * follow the spawns already there in block order.
   */
  lemma ParseEntitiesSortsSpawns(blocks: seq<seq<KeyValue>>, c: Collected, h: Handlers, p: int)
    requires SortedByPriority(c.spawns) && ParseEntities(blocks, c, h).Some?
    ensures var r := ParseEntities(blocks, c, h).value;
      && SortedByPriority(r.spawns)
      && multiset(r.spawns) == multiset(c.spawns) + multiset(SpawnsOf(blocks, h))
      && WithPriority(r.spawns, p) == WithPriority(c.spawns, p) + WithPriority(SpawnsOf(blocks, h), p)
  {
    InsertEachSorted(c.spawns, SpawnsOf(blocks, h));
    InsertEachAdds(c.spawns, SpawnsOf(blocks, h));
    InsertEachStable(c.spawns, SpawnsOf(blocks, h), p);
  }
}
