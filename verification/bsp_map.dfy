/**
 * The in-memory BSP map and the integer logic of its accessors: the flag bits of texture
 * infos, displacements, props and entities; the surfedge sign convention that picks a face's
 * vertices; the vertex counts of displacements; and the walk over a model's BSP tree that
 * collects the brushes it contains.
 *
 * Vertex positions and other float fields are opaque payload (reals that are never
 * computed with). Lists the parser fills are sequences; their element widths (uint16,
 * int32, ...) are the parser's business and are not repeated here.
 */
module BspMap {
  import opened Bits
  import Wrappers

  datatype Vec3 = Vec3(x: real, y: real, z: real)

  datatype Edge = Edge(v0: nat, v1: nat)
  datatype Face = Face(firstEdge: nat, numEdges: nat)
  datatype TexInfo = TexInfo(flags: nat, texdata: nat)
  datatype Brush = Brush(firstSide: nat, numSides: nat, contents: nat)
  datatype BrushSide = BrushSide(planeNum: nat, texinfo: int, dispInfo: int, bevel: int)

  /** A BSP tree node; a child >= 0 is a node index, a child < 0 is leaf -(child + 1). */
  datatype Node = Node(child0: int, child1: int)
  datatype Leaf = Leaf(contents: nat, firstLeafBrush: nat, numLeafBrushes: nat)
  datatype Model = Model(headNode: int)
  datatype DispInfo = DispInfo(dispVertStart: nat, power: nat, flags: nat, mapFace: nat)
  datatype StaticProp = StaticProp(solid: nat)

  datatype Map = Map(
    vertices: seq<Vec3>,
    edges: seq<Edge>,
    surfedges: seq<int>,
    faces: seq<Face>,
    texinfos: seq<TexInfo>,
    texdatas: seq<nat>,           // name_string_table_id of each texdata
    texdataStringTable: seq<nat>, // offsets into texdataStringData
    texdataStringData: string,
    brushes: seq<Brush>,
    brushsides: seq<BrushSide>,
    nodes: seq<Node>,
    leafs: seq<Leaf>,
    leafbrushes: seq<nat>,
    models: seq<Model>,
    dispinfos: seq<DispInfo>)

  // ---------------------------------------------------------------------------------------
  // Flag predicates: each tests one bit with `(flags & (1 << n)) != 0`
  // ---------------------------------------------------------------------------------------

  /** The single-bit test every flag predicate of the map uses. */
  predicate HasFlagBit(flags: nat, n: nat)
  {
    HasAny(flags, Pow2(n))
  }

  /** A single-bit test reads exactly bit n. */
  lemma FlagBitIsBit(flags: nat, n: nat)
    ensures HasFlagBit(flags, n) <==> Bit(flags, n)
  {
    HasAnyPow2(flags, n);
  }

  /** The texture info flags (SURF_* of the map format), in bit order. */
  datatype SurfFlag =
    | Light | Sky2D | Sky | Warp | Trans | NoPortal | Trigger | NoDraw
    | Hint | Skip | NoLight | BumpLight | NoShadows | NoDecals | NoChop | Hitbox

  function SurfBit(f: SurfFlag): (n: nat)
    ensures n < 16
  {
    match f
    case Light => 0
    case Sky2D => 1
    case Sky => 2
    case Warp => 3
    case Trans => 4
    case NoPortal => 5
    case Trigger => 6
    case NoDraw => 7
    case Hint => 8
    case Skip => 9
    case NoLight => 10
    case BumpLight => 11
    case NoShadows => 12
    case NoDecals => 13
    case NoChop => 14
    case Hitbox => 15
  }

  /** TexInfo::HasFlag_*. */
  predicate TexInfoHasFlag(ti: TexInfo, f: SurfFlag)
  {
    HasFlagBit(ti.flags, SurfBit(f))
  }

  /** Each texture-info predicate reads its own bit: two different flags never share one. */
  lemma SurfBitsDistinct(f: SurfFlag, g: SurfFlag)
    ensures SurfBit(f) == SurfBit(g) <==> f == g
  {
  }

  /** The displacement flags. */
  datatype DispFlag = NoPhysicsColl | NoHullColl | NoRayColl | Unknown1 | Unknown2

  function DispBit(f: DispFlag): nat
  {
    match f
    case NoPhysicsColl => 1
    case NoHullColl => 2
    case NoRayColl => 3
    case Unknown1 => 30
    case Unknown2 => 31
  }

  /** DispInfo::HasFlag_*. */
  predicate DispInfoHasFlag(d: DispInfo, f: DispFlag)
  {
    HasFlagBit(d.flags, DispBit(f))
  }

  /** The displacement predicates read bits 1, 2, 3, 30 and 31, one each. */
  lemma DispFlagsAreBits(d: DispInfo, f: DispFlag)
    ensures DispInfoHasFlag(d, f) <==> Bit(d.flags, DispBit(f))
    ensures DispBit(f) in {1, 2, 3, 30, 31}
  {
    FlagBitIsBit(d.flags, DispBit(f));
  }

  /** Ent_trigger_push::CanPushPlayers and CorrectlyAccountsForObjectMass. */
  predicate CanPushPlayers(spawnflags: nat)
  {
    HasFlagBit(spawnflags, 0)
  }

  predicate CorrectlyAccountsForObjectMass(spawnflags: nat)
  {
    HasFlagBit(spawnflags, 12)
  }

  /** The trigger_push flags are bit 0 and bit 12 of spawnflags. */
  lemma TriggerPushFlags(spawnflags: nat)
    ensures CanPushPlayers(spawnflags) <==> Bit(spawnflags, 0)
    ensures CorrectlyAccountsForObjectMass(spawnflags) <==> Bit(spawnflags, 12)
  {
    FlagBitIsBit(spawnflags, 0);
    FlagBitIsBit(spawnflags, 12);
  }

  /** The brush contents bits (CONTENTS_* of the map format). */
  const SOLID: nat := 1          // 1 << 0
  const WINDOW: nat := 2         // 1 << 1
  const GRATE: nat := 8          // 1 << 3
  const WATER: nat := 32         // 1 << 5
  const MOVEABLE: nat := 0x4000  // 1 << 14
  const PLAYERCLIP: nat := 0x1_0000   // 1 << 16
  const GRENADECLIP: nat := 0x8_0000  // 1 << 19
  const DRONECLIP: nat := 0x10_0000   // 1 << 20
  const DEBRIS: nat := 0x400_0000     // 1 << 26
  const DETAIL: nat := 0x800_0000     // 1 << 27
  const LADDER: nat := 0x2000_0000    // 1 << 29
  const HITBOX: nat := 0x4000_0000    // 1 << 30

  /** Brush::HasFlags: the brush has any of the given contents bits. */
  predicate BrushHasFlags(b: Brush, flags: nat)
  {
    HasAny(b.contents, flags)
  }

  /** The contents constants are the single bits the map format assigns them. */
  lemma ContentsBits()
    ensures SOLID == Pow2(0) && WINDOW == Pow2(1) && GRATE == Pow2(3) && WATER == Pow2(5)
    ensures PLAYERCLIP == Pow2(16) && GRENADECLIP == Pow2(19) && LADDER == Pow2(29)
  {
    Pow2Values();
    Pow2Add(16, 3);
    Pow2Add(16, 13);
  }

  /** Testing one contents constant tests its bit. */
  lemma BrushHasFlagBit(b: Brush, n: nat)
    ensures BrushHasFlags(b, Pow2(n)) <==> Bit(b.contents, n)
  {
    HasAnyPow2(b.contents, n);
  }

  /** StaticProp::IsNotSolid, IsSolidWithAABB and IsSolidWithVPhysics. */
  predicate IsNotSolid(p: StaticProp)
  {
    p.solid == 0
  }

  predicate IsSolidWithAABB(p: StaticProp)
  {
    p.solid == 2
  }

  predicate IsSolidWithVPhysics(p: StaticProp)
  {
    p.solid == 6
  }

  /** At most one of the prop solidity predicates holds, and one does for the three valid values. */
  lemma PropSolidityExclusive(p: StaticProp)
    ensures !(IsNotSolid(p) && IsSolidWithAABB(p)) && !(IsNotSolid(p) && IsSolidWithVPhysics(p))
    ensures !(IsSolidWithAABB(p) && IsSolidWithVPhysics(p))
    ensures p.solid in {0, 2, 6} <==> IsNotSolid(p) || IsSolidWithAABB(p) || IsSolidWithVPhysics(p)
  {
  }

  /** Ent_func_brush::IsSolid: never (1), always (2), or toggled and not starting disabled. */
  function FuncBrushIsSolid(solidity: int, startDisabled: bool): (r: bool)
    ensures solidity == 1 ==> !r
    ensures solidity == 2 ==> r
    ensures solidity != 1 && solidity != 2 ==> (r <==> !startDisabled)
  {
    if solidity == 1 then false
    else if solidity == 2 then true
    else !startDisabled
  }

  /** A func_brush is solid exactly when it is always solid, or toggled and enabled at start. */
  lemma FuncBrushSolidCases(solidity: int, startDisabled: bool)
    ensures FuncBrushIsSolid(solidity, startDisabled) <==> solidity == 2 || (solidity != 1 && !startDisabled)
  {
  }

  // ---------------------------------------------------------------------------------------
  // Face vertices (GetFaceVertices)
  // ---------------------------------------------------------------------------------------

  /** A surfedge names an edge and its direction: +k walks edge k forwards, -k backwards. */
  function EdgeIndex(se: int): nat
  {
    if se > 0 then se else -se
  }

  /** The vertex a directed edge starts at. */
  function StartVertex(e: Edge, se: int): nat
  {
    if se > 0 then e.v0 else e.v1
  }

  /** The vertex a directed edge ends at. */
  function EndVertex(e: Edge, se: int): nat
  {
    if se > 0 then e.v1 else e.v0
  }

  /** The surfedge lies inside the edge list and its edge inside the vertex list. */
  predicate SurfedgeOk(m: Map, se: int)
  {
    EdgeIndex(se) < |m.edges| && m.edges[EdgeIndex(se)].v0 < |m.vertices| && m.edges[EdgeIndex(se)].v1 < |m.vertices|
  }

  predicate FaceOk(m: Map, f: Face)
  {
    && f.firstEdge + f.numEdges <= |m.surfedges|
    && forall i :: f.firstEdge <= i < f.firstEdge + f.numEdges ==> SurfedgeOk(m, m.surfedges[i])
  }

  /** The vertex index that a surfedge contributes to its face. */
  function SurfedgeVertex(m: Map, se: int): (v: nat)
    requires SurfedgeOk(m, se)
    ensures v < |m.vertices|
    ensures v == StartVertex(m.edges[EdgeIndex(se)], se)
  {
    if se > 0 then m.edges[se].v0 else m.edges[-se].v1
  }

  /**
   * GetFaceVertices: one vertex per surfedge of the face, the start of the edge walked in the
   * surfedge's direction.
   */
  method GetFaceVertices(m: Map, faceIdx: nat) returns (verts: seq<Vec3>)
    requires faceIdx < |m.faces| && FaceOk(m, m.faces[faceIdx])
    ensures |verts| == m.faces[faceIdx].numEdges
    ensures forall i :: 0 <= i < |verts| ==>
      var se := m.surfedges[m.faces[faceIdx].firstEdge + i];
      verts[i] == m.vertices[StartVertex(m.edges[EdgeIndex(se)], se)]
  {
    var f := m.faces[faceIdx];
    verts := [];
    var i := 0;
    while i < f.numEdges
      invariant 0 <= i <= f.numEdges && |verts| == i
      invariant forall k :: 0 <= k < i ==>
        var se := m.surfedges[f.firstEdge + k];
        verts[k] == m.vertices[StartVertex(m.edges[EdgeIndex(se)], se)]
    {
      var surfedge := m.surfedges[f.firstEdge + i];
      assert SurfedgeOk(m, surfedge);
      if surfedge > 0 {
        verts := verts + [m.vertices[m.edges[surfedge].v0]];
      } else {
        verts := verts + [m.vertices[m.edges[-surfedge].v1]];
      }
      i := i + 1;
    }
  }

  /** The directed edges of a face form a closed loop: each ends where the next starts. */
  predicate ClosedLoop(m: Map, f: Face)
    requires FaceOk(m, f)
  {
    forall i :: f.firstEdge <= i < f.firstEdge + f.numEdges ==>
      var se := m.surfedges[i];
      var next := m.surfedges[if i + 1 < f.firstEdge + f.numEdges then i + 1 else f.firstEdge];
      EndVertex(m.edges[EdgeIndex(se)], se) == StartVertex(m.edges[EdgeIndex(next)], next)
  }

  /** Reversing a surfedge's sign swaps the ends of its edge. */
  lemma SurfedgeSign(e: Edge, k: int)
    requires k > 0
    ensures StartVertex(e, -k) == EndVertex(e, k) && EndVertex(e, -k) == StartVertex(e, k)
  {
  }

  /**
   * On a closed loop, the vertex list walks the face's boundary: vertex i + 1 is where the
   * i-th directed edge ends, and the last edge ends at vertex 0.
   */
  lemma FaceVerticesWalkLoop(m: Map, f: Face, i: nat)
    requires FaceOk(m, f) && ClosedLoop(m, f) && i < f.numEdges
    ensures var se := m.surfedges[f.firstEdge + i];
      var j := if i + 1 < f.numEdges then i + 1 else 0;
      EndVertex(m.edges[EdgeIndex(se)], se) == SurfedgeVertex(m, m.surfedges[f.firstEdge + j])
  {
    var k := f.firstEdge + i;
    assert f.firstEdge <= k < f.firstEdge + f.numEdges;
  }

  // ---------------------------------------------------------------------------------------
  // Displacement vertices (GetDisplacementVertices)
  // ---------------------------------------------------------------------------------------

  /** Vertices in one row of a displacement of the given power. */
  function RowVerts(power: nat): nat
  {
    Pow2(power) + 1
  }

  /**
   * The dispverts entries GetDisplacementVertices combines with the interpolated face
   * position, one per returned vertex; none when the displacement's face is not a quad.
   */
  function DisplacementVertexSources(m: Map, dispIdx: nat): (r: seq<nat>)
    requires dispIdx < |m.dispinfos| && m.dispinfos[dispIdx].mapFace < |m.faces|
    ensures m.faces[m.dispinfos[dispIdx].mapFace].numEdges != 4 ==> r == []
    ensures m.faces[m.dispinfos[dispIdx].mapFace].numEdges == 4 ==>
      |r| == RowVerts(m.dispinfos[dispIdx].power) * RowVerts(m.dispinfos[dispIdx].power)
    ensures forall i :: 0 <= i < |r| ==> r[i] == m.dispinfos[dispIdx].dispVertStart + i
  {
    var d := m.dispinfos[dispIdx];
    var n := RowVerts(d.power) * RowVerts(d.power);
    if m.faces[d.mapFace].numEdges != 4 then []
    else seq(n, i requires 0 <= i < n => d.dispVertStart + i)
  }

  /** The face-vertex indices of the top-left, top-right, bottom-right and bottom-left corners. */
  function CornerOrder(start: nat): (r: seq<nat>)
    requires start < 4
  {
    [(start + 3) % 4, (start + 0) % 4, (start + 1) % 4, (start + 2) % 4]
  }

  /** The corners are the four face vertices, each once, in clockwise order from the start vertex. */
  lemma CornersArePermutation(start: nat)
    requires start < 4
    ensures forall i :: 0 <= i < 4 ==> CornerOrder(start)[i] < 4
    ensures forall i, j :: 0 <= i < j < 4 ==> CornerOrder(start)[i] != CornerOrder(start)[j]
    ensures CornerOrder(start)[1] == start
  {
  }

  // ---------------------------------------------------------------------------------------
  // Brushes of a model (GetModelBrushIndices)
  // ---------------------------------------------------------------------------------------

  /** A tree entry refers to an existing node or leaf. */
  predicate EntryOk(m: Map, e: int)
  {
    if e >= 0 then e < |m.nodes| else -(e + 1) < |m.leafs|
  }

  /** Every child of every node refers to an existing entry. */
  predicate LinksOk(m: Map)
  {
    forall i :: 0 <= i < |m.nodes| ==> EntryOk(m, m.nodes[i].child0) && EntryOk(m, m.nodes[i].child1)
  }

  /** Every leaf's brush range lies inside leafbrushes. */
  predicate LeavesOk(m: Map)
  {
    forall l :: 0 <= l < |m.leafs| ==> m.leafs[l].firstLeafBrush + m.leafs[l].numLeafBrushes <= |m.leafbrushes|
  }

  /** h ranks the nodes: a child node has a lower rank than its parent. */
  predicate Ranked(m: Map, h: seq<nat>)
    requires LinksOk(m)
  {
    && |h| == |m.nodes|
    && forall i :: 0 <= i < |m.nodes| ==> ChildRanked(m, h, i, m.nodes[i].child0) && ChildRanked(m, h, i, m.nodes[i].child1)
  }

  predicate ChildRanked(m: Map, h: seq<nat>, parent: nat, c: int)
    requires |h| == |m.nodes| && parent < |m.nodes|
  {
    0 <= c < |m.nodes| ==> h[c] < h[parent]
  }

  /**
   * The node and leaf lists form trees: children refer to existing entries, no node lies
   * below itself (some ranking of the nodes falls from parent to child), and every leaf's
   * brush range lies inside leafbrushes.
   */
  ghost predicate TreeOk(m: Map)
  {
    LinksOk(m) && LeavesOk(m) && exists h :: Ranked(m, h)
  }

  /** The map compiler writes nodes parent first; that order is a ranking. */
  lemma ParentFirstIsTree(m: Map)
    requires LinksOk(m) && LeavesOk(m)
    requires forall i :: 0 <= i < |m.nodes| ==> m.nodes[i].child0 < 0 || m.nodes[i].child0 > i
    requires forall i :: 0 <= i < |m.nodes| ==> m.nodes[i].child1 < 0 || m.nodes[i].child1 > i
    ensures TreeOk(m)
  {
    var h := seq(|m.nodes|, i => |m.nodes| - i);
    assert Ranked(m, h);
  }

  ghost function Heights(m: Map): (h: seq<nat>)
    requires TreeOk(m)
    ensures Ranked(m, h)
  {
    var h :| Ranked(m, h); h
  }

  /** The measure of an entry: a node ranks above its children, a leaf ranks lowest. */
  ghost function Rank(m: Map, e: int): nat
    requires TreeOk(m)
  {
    if 0 <= e < |m.nodes| then Heights(m)[e] + 1 else 0
  }

  /** The children of a node exist and rank below it. */
  lemma Children(m: Map, e: nat)
    requires TreeOk(m) && e < |m.nodes|
    ensures EntryOk(m, m.nodes[e].child0) && Rank(m, m.nodes[e].child0) < Rank(m, e)
    ensures EntryOk(m, m.nodes[e].child1) && Rank(m, m.nodes[e].child1) < Rank(m, e)
  {
    var h := Heights(m);
    assert ChildRanked(m, h, e, m.nodes[e].child0) && ChildRanked(m, h, e, m.nodes[e].child1);
  }

  /** The values a sequence holds. */
  function Elements(s: seq<nat>): set<nat>
  {
    set k | k in s
  }

  /** The brushes a leaf lists. */
  function LeafBrushes(m: Map, l: nat): set<nat>
    requires LeavesOk(m)
  {
    if l < |m.leafs| then
      var lf := m.leafs[l];
      Elements(m.leafbrushes[lf.firstLeafBrush..lf.firstLeafBrush + lf.numLeafBrushes])
    else {}
  }

  /** The brushes of every leaf below an entry. */
  function BrushesUnder(m: Map, e: int): set<nat>
    requires TreeOk(m) && EntryOk(m, e)
    decreases Rank(m, e)
  {
    if e >= 0 then
      var n := m.nodes[e];
      Children(m, e);
      BrushesUnder(m, n.child0) + BrushesUnder(m, n.child1)
    else LeafBrushes(m, -(e + 1))
  }

  /** The number of entries in the subtree of an entry: the measure of the walk. */
  function SubtreeSize(m: Map, e: int): nat
    requires TreeOk(m) && EntryOk(m, e)
    decreases Rank(m, e)
  {
    if e >= 0 then
      var n := m.nodes[e];
      Children(m, e);
      1 + SubtreeSize(m, n.child0) + SubtreeSize(m, n.child1)
    else 1
  }

  predicate AllEntriesOk(m: Map, stack: seq<int>)
  {
    forall j :: 0 <= j < |stack| ==> EntryOk(m, stack[j])
  }

  /** The brushes below every pending entry. */
  function PendingBrushes(m: Map, stack: seq<int>): set<nat>
    requires TreeOk(m) && AllEntriesOk(m, stack)
  {
    if stack == [] then {} else PendingBrushes(m, stack[..|stack| - 1]) + BrushesUnder(m, stack[|stack| - 1])
  }

  function PendingSize(m: Map, stack: seq<int>): nat
    requires TreeOk(m) && AllEntriesOk(m, stack)
  {
    if stack == [] then 0 else PendingSize(m, stack[..|stack| - 1]) + SubtreeSize(m, stack[|stack| - 1])
  }

  /** Replacing a popped node by its two children keeps the pending brushes and shrinks the walk. */
  lemma ExpandNode(m: Map, stack: seq<int>, e: int)
    requires TreeOk(m) && AllEntriesOk(m, stack) && EntryOk(m, e) && e >= 0
    ensures AllEntriesOk(m, stack + [e])
    ensures EntryOk(m, m.nodes[e].child0) && EntryOk(m, m.nodes[e].child1)
    ensures AllEntriesOk(m, stack + [m.nodes[e].child0, m.nodes[e].child1])
    ensures PendingBrushes(m, stack + [m.nodes[e].child0, m.nodes[e].child1]) == PendingBrushes(m, stack + [e])
    ensures PendingSize(m, stack + [m.nodes[e].child0, m.nodes[e].child1]) < PendingSize(m, stack + [e])
  {
    var n := m.nodes[e];
    Children(m, e);
    var s2 := stack + [n.child0, n.child1];
    assert s2[..|s2| - 1] == stack + [n.child0];
    assert (stack + [n.child0])[..|stack|] == stack;
    assert (stack + [e])[..|stack|] == stack;
  }

  /** Popping a leaf leaves the entries below it pending. */
  lemma PopEntry(m: Map, stack: seq<int>, e: int)
    requires TreeOk(m) && AllEntriesOk(m, stack) && EntryOk(m, e)
    ensures AllEntriesOk(m, stack + [e])
    ensures PendingBrushes(m, stack + [e]) == PendingBrushes(m, stack) + BrushesUnder(m, e)
    ensures PendingSize(m, stack + [e]) == PendingSize(m, stack) + SubtreeSize(m, e)
  {
    assert (stack + [e])[..|stack|] == stack;
  }

  /** The inner loop of the walk: inserts the brushes a leaf lists into the set. */
  method InsertLeafBrushes(m: Map, l: nat, brushes: set<nat>) returns (r: set<nat>)
    requires LeavesOk(m) && l < |m.leafs|
    ensures r == brushes + LeafBrushes(m, l)
  {
    var leaf := m.leafs[l];
    r := brushes;
    var lbrush := leaf.firstLeafBrush;
    while lbrush < leaf.firstLeafBrush + leaf.numLeafBrushes
      invariant leaf.firstLeafBrush <= lbrush <= leaf.firstLeafBrush + leaf.numLeafBrushes
      invariant r == brushes + Elements(m.leafbrushes[leaf.firstLeafBrush..lbrush])
    {
      assert m.leafbrushes[leaf.firstLeafBrush..lbrush + 1] ==
        m.leafbrushes[leaf.firstLeafBrush..lbrush] + [m.leafbrushes[lbrush]];
      r := r + {m.leafbrushes[lbrush]};
      lbrush := lbrush + 1;
    }
  }

  /**
   * GetModelBrushIndices: walks the model's tree from its head node with an explicit stack
   * and collects the brushes of every leaf it reaches, each once.
   */
  method GetModelBrushIndices(m: Map, modelIdx: nat) returns (brushes: set<nat>)
    requires TreeOk(m) && modelIdx < |m.models| && EntryOk(m, m.models[modelIdx].headNode)
    ensures brushes == BrushesUnder(m, m.models[modelIdx].headNode)
  {
    var head := m.models[modelIdx].headNode;
    var pending := [head];
    brushes := {};
    assert pending[..0] == [];
    while pending != []
      invariant AllEntriesOk(m, pending)
      invariant brushes + PendingBrushes(m, pending) == BrushesUnder(m, head)
      decreases PendingSize(m, pending)
    {
      var next := pending[|pending| - 1];
      var rest := pending[..|pending| - 1];
      assert pending == rest + [next];
      assert EntryOk(m, next) && AllEntriesOk(m, rest);
      PopEntry(m, rest, next);
      if next >= 0 {
        ExpandNode(m, rest, next);
        pending := rest + [m.nodes[next].child0, m.nodes[next].child1];
      } else {
        brushes := InsertLeafBrushes(m, -(next + 1), brushes);
        pending := rest;
      }
    }
  }

  /** The brushes of a tree are those of its two halves, so the walk order does not matter. */
  lemma BrushesOfNode(m: Map, e: nat)
    requires TreeOk(m) && e < |m.nodes|
    ensures EntryOk(m, m.nodes[e].child0) && EntryOk(m, m.nodes[e].child1)
    ensures BrushesUnder(m, e) == BrushesUnder(m, m.nodes[e].child0) + BrushesUnder(m, m.nodes[e].child1)
  {
    Children(m, e);
  }

  /** A brush is collected exactly when some leaf below the head lists it. */
  lemma {:induction false} BrushesUnderMeans(m: Map, e: int, b: nat)
    requires TreeOk(m) && EntryOk(m, e)
    ensures b in BrushesUnder(m, e) <==> exists l :: LeafUnder(m, e, l) && b in LeafBrushes(m, l)
    decreases Rank(m, e)
  {
    if e >= 0 {
      var n := m.nodes[e];
      Children(m, e);
      BrushesUnderMeans(m, n.child0, b);
      BrushesUnderMeans(m, n.child1, b);
      forall l | LeafUnder(m, e, l) && b in LeafBrushes(m, l)
        ensures b in BrushesUnder(m, e)
      {
        assert LeafUnder(m, n.child0, l) || LeafUnder(m, n.child1, l);
      }
    } else {
      var l := -(e + 1);
      assert LeafUnder(m, e, l);
      forall l' | LeafUnder(m, e, l') ensures l' == l { }
    }
  }

  /** Leaf l lies in the subtree of entry e. */
  predicate LeafUnder(m: Map, e: int, l: nat)
    requires TreeOk(m) && EntryOk(m, e)
    decreases Rank(m, e)
  {
    if e >= 0 then
      var n := m.nodes[e];
      Children(m, e);
      LeafUnder(m, n.child0, l) || LeafUnder(m, n.child1, l)
    else l == -(e + 1) && l < |m.leafs|
  }

  // ---------------------------------------------------------------------------------------
  // The walk as written, on any node links
  // ---------------------------------------------------------------------------------------

  /**
   * The walk as the program runs it, on node links that need not form a tree, for at most
   * fuel turns of its loop: the brushes once the stack is empty, None while it is not.
   */
  function WalkAsWritten(m: Map, pending: seq<int>, brushes: set<nat>, fuel: nat): (r: Wrappers.Option<set<nat>>)
    requires LinksOk(m) && LeavesOk(m) && AllEntriesOk(m, pending)
    ensures pending == [] ==> r == Wrappers.Some(brushes)
    decreases fuel
  {
    if pending == [] then Wrappers.Some(brushes)
    else if fuel == 0 then Wrappers.None
    else
      var next := pending[|pending| - 1];
      var rest := pending[..|pending| - 1];
      assert EntryOk(m, next) && AllEntriesOk(m, rest);
      if next >= 0 then
        WalkAsWritten(m, rest + [m.nodes[next].child0, m.nodes[next].child1], brushes, fuel - 1)
      else
        WalkAsWritten(m, rest, brushes + LeafBrushes(m, -(next + 1)), fuel - 1)
  }

  /** One turn of the walk as written on a node: it is replaced by its two children. */
  lemma WalkNodeTurn(m: Map, rest: seq<int>, next: int, brushes: set<nat>, fuel: nat)
    requires LinksOk(m) && LeavesOk(m) && AllEntriesOk(m, rest + [next]) && 0 <= next < |m.nodes| && fuel > 0
    ensures AllEntriesOk(m, rest + [m.nodes[next].child0, m.nodes[next].child1])
    ensures WalkAsWritten(m, rest + [next], brushes, fuel)
         == WalkAsWritten(m, rest + [m.nodes[next].child0, m.nodes[next].child1], brushes, fuel - 1)
  {
    var pending := rest + [next];
    assert pending[..|pending| - 1] == rest && pending[|pending| - 1] == next;
  }

  /** One turn of the walk as written on a leaf: its brushes are collected. */
  lemma WalkLeafTurn(m: Map, rest: seq<int>, next: int, brushes: set<nat>, fuel: nat)
    requires LinksOk(m) && LeavesOk(m) && AllEntriesOk(m, rest + [next]) && next < 0 && fuel > 0
    ensures AllEntriesOk(m, rest)
    ensures WalkAsWritten(m, rest + [next], brushes, fuel)
         == WalkAsWritten(m, rest, brushes + LeafBrushes(m, -(next + 1)), fuel - 1)
  {
    var pending := rest + [next];
    assert pending[..|pending| - 1] == rest && pending[|pending| - 1] == next;
  }

  /** On a tree, the walk as written finishes within the size of the pending subtrees and collects their brushes. */
  lemma {:induction false} WalkFinishes(m: Map, pending: seq<int>, brushes: set<nat>, fuel: nat)
    requires TreeOk(m) && AllEntriesOk(m, pending) && PendingSize(m, pending) <= fuel
    ensures WalkAsWritten(m, pending, brushes, fuel) == Wrappers.Some(brushes + PendingBrushes(m, pending))
    decreases fuel, 1
  {
    if pending == [] {
      assert brushes + PendingBrushes(m, pending) == brushes;
    } else {
      var next := pending[|pending| - 1];
      var rest := pending[..|pending| - 1];
      assert pending == rest + [next];
      if next >= 0 {
        WalkFinishesNode(m, rest, next, brushes, fuel);
      } else {
        WalkFinishesLeaf(m, rest, next, brushes, fuel);
      }
    }
  }

  /** WalkFinishes when the top of the stack is a node. */
  lemma {:induction false} WalkFinishesNode(m: Map, rest: seq<int>, next: int, brushes: set<nat>, fuel: nat)
    requires TreeOk(m) && AllEntriesOk(m, rest + [next]) && PendingSize(m, rest + [next]) <= fuel && next >= 0
    ensures WalkAsWritten(m, rest + [next], brushes, fuel) == Wrappers.Some(brushes + PendingBrushes(m, rest + [next]))
    decreases fuel, 0
  {
    var pending := rest + [next];
    assert AllEntriesOk(m, rest) by {
      forall j | 0 <= j < |rest|
        ensures EntryOk(m, rest[j])
      {
        assert rest[j] == pending[j];
      }
    }
    assert EntryOk(m, pending[|rest|]);
    var kids := rest + [m.nodes[next].child0, m.nodes[next].child1];
    ExpandNode(m, rest, next);
    WalkNodeTurn(m, rest, next, brushes, fuel);
    WalkFinishes(m, kids, brushes, fuel - 1);
  }

  /** WalkFinishes when the top of the stack is a leaf. */
  lemma {:induction false} WalkFinishesLeaf(m: Map, rest: seq<int>, next: int, brushes: set<nat>, fuel: nat)
    requires TreeOk(m) && AllEntriesOk(m, rest + [next]) && PendingSize(m, rest + [next]) <= fuel && next < 0
    ensures WalkAsWritten(m, rest + [next], brushes, fuel) == Wrappers.Some(brushes + PendingBrushes(m, rest + [next]))
    decreases fuel, 0
  {
    PopEntry(m, rest, next);
    var leafBrushes := LeafBrushes(m, -(next + 1));
    assert SubtreeSize(m, next) == 1 && BrushesUnder(m, next) == leafBrushes;
    WalkLeafTurn(m, rest, next, brushes, fuel);
    WalkFinishes(m, rest, brushes + leafBrushes, fuel - 1);
    assert brushes + leafBrushes + PendingBrushes(m, rest) == brushes + PendingBrushes(m, rest + [next]);
  }

  /** A map whose only node has itself as its first child and leaf 0 as its second. */
  function SelfLoopMap(): (m: Map)
    ensures LinksOk(m) && LeavesOk(m) && |m.nodes| == 1 && m.nodes[0] == Node(0, -1)
  {
    Map([], [], [], [], [], [], [], "", [], [], [Node(0, -1)], [Leaf(0, 0, 0)], [], [Model(0)], [])
  }

  /** A node below itself has no ranking, so the self loop is not a tree. */
  lemma SelfLoopNotTree()
    ensures !TreeOk(SelfLoopMap())
  {
    var m := SelfLoopMap();
    if h :| Ranked(m, h) {
      assert ChildRanked(m, h, 0, m.nodes[0].child0);
    }
  }

  /** The walk as written never ends on the self loop: whatever the fuel, the stack is not empty. */
  lemma {:induction false} SelfLoopWalkNeverEnds(pending: seq<int>, brushes: set<nat>, fuel: nat)
    requires pending == [0] || pending == [0, -1]
    ensures WalkAsWritten(SelfLoopMap(), pending, brushes, fuel) == Wrappers.None
    decreases fuel
  {
    var m := SelfLoopMap();
    if fuel > 0 {
      if pending == [0] {
        assert pending[..0] + [0, -1] == [0, -1];
        SelfLoopWalkNeverEnds([0, -1], brushes, fuel - 1);
      } else {
        assert pending[..1] == [0];
        SelfLoopWalkNeverEnds([0], brushes + LeafBrushes(m, 0), fuel - 1);
      }
    }
  }
}
