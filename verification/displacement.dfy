/**
 * The integer side of the displacement collision tree: a displacement of power p is a
 * (2^p+1) x (2^p+1) vertex grid, cut into 2^p x 2^p tiles of two triangles each. The tiles
 * are the leaves of a complete quad tree whose leaf slots are numbered by interleaving the
 * tile's column and row bits. Edge planes are shared between triangles through a table in
 * which a plane and its negation are one entry; a cached plane index carries bit 0x8000
 * when the triangle uses the negated plane.
 *
 * Plane normals are float vectors in the program; here they are integer vectors, so that
 * exact equality and negation keep their meaning (NaN is not modelled). The normals the
 * cache is built from come from float geometry and are a parameter.
 */
module Displacement {
  import opened Wrappers
  import opened Bits

  // ---------------------------------------------------------------------------------------
  // Sizes
  // ---------------------------------------------------------------------------------------

  /** GetWidth and GetHeight: vertices per grid row and column. */
  function Width(power: nat): nat
  {
    Pow2(power) + 1
  }

  /** GetSize: vertices in the grid. */
  function Size(power: nat): nat
  {
    Width(power) * Width(power)
  }

  /** GetTriSize: triangles of the displacement. */
  function TriSize(power: nat): nat
  {
    Pow2(power) * Pow2(power) * 2
  }

  /** Every displacement has triangles. */
  lemma TriSizePositive(power: nat)
    ensures TriSize(power) > 0
  {
    var p := Pow2(power);
    assert p >= 1;
    assert p * p >= 1;
  }

  /** Tiles along one side. */
  function Tiles(power: nat): (n: nat)
    ensures n >= 1 && n + 1 == Width(power)
  {
    Pow2(power)
  }

  /** Two triangles per tile, one tile per pair of neighbouring rows and columns. */
  lemma TriSizeCountsTiles(power: nat)
    ensures TriSize(power) == 2 * (Width(power) - 1) * (Width(power) - 1)
    ensures Size(power) == (Tiles(power) + 1) * (Tiles(power) + 1)
  {
  }

  lemma {:induction false} Pow2Square(k: nat)
    ensures Pow2(k) * Pow2(k) == Pow2(2 * k)
  {
    if k > 0 {
      Pow2Square(k - 1);
      var h := Pow2(k - 1);
      assert Pow2(k) == 2 * h;
      assert Pow2(2 * k) == 4 * Pow2(2 * (k - 1));
      assert (2 * h) * (2 * h) == 4 * (h * h);
    }
  }

  // ---------------------------------------------------------------------------------------
  // Leaf numbering: bit interleave (Nodes_GetIndexFromComponents)
  // ---------------------------------------------------------------------------------------

  /** Bit k of x moved to bit 2k: the first loop of the interleave. */
  function Spread(x: nat): nat
  {
    if x == 0 then 0 else x % 2 + 4 * Spread(x / 2)
  }

  /** The interleave: x's bits at even positions, OR-ed with y's bits at odd positions. */
  function Morton(x: nat, y: nat): nat
  {
    Or(Spread(x), 2 * Spread(y))
  }

  /** The even-position bits of m, packed: the inverse of Spread. */
  function EvenBits(m: nat): nat
  {
    if m == 0 then 0 else m % 2 + 2 * EvenBits(m / 4)
  }

  /** The column a leaf slot encodes. */
  function SlotColumn(m: nat): nat
  {
    EvenBits(m)
  }

  /** The row a leaf slot encodes. */
  function SlotRow(m: nat): nat
  {
    EvenBits(m / 2)
  }

  lemma {:induction false} OrCommutes(a: nat, b: nat)
    ensures Or(a, b) == Or(b, a)
  {
    if a != 0 && b != 0 {
      OrCommutes(a / 2, b / 2);
    }
  }

  /** The two interleaved halves never share a bit, so the OR is a sum. */
  lemma {:induction false} MortonIsSum(x: nat, y: nat)
    ensures Morton(x, y) == Spread(x) + 2 * Spread(y)
    decreases x + y
  {
    if x != 0 && y != 0 {
      var a := Spread(x);
      var b := 2 * Spread(y);
      assert a / 2 == 2 * Spread(x / 2) && a % 2 == x % 2;
      assert b / 2 == Spread(y) && b % 2 == 0;
      OrCommutes(2 * Spread(x / 2), Spread(y));
      MortonIsSum(y, x / 2);
    }
  }

  /** One step of the interleave: the low bit of each coordinate, then the rest shifted by two. */
  lemma MortonStep(x: nat, y: nat)
    ensures Morton(x, y) == x % 2 + 2 * (y % 2) + 4 * Morton(x / 2, y / 2)
  {
    MortonIsSum(x, y);
    MortonIsSum(x / 2, y / 2);
  }

  lemma {:induction false} EvenBitsOfSum(x: nat, y: nat)
    ensures EvenBits(Spread(x) + 2 * Spread(y)) == x
    decreases x + y
  {
    var m := Spread(x) + 2 * Spread(y);
    if x != 0 || y != 0 {
      assert m == x % 2 + 4 * (Spread(x / 2) + 2 * Spread(y / 2)) + 2 * (y % 2);
      assert m % 2 == x % 2;
      assert m / 4 == Spread(x / 2) + 2 * Spread(y / 2);
      EvenBitsOfSum(x / 2, y / 2);
    }
  }

  /** Column and row come back out of the leaf slot. */
  lemma MortonDecodes(x: nat, y: nat)
    ensures SlotColumn(Morton(x, y)) == x
    ensures SlotRow(Morton(x, y)) == y
  {
    MortonIsSum(x, y);
    var m := Spread(x) + 2 * Spread(y);
    EvenBitsOfSum(x, y);
    assert m / 2 == Spread(y) + 2 * Spread(x / 2) by {
      assert m == x % 2 + 2 * (Spread(y) + 2 * Spread(x / 2));
    }
    EvenBitsOfSum(y, x / 2);
  }

  /** Distinct tiles get distinct leaf slots. */
  lemma MortonInjective(x1: nat, y1: nat, x2: nat, y2: nat)
    requires Morton(x1, y1) == Morton(x2, y2)
    ensures x1 == x2 && y1 == y2
  {
    MortonDecodes(x1, y1);
    MortonDecodes(x2, y2);
  }

  lemma SpreadStep(b: nat, z: nat)
    requires b < 2
    ensures Spread(b + 2 * z) == b + 4 * Spread(z)
  {
    var e := b + 2 * z;
    assert e % 2 == b && e / 2 == z;
  }

  lemma {:induction false} SpreadOfEvenBits(m: nat)
    ensures Spread(EvenBits(m)) + 2 * Spread(EvenBits(m / 2)) == m
    decreases m
  {
    if m == 0 {
      assert EvenBits(m) == 0 && EvenBits(m / 2) == 0;
    } else {
      var q := m / 4;
      var h := m / 2;
      QuarterOfHalf(m);
      var a := EvenBits(q);
      var b := EvenBits(q / 2);
      assert EvenBits(m) == m % 2 + 2 * a;
      assert EvenBits(h) == h % 2 + 2 * b;
      SpreadStep(m % 2, a);
      SpreadStep(h % 2, b);
      assert Spread(EvenBits(m)) == m % 2 + 4 * Spread(a);
      assert Spread(EvenBits(h)) == h % 2 + 4 * Spread(b);
      SpreadOfEvenBits(q);
      Recombine(m, Spread(a), Spread(b));
    }
  }

  /** Halving then quartering is quartering then halving. */
  lemma QuarterOfHalf(m: nat)
    ensures (m / 2) / 4 == (m / 4) / 2
  {
    LowTwoBits(m);
  }

  /** The low two bits of m, then the halves of m / 4 shifted up by two, add back to m. */
  lemma Recombine(m: nat, sa: nat, sb: nat)
    requires sa + 2 * sb == m / 4
    ensures (m % 2 + 4 * sa) + 2 * ((m / 2) % 2 + 4 * sb) == m
  {
    LowTwoBits(m);
  }

  lemma LowTwoBits(m: nat)
    ensures m == m % 2 + 2 * ((m / 2) % 2) + 4 * (m / 4)
  {
    var h := m / 2;
    assert m == 2 * h + m % 2;
    assert h == 2 * (h / 2) + h % 2;
    assert h / 2 == m / 4;
  }

  /** Every slot number is the interleave of the column and row it encodes. */
  lemma MortonOfSlot(m: nat)
    ensures Morton(SlotColumn(m), SlotRow(m)) == m
  {
    MortonIsSum(SlotColumn(m), SlotRow(m));
    SpreadOfEvenBits(m);
  }

  /** Coordinates below 2^k interleave to a slot below 4^k. */
  lemma {:induction false} MortonBound(x: nat, y: nat, k: nat)
    requires x < Pow2(k) && y < Pow2(k)
    ensures Morton(x, y) < Pow2(2 * k)
  {
    MortonStep(x, y);
    if k == 0 {
      assert x == 0 && y == 0;
      assert Spread(0) == 0;
      assert Morton(x, y) == 0;
    } else {
      var p := Pow2(k - 1);
      assert Pow2(k) == 2 * p;
      assert x / 2 < p && y / 2 < p;
      assert Pow2(2 * k) == 4 * Pow2(2 * (k - 1)) by {
        assert 2 * k == 2 * (k - 1) + 1 + 1;
      }
      MortonBound(x / 2, y / 2, k - 1);
      var r := Morton(x / 2, y / 2);
      assert Morton(x, y) <= 3 + 4 * r;
    }
  }

  /** A slot below 4^k encodes a column and row below 2^k. */
  lemma {:induction false} EvenBitsBound(m: nat, k: nat)
    requires m < Pow2(2 * k)
    ensures EvenBits(m) < Pow2(k)
  {
    if k > 0 && m != 0 {
      assert Pow2(2 * k) == 4 * Pow2(2 * (k - 1));
      EvenBitsBound(m / 4, k - 1);
    }
  }

  lemma SlotBound(m: nat, k: nat)
    requires m < Pow2(2 * k)
    ensures SlotColumn(m) < Pow2(k) && SlotRow(m) < Pow2(k)
  {
    EvenBitsBound(m, k);
    EvenBitsBound(m / 2, k);
  }

  // ---------------------------------------------------------------------------------------
  // Quad tree shape (Nodes_CalcCount, Nodes_GetChild, IsLeafNode)
  // ---------------------------------------------------------------------------------------

  /** Nodes_CalcCount: all nodes of the quad tree, leaves included. */
  function NodesCalcCount(power: nat): nat
    requires 1 <= power <= 4
  {
    Pow2((power + 1) * 2) / 3
  }

  /** Nodes of a complete quad tree of the given depth: 1 + 4 + ... + 4^depth. */
  function QuadTreeSize(depth: nat): nat
  {
    if depth == 0 then 1 else Pow2(2 * depth) + QuadTreeSize(depth - 1)
  }

  lemma {:induction false} QuadTreeSizeClosed(depth: nat)
    ensures 3 * QuadTreeSize(depth) + 1 == Pow2(2 * depth + 2)
  {
    if depth > 0 {
      QuadTreeSizeClosed(depth - 1);
      assert Pow2(2 * depth + 2) == 4 * Pow2(2 * depth);
    }
  }

  /** The formula counts the nodes of a complete quad tree whose leaves are the tiles. */
  lemma CalcCountIsQuadTree(power: nat)
    requires 1 <= power <= 4
    ensures NodesCalcCount(power) == QuadTreeSize(power)
  {
    QuadTreeSizeClosed(power);
  }

  /** The inner nodes: the node count minus the tiles (leaves). */
  function InnerNodes(power: nat): nat
    requires 1 <= power <= 4
  {
    CalcCountIsQuadTree(power);
    Pow2Square(power);
    NodesCalcCount(power) - Tiles(power) * Tiles(power)
  }

  lemma InnerNodesCount(power: nat)
    requires 1 <= power <= 4
    ensures InnerNodes(power) == QuadTreeSize(power - 1)
    ensures InnerNodes(power) + Pow2(2 * power) == NodesCalcCount(power)
    ensures 3 * InnerNodes(power) + 1 == Pow2(2 * power)
  {
    CalcCountIsQuadTree(power);
    Pow2Square(power);
    QuadTreeSizeClosed(power - 1);
  }

  /** Nodes_GetChild: the child of an inner node in one of the four directions. */
  function NodeChild(power: nat, node: nat, dir: nat): (c: nat)
    requires 1 <= power <= 4
    requires node < InnerNodes(power) && dir < 4
    ensures node < c < NodesCalcCount(power)
  {
    InnerNodesCount(power);
    QuadTreeSizeClosed(power - 1);
    4 * node + (dir + 1)
  }

  /** The parent of a non-root node and the direction it hangs in. */
  function Parent(c: nat): (p: (nat, nat))
    requires c > 0
    ensures p.1 < 4 && p.0 < c
  {
    ((c - 1) / 4, (c - 1) % 4)
  }

  /** Every non-root node is the child of exactly one inner node, in exactly one direction. */
  lemma ChildParent(power: nat, node: nat, dir: nat)
    requires 1 <= power <= 4 && node < InnerNodes(power) && dir < 4
    ensures Parent(NodeChild(power, node, dir)) == (node, dir)
  {
  }

  lemma ParentChild(power: nat, c: nat)
    requires 1 <= power <= 4 && 0 < c < NodesCalcCount(power)
    ensures Parent(c).0 < InnerNodes(power)
    ensures NodeChild(power, Parent(c).0, Parent(c).1) == c
  {
    InnerNodesCount(power);
  }

  /** IsLeafNode: node numbers past the inner nodes are leaves. */
  predicate IsLeafNode(power: nat, node: nat)
    requires 1 <= power <= 4
  {
    node >= InnerNodes(power)
  }

  /** The leaf a leaf node stands for. */
  function LeafIndex(power: nat, node: nat): (l: nat)
    requires 1 <= power <= 4 && IsLeafNode(power, node) && node < NodesCalcCount(power)
    ensures l < Tiles(power) * Tiles(power)
  {
    InnerNodesCount(power);
    Pow2Square(power);
    node - InnerNodes(power)
  }

  /** Leaf numbering covers the leaves one to one: leaf l is node InnerNodes + l. */
  lemma LeafNodes(power: nat, l: nat)
    requires 1 <= power <= 4 && l < Tiles(power) * Tiles(power)
    ensures InnerNodes(power) + l < NodesCalcCount(power)
    ensures IsLeafNode(power, InnerNodes(power) + l)
    ensures LeafIndex(power, InnerNodes(power) + l) == l
    ensures InnerNodes(power) + l > 0 && Parent(InnerNodes(power) + l).0 < InnerNodes(power)
  {
    InnerNodesCount(power);
    Pow2Square(power);
  }

  // ---------------------------------------------------------------------------------------
  // Triangles (AABBTree_CopyDispData)
  // ---------------------------------------------------------------------------------------

  /** A triangle as three vertex numbers of the grid. */
  datatype Tri = Tri(v0: nat, v1: nat, v2: nat)

  /** The vertex field of the triangle record is 9 bits wide (SetVert's bound). */
  predicate FitsTriData(t: Tri)
  {
    t.v0 < 512 && t.v1 < 512 && t.v2 < 512
  }

  /**
   * The two triangles of the tile at column x, row y; the diagonal alternates with the parity
   * of x + y.
   */
  function TileTris(w: nat, x: nat, y: nat): seq<Tri>
  {
    var v := y * w + x;
    if (x + y) % 2 == 0 then [Tri(v, v + w, v + w + 1), Tri(v, v + w + 1, v + 1)]
    else [Tri(v, v + w, v + 1), Tri(v + 1, v + w, v + w + 1)]
  }

  /** A vertex is one of the four corners of tile (x, y). */
  predicate IsCorner(w: nat, x: nat, y: nat, v: nat)
  {
    var c := y * w + x;
    v == c || v == c + 1 || v == c + w || v == c + w + 1
  }

  /** Some triangle of ts has vertex v. */
  predicate Uses(ts: seq<Tri>, v: nat)
  {
    exists t :: t in ts && (v == t.v0 || v == t.v1 || v == t.v2)
  }

  /**
   * Both triangles of a tile use only its corners, and between them they use all four.
   */
  lemma TileTrisCorners(w: nat, x: nat, y: nat)
    ensures |TileTris(w, x, y)| == 2
    ensures forall t :: t in TileTris(w, x, y) ==>
      IsCorner(w, x, y, t.v0) && IsCorner(w, x, y, t.v1) && IsCorner(w, x, y, t.v2)
    ensures var c := y * w + x; var ts := TileTris(w, x, y);
      Uses(ts, c) && Uses(ts, c + 1) && Uses(ts, c + w) && Uses(ts, c + w + 1)
  {
    var ts := TileTris(w, x, y);
    assert ts[0] in ts && ts[1] in ts;
  }

  /** Every corner of an inner tile lies in the grid. */
  lemma CornerInGrid(n: nat, x: nat, y: nat, v: nat)
    requires x < n && y < n && IsCorner(n + 1, x, y, v)
    ensures v < (n + 1) * (n + 1)
  {
    var w := n + 1;
    var c := y * w;
    assert v <= c + x + w + 1;
    MulLeq(y, n - 1, w);
    assert (n - 1) * w + w == n * w;
    assert w * w == n * w + w;
  }

  lemma MulLeq(a: nat, b: nat, c: nat)
    requires a <= b
    ensures a * c <= b * c
  {
    assert b * c == a * c + (b - a) * c;
  }

  /** A triangle whose vertices lie in a grid of `size` vertices and fit the 9-bit field. */
  predicate InGrid(t: Tri, size: nat)
  {
    t.v0 < size && t.v1 < size && t.v2 < size && FitsTriData(t)
  }

  /** Both triangles of an inner tile lie in the grid, for any power the tree supports. */
  lemma TileInGrid(power: nat, x: nat, y: nat)
    requires power <= 4 && x < Tiles(power) && y < Tiles(power)
    ensures forall t :: t in TileTris(Width(power), x, y) ==> InGrid(t, Size(power))
  {
    var n := Tiles(power);
    var w := Width(power);
    var size := Size(power);
    SizeBound(power);
    TileTrisCorners(w, x, y);
    forall t | t in TileTris(w, x, y) ensures InGrid(t, size) {
      CornerTriInGrid(n, w, x, y, t, size);
    }
  }

  /** A triangle on the corners of an inner tile lies in the grid and fits the vertex field. */
  lemma CornerTriInGrid(n: nat, w: nat, x: nat, y: nat, t: Tri, size: nat)
    requires x < n && y < n && w == n + 1 && size == w * w && size <= 289
    requires IsCorner(w, x, y, t.v0) && IsCorner(w, x, y, t.v1) && IsCorner(w, x, y, t.v2)
    ensures InGrid(t, size)
  {
    CornerInGrid(n, x, y, t.v0);
    CornerInGrid(n, x, y, t.v1);
    CornerInGrid(n, x, y, t.v2);
  }

  /** The largest displacement (power 4) has 17 x 17 vertices, within the 9-bit vertex field. */
  lemma SizeBound(power: nat)
    requires power <= 4
    ensures Size(power) <= 289
  {
    if power == 0 {
      assert Size(0) == 4;
    } else if power == 1 {
      assert Size(1) == 9;
    } else if power == 2 {
      assert Size(2) == 25;
    } else if power == 3 {
      assert Size(3) == 81;
    } else {
      assert Size(4) == 289;
    }
  }

  /** The tile number in the row-major walk of CopyDispData. */
  function TileIndex(n: nat, x: nat, y: nat): (i: nat)
    requires x < n && y < n
    ensures i < n * n
  {
    assert y * n + x < (y + 1) * n;
    assert (y + 1) * n <= n * n by {
      assert n * n == (y + 1) * n + (n - y - 1) * n;
    }
    y * n + x
  }

  /** Tiles earlier in the walk have smaller numbers. */
  lemma TileIndexOrder(n: nat, x1: nat, y1: nat, x2: nat, y2: nat)
    requires x1 < n && y1 < n && x2 < n && y2 < n
    requires y1 < y2 || (y1 == y2 && x1 < x2)
    ensures TileIndex(n, x1, y1) < TileIndex(n, x2, y2)
  {
    if y1 < y2 {
      assert y2 * n == (y1 + 1) * n + (y2 - y1 - 1) * n;
    }
  }

  /** Tile (x, y)'s two triangles sit at positions 2i and 2i+1 for its walk number i. */
  predicate TileAt(tris: seq<Tri>, w: nat, n: nat, x: nat, y: nat)
    requires x < n && y < n
  {
    var i := TileIndex(n, x, y);
    2 * i + 1 < |tris| && tris[2 * i] == TileTris(w, x, y)[0] && tris[2 * i + 1] == TileTris(w, x, y)[1]
  }

  /** Triangles appear in walk order, two per tile, up to (but excluding) tile (x, y). */
  ghost predicate TrisOfTiles(tris: seq<Tri>, w: nat, n: nat, y: nat, x: nat)
  {
    forall yy: nat, xx: nat :: yy < n && xx < n && (yy < y || (yy == y && xx < x)) ==>
      TileAt(tris, w, n, xx, yy)
  }

  /** Finishing a row is starting the next one. */
  lemma TrisOfTilesNextRow(tris: seq<Tri>, w: nat, n: nat, y: nat)
    requires TrisOfTiles(tris, w, n, y, n)
    ensures TrisOfTiles(tris, w, n, y + 1, 0)
  {
    forall yy: nat, xx: nat | yy < n && xx < n && yy < y + 1
      ensures TileAt(tris, w, n, xx, yy)
    {
      assert yy < y || (yy == y && xx < n);
    }
  }

  /** Appending the next tile's two triangles extends the walk by one tile. */
  lemma AppendTile(tris: seq<Tri>, w: nat, n: nat, y: nat, x: nat)
    requires x < n && y < n && |tris| == 2 * TileIndex(n, x, y)
    requires TrisOfTiles(tris, w, n, y, x)
    ensures TrisOfTiles(tris + TileTris(w, x, y), w, n, y, x + 1)
  {
    var tris' := tris + TileTris(w, x, y);
    forall yy: nat, xx: nat | yy < n && xx < n && (yy < y || (yy == y && xx < x + 1))
      ensures TileAt(tris', w, n, xx, yy)
    {
      if yy < y || xx < x {
        TileIndexOrder(n, xx, yy, x, y);
        assert TileAt(tris, w, n, xx, yy);
        var i := TileIndex(n, xx, yy);
        assert tris'[2 * i] == tris[2 * i] && tris'[2 * i + 1] == tris[2 * i + 1];
      } else {
        assert xx == x && yy == y;
      }
    }
  }

  /**
   * AABBTree_CopyDispData's triangle setup: walking the tiles row by row, two triangles per
   * tile. The result has GetTriSize triangles, tile (x, y) owns triangles 2i and 2i+1 for its
   * walk number i, and every vertex number lies in the grid and fits the 9-bit field.
   */
  method CopyDispData(power: nat) returns (tris: seq<Tri>)
    requires power <= 4
    ensures |tris| == TriSize(power)
    ensures forall y: nat, x: nat :: y < Tiles(power) && x < Tiles(power) ==>
      TileAt(tris, Width(power), Tiles(power), x, y)
    ensures forall k :: 0 <= k < |tris| ==> InGrid(tris[k], Size(power))
  {
    var n := Tiles(power);
    var w := Width(power);
    tris := [];
    var y := 0;
    while y < n
      invariant 0 <= y <= n
      invariant |tris| == 2 * (y * n)
      invariant TrisOfTiles(tris, w, n, y, 0)
      invariant forall k :: 0 <= k < |tris| ==> InGrid(tris[k], Size(power))
    {
      var x := 0;
      while x < n
        invariant 0 <= x <= n
        invariant |tris| == 2 * (y * n + x)
        invariant TrisOfTiles(tris, w, n, y, x)
        invariant forall k :: 0 <= k < |tris| ==> InGrid(tris[k], Size(power))
      {
        var tile := TileTris(w, x, y);
        TileInGrid(power, x, y);
        assert tile[0] in tile && tile[1] in tile;
        AppendTile(tris, w, n, y, x);
        tris := tris + tile;
        x := x + 1;
      }
      TrisOfTilesNextRow(tris, w, n, y);
      assert y * n + n == (y + 1) * n;
      y := y + 1;
    }
    Pow2Square(power);
  }

  lemma {:induction false} Pow2Monotone(a: nat, b: nat)
    requires a <= b
    ensures Pow2(a) <= Pow2(b)
  {
    if a < b {
      Pow2Monotone(a, b - 1);
    }
  }

  // ---------------------------------------------------------------------------------------
  // Leaves (AABBTree_CreateLeafs)
  // ---------------------------------------------------------------------------------------

  /** A leaf holds the two triangles of one tile. */
  datatype Leaf = Leaf(tri0: nat, tri1: nat)

  function TileLeaf(n: nat, x: nat, y: nat): Leaf
    requires x < n && y < n
  {
    Leaf(2 * TileIndex(n, x, y), 2 * TileIndex(n, x, y) + 1)
  }

  ghost predicate LeavesOfTiles(leaves: seq<Leaf>, n: nat, y: nat, x: nat)
  {
    forall yy: nat, xx: nat :: yy < n && xx < n && (yy < y || (yy == y && xx < x)) ==>
      Morton(xx, yy) < |leaves| && leaves[Morton(xx, yy)] == TileLeaf(n, xx, yy)
  }

  /**
   * AABBTree_CreateLeafs: (w-1)^2 leaves and the remaining Nodes_CalcCount nodes as inner
   * nodes; the leaf in the slot interleaving column x and row y holds the two triangles of
   * tile (x, y), and every slot is filled this way.
   */
  method CreateLeafs(power: nat) returns (leaves: seq<Leaf>, innerCount: nat)
    requires 1 <= power <= 4
    ensures |leaves| == (Width(power) - 1) * (Width(power) - 1)
    ensures innerCount == QuadTreeSize(power - 1)
    ensures innerCount + |leaves| == NodesCalcCount(power)
    ensures forall y: nat, x: nat :: y < Tiles(power) && x < Tiles(power) ==>
      Morton(x, y) < |leaves| && leaves[Morton(x, y)] == TileLeaf(Tiles(power), x, y)
    ensures forall m :: 0 <= m < |leaves| ==>
      SlotColumn(m) < Tiles(power) && SlotRow(m) < Tiles(power) &&
      leaves[m] == TileLeaf(Tiles(power), SlotColumn(m), SlotRow(m))
  {
    var n := Tiles(power);
    var numLeaves := n * n;
    InnerNodesCount(power);
    Pow2Square(power);
    innerCount := NodesCalcCount(power) - numLeaves;
    leaves := seq(numLeaves, _ => Leaf(0, 0));
    var y := 0;
    while y < n
      invariant 0 <= y <= n && |leaves| == numLeaves
      invariant LeavesOfTiles(leaves, n, y, 0)
    {
      var x := 0;
      while x < n
        invariant 0 <= x <= n && |leaves| == numLeaves
        invariant LeavesOfTiles(leaves, n, y, x)
      {
        MortonBound(x, y, power);
        var slot := Morton(x, y);
        LeafPlaced(leaves, n, x, y);
        leaves := leaves[slot := TileLeaf(n, x, y)];
        x := x + 1;
      }
      y := y + 1;
    }
    SlotsFilled(leaves, power);
  }

  /** Placing tile (x, y)'s leaf in its slot keeps the leaves of the tiles placed before it. */
  lemma LeafPlaced(leaves: seq<Leaf>, n: nat, x: nat, y: nat)
    requires x < n && y < n && Morton(x, y) < |leaves| && LeavesOfTiles(leaves, n, y, x)
    ensures LeavesOfTiles(leaves[Morton(x, y) := TileLeaf(n, x, y)], n, y, x + 1)
  {
    var slot := Morton(x, y);
    var next := leaves[slot := TileLeaf(n, x, y)];
    forall yy: nat, xx: nat | yy < n && xx < n && (yy < y || (yy == y && xx < x + 1))
      ensures Morton(xx, yy) < |next| && next[Morton(xx, yy)] == TileLeaf(n, xx, yy)
    {
      if Morton(xx, yy) == slot {
        MortonInjective(xx, yy, x, y);
      }
    }
  }

  /** Once every tile is placed, every slot holds the leaf of the tile it encodes. */
  lemma SlotsFilled(leaves: seq<Leaf>, power: nat)
    requires power <= 4 && |leaves| == Tiles(power) * Tiles(power)
    requires LeavesOfTiles(leaves, Tiles(power), Tiles(power), 0)
    ensures forall m :: 0 <= m < |leaves| ==>
      SlotColumn(m) < Tiles(power) && SlotRow(m) < Tiles(power) &&
      leaves[m] == TileLeaf(Tiles(power), SlotColumn(m), SlotRow(m))
  {
    var n := Tiles(power);
    Pow2Square(power);
    forall m | 0 <= m < |leaves|
      ensures SlotColumn(m) < n && SlotRow(m) < n
      ensures leaves[m] == TileLeaf(n, SlotColumn(m), SlotRow(m))
    {
      SlotBound(m, power);
      MortonOfSlot(m);
    }
  }

  // ---------------------------------------------------------------------------------------
  // Edge planes (AddPlane and the plane index stored in the cache)
  // ---------------------------------------------------------------------------------------

  datatype Vec3 = Vec3(x: int, y: int, z: int)

  function Neg(v: Vec3): Vec3
  {
    Vec3(-v.x, -v.y, -v.z)
  }

  /** The look-up table's equality: a plane and its negation are the same entry. */
  predicate SamePlane(a: Vec3, b: Vec3)
  {
    a == b || a == Neg(b)
  }

  /** A plane index without the negation bit, as the table hands them out. */
  const NEGATED: nat := 0x8000
  const INDEX_MASK: nat := 0x7fff
  /** DISPCOLL_NORMAL_UNDEF: the edge has no usable plane. */
  const UNDEF: nat := 0xffff

  datatype PlaneEntry = PlaneEntry(plane: Vec3, index: nat)

  /** The temporary look-up set used while a cache is built, and the tree's plane list. */
  datatype PlaneTable = PlaneTable(lookup: seq<PlaneEntry>, planes: seq<Vec3>)

  /** Every entry names its own plane in the list, and no two entries are the same plane. */
  ghost predicate PlaneTableValid(t: PlaneTable)
  {
    && (forall i :: 0 <= i < |t.lookup| ==>
         t.lookup[i].index < |t.planes| && t.planes[t.lookup[i].index] == t.lookup[i].plane)
    && (forall i, j :: 0 <= i < j < |t.lookup| ==> !SamePlane(t.lookup[i].plane, t.lookup[j].plane))
  }

  /** The look-up set's search for an entry equal (up to sign) to v. */
  function FindSame(lookup: seq<PlaneEntry>, v: Vec3): (r: Option<nat>)
    ensures r.Some? ==> r.value < |lookup| && SamePlane(lookup[r.value].plane, v)
    ensures r.None? ==> forall i :: 0 <= i < |lookup| ==> !SamePlane(lookup[i].plane, v)
  {
    if lookup == [] then None
    else if SamePlane(lookup[|lookup| - 1].plane, v) then Some(|lookup| - 1)
    else FindSame(lookup[..|lookup| - 1], v)
  }

  /**
   * AddPlane: a plane already in the set (up to sign) gives its index, with bit 0x8000 set when
   * the stored plane is the negation; a new plane is appended and gives its position.
   */
  function AddPlane(t: PlaneTable, v: Vec3): (r: (PlaneTable, nat))
    ensures |t.planes| <= |r.0.planes| <= |t.planes| + 1 && r.0.planes[..|t.planes|] == t.planes
  {
    match FindSame(t.lookup, v)
    case Some(i) =>
      var e := t.lookup[i];
      if e.plane == v then (t, e.index) else (t, Or(e.index, NEGATED))
    case None =>
      var index := |t.planes|;
      (PlaneTable(t.lookup + [PlaneEntry(v, index)], t.planes + [v]), index)
  }

  /**
   * EdgeCrossAxis's reading of a cached plane index: UNDEF has no plane, bit 0x8000 selects
   * the negation of the plane at the low 15 bits, any other value the plane it names.
   */
  function DecodePlane(planes: seq<Vec3>, iPlane: nat): Option<Vec3>
    requires iPlane == UNDEF || (HasAny(iPlane, NEGATED) ==> And(iPlane, INDEX_MASK) < |planes|)
    requires iPlane == UNDEF || (!HasAny(iPlane, NEGATED) ==> iPlane < |planes|)
  {
    if iPlane == UNDEF then None
    else if HasAny(iPlane, NEGATED) then Some(Neg(planes[And(iPlane, INDEX_MASK)]))
    else Some(planes[iPlane])
  }

  /** The index a plane index can be read back from. */
  predicate Decodable(planes: seq<Vec3>, iPlane: nat)
  {
    iPlane == UNDEF ||
    ((HasAny(iPlane, NEGATED) ==> And(iPlane, INDEX_MASK) < |planes|) &&
     (!HasAny(iPlane, NEGATED) ==> iPlane < |planes|))
  }

  /** An index below 0x7fff, possibly with the negation bit, decodes to the plane or its negation. */
  lemma PlaneIndexBits(i: nat)
    requires i < INDEX_MASK
    ensures !HasAny(i, NEGATED) && i != UNDEF
    ensures Or(i, NEGATED) == i + NEGATED && Or(i, NEGATED) != UNDEF
    ensures HasAny(Or(i, NEGATED), NEGATED) && And(Or(i, NEGATED), INDEX_MASK) == i
  {
    Pow2Values();
    assert LowMask(15) == INDEX_MASK;
    OrHighBit(i, 15);
    AndHighBit(i, 15);
  }

  /**
   * AddPlane keeps the table consistent, and the index it returns reads back as the plane
   * that was added, whether it was new, already present, or present as its negation.
   */
  lemma AddPlaneDecodes(t: PlaneTable, v: Vec3)
    requires PlaneTableValid(t) && |t.planes| < INDEX_MASK
    ensures PlaneTableValid(AddPlane(t, v).0)
    ensures Decodable(AddPlane(t, v).0.planes, AddPlane(t, v).1)
    ensures DecodePlane(AddPlane(t, v).0.planes, AddPlane(t, v).1) == Some(v)
  {
    var (t', r) := AddPlane(t, v);
    match FindSame(t.lookup, v)
    case Some(i) =>
      var e := t.lookup[i];
      PlaneIndexBits(e.index);
      if e.plane != v {
        assert Neg(e.plane) == v;
      }
    case None =>
      PlaneIndexBits(|t.planes|);
      forall i, j | 0 <= i < j < |t'.lookup|
        ensures !SamePlane(t'.lookup[i].plane, t'.lookup[j].plane)
      {
        if j == |t.lookup| {
          assert t'.lookup[i] == t.lookup[i];
        } else {
          assert t'.lookup[i] == t.lookup[i] && t'.lookup[j] == t.lookup[j];
        }
      }
  }

  // ---------------------------------------------------------------------------------------
  // The cache (EnsureCacheIsCreated, Uncache)
  // ---------------------------------------------------------------------------------------

  /** The plane indices idxs read back, one by one, as the normals (UNDEF for none). */
  ghost predicate SlotsDecode(planes: seq<Vec3>, idxs: seq<nat>, normals: seq<Option<Vec3>>)
  {
    |idxs| == |normals| &&
    forall j :: 0 <= j < |normals| ==> Decodable(planes, idxs[j]) && DecodePlane(planes, idxs[j]) == normals[j]
  }

  /** Cache_Create for one triangle: each edge-cross normal, or none, becomes a plane index. */
  function CacheSlots(t: PlaneTable, normals: seq<Option<Vec3>>): (r: (PlaneTable, seq<nat>))
    requires PlaneTableValid(t) && |t.planes| + |normals| < INDEX_MASK
    ensures PlaneTableValid(r.0)
    ensures |t.planes| <= |r.0.planes| <= |t.planes| + |normals|
    ensures r.0.planes[..|t.planes|] == t.planes
    ensures SlotsDecode(r.0.planes, r.1, normals)
    decreases |normals|
  {
    if normals == [] then (t, [])
    else
      var (t1, i) := match normals[0]
        case None => (t, UNDEF)
        case Some(v) => AddPlane(t, v);
      assert PlaneTableValid(t1) && Decodable(t1.planes, i) && DecodePlane(t1.planes, i) == normals[0]
        && |t.planes| <= |t1.planes| <= |t.planes| + 1 && t1.planes[..|t.planes|] == t.planes by {
        if normals[0].Some? {
          AddPlaneDecodes(t, normals[0].value);
        }
      }
      var (t2, rest) := CacheSlots(t1, normals[1..]);
      ExtendedPlanesDecode(t1.planes, t2.planes, i);
      assert t2.planes[..|t.planes|] == t.planes by {
        assert t2.planes[..|t.planes|] == t2.planes[..|t1.planes|][..|t.planes|];
      }
      (t2, [i] + rest)
  }

  /** Appending planes keeps every readable index reading the same plane. */
  lemma ExtendedPlanesDecode(planes: seq<Vec3>, more: seq<Vec3>, i: nat)
    requires |planes| <= |more| && more[..|planes|] == planes && Decodable(planes, i)
    ensures Decodable(more, i) && DecodePlane(more, i) == DecodePlane(planes, i)
  {
    if i != UNDEF {
      if HasAny(i, NEGATED) {
        assert more[And(i, INDEX_MASK)] == planes[And(i, INDEX_MASK)];
      } else {
        assert more[i] == planes[i];
      }
    }
  }

  lemma ExtendedSlotsDecode(planes: seq<Vec3>, more: seq<Vec3>, idxs: seq<nat>, normals: seq<Option<Vec3>>)
    requires |planes| <= |more| && more[..|planes|] == planes && SlotsDecode(planes, idxs, normals)
    ensures SlotsDecode(more, idxs, normals)
  {
    forall j | 0 <= j < |normals|
      ensures Decodable(more, idxs[j]) && DecodePlane(more, idxs[j]) == normals[j]
    {
      ExtendedPlanesDecode(planes, more, idxs[j]);
    }
  }

  /** Edge-cross planes per triangle: three edges against three axes. */
  const SLOTS_PER_TRI: nat := 9

  /** The displacement collision tree's state as far as it is modelled. */
  datatype DispTree = DispTree(
    power: nat,
    flags: nat,
    tris: seq<Tri>,
    leaves: seq<Leaf>,
    innerCount: nat,
    trisCache: seq<seq<nat>>,
    edgePlanes: seq<Vec3>)

  /** IsCacheGenerated: one cache entry per triangle. */
  predicate IsCacheGenerated(d: DispTree)
  {
    |d.trisCache| == TriSize(d.power)
  }

  /** Cache_Create for all triangles in order, sharing one look-up set. */
  function CacheAll(t: PlaneTable, normals: seq<seq<Option<Vec3>>>): (r: (PlaneTable, seq<seq<nat>>))
    requires PlaneTableValid(t)
    requires forall i :: 0 <= i < |normals| ==> |normals[i]| == SLOTS_PER_TRI
    requires |t.planes| + SLOTS_PER_TRI * |normals| < INDEX_MASK
    ensures PlaneTableValid(r.0) && |r.1| == |normals|
    ensures |t.planes| <= |r.0.planes| <= |t.planes| + SLOTS_PER_TRI * |normals|
    ensures r.0.planes[..|t.planes|] == t.planes
    ensures forall i :: 0 <= i < |normals| ==> SlotsDecode(r.0.planes, r.1[i], normals[i])
    decreases |normals|
  {
    if normals == [] then (t, [])
    else
      var (t1, first) := CacheSlots(t, normals[0]);
      var (t2, rest) := CacheAll(t1, normals[1..]);
      ExtendedSlotsDecode(t1.planes, t2.planes, first, normals[0]);
      assert t2.planes[..|t.planes|] == t.planes by {
        assert t2.planes[..|t.planes|] == t2.planes[..|t1.planes|][..|t.planes|];
      }
      var r := [first] + rest;
      assert forall i :: 0 <= i < |normals| ==> SlotsDecode(t2.planes, r[i], normals[i]) by {
        forall i | 0 <= i < |normals| ensures SlotsDecode(t2.planes, r[i], normals[i]) {
          if i > 0 {
            assert r[i] == rest[i - 1] && normals[i] == normals[1..][i - 1];
          }
        }
      }
      (t2, r)
  }

  /**
   * EnsureCacheIsCreated: nothing happens once there is a cache entry per triangle; otherwise
   * every triangle's edge-cross normals are entered into a fresh look-up set and stored as
   * plane indices, which read back as the normals. The look-up set is discarded afterwards.
   */
  function EnsureCacheIsCreated(d: DispTree, normals: seq<seq<Option<Vec3>>>): (r: DispTree)
    requires |normals| == TriSize(d.power)
    requires forall i :: 0 <= i < |normals| ==> |normals[i]| == SLOTS_PER_TRI
    requires |d.edgePlanes| + SLOTS_PER_TRI * |normals| < INDEX_MASK
    ensures IsCacheGenerated(r)
    ensures IsCacheGenerated(d) ==> r == d
    ensures !IsCacheGenerated(d) ==>
      |d.edgePlanes| <= |r.edgePlanes| && r.edgePlanes[..|d.edgePlanes|] == d.edgePlanes &&
      |r.trisCache| == |normals| &&
      forall i :: 0 <= i < |normals| ==> SlotsDecode(r.edgePlanes, r.trisCache[i], normals[i])
    ensures r.power == d.power && r.flags == d.flags && r.tris == d.tris && r.leaves == d.leaves
  {
    if IsCacheGenerated(d) then d
    else
      var (t, cache) := CacheAll(PlaneTable([], d.edgePlanes), normals);
      d.(trisCache := cache, edgePlanes := t.planes)
  }

  /** Uncache: drops the triangle cache and the edge planes. */
  function Uncache(d: DispTree): (r: DispTree)
    ensures r.trisCache == [] && r.edgePlanes == []
    ensures r.power == d.power && r.flags == d.flags && r.tris == d.tris && r.leaves == d.leaves
  {
    d.(trisCache := [], edgePlanes := [])
  }

  /** Creating the cache twice is creating it once, whatever normals the second call sees. */
  lemma EnsureCacheIdempotent(d: DispTree, normals: seq<seq<Option<Vec3>>>, again: seq<seq<Option<Vec3>>>)
    requires |normals| == TriSize(d.power)
    requires forall i :: 0 <= i < |normals| ==> |normals[i]| == SLOTS_PER_TRI
    requires |d.edgePlanes| + SLOTS_PER_TRI * |normals| < INDEX_MASK
    requires |again| == TriSize(d.power)
    requires forall i :: 0 <= i < |again| ==> |again[i]| == SLOTS_PER_TRI
    requires |EnsureCacheIsCreated(d, normals).edgePlanes| + SLOTS_PER_TRI * |again| < INDEX_MASK
    ensures EnsureCacheIsCreated(EnsureCacheIsCreated(d, normals), again) == EnsureCacheIsCreated(d, normals)
  {
  }

  /** After Uncache the cache is gone (there is always at least one triangle) and the next use rebuilds it from scratch. */
  lemma UncacheDropsCache(d: DispTree)
    ensures !IsCacheGenerated(Uncache(d))
  {
  }

  // ---------------------------------------------------------------------------------------
  // Flags and construction
  // ---------------------------------------------------------------------------------------

  /** The constructor keeps the map's flags with the most significant of 32 bits cleared. */
  function StoredFlags(diskFlags: nat): (r: nat)
    requires diskFlags < 0x1_0000_0000
    ensures r < 0x8000_0000
  {
    Pow2Values();
    LowMaskBound(diskFlags);
    And(diskFlags, LowMask(31))
  }

  lemma LowMaskBound(x: nat)
    ensures And(x, LowMask(31)) < 0x8000_0000
  {
    Pow2Values();
    AndBelowMask(x, 31);
  }

  lemma {:induction false} AndBelowMask(x: nat, n: nat)
    ensures And(x, LowMask(n)) < Pow2(n)
  {
    if n > 0 && x != 0 {
      assert LowMask(n) / 2 == LowMask(n - 1);
      AndBelowMask(x / 2, n - 1);
    }
  }

  /** Bit k of the stored flags is bit k of the map's flags, except bit 31, which is clear. */
  lemma StoredFlagsBits(diskFlags: nat, k: nat)
    requires diskFlags < 0x1_0000_0000
    ensures Bit(StoredFlags(diskFlags), k) <==> k < 31 && Bit(diskFlags, k)
  {
    AndBits(diskFlags, LowMask(31), k);
    LowMaskBits(31, k);
  }

  /** CheckFlags: does the tree carry any of the given flags. */
  predicate CheckFlags(d: DispTree, mask: nat)
  {
    HasAny(mask, d.flags)
  }

  /** Checking a single flag bit 1 << k reads bit k of the map's flags, and bit 31 never. */
  lemma CheckSingleFlag(diskFlags: nat, d: DispTree, k: nat)
    requires diskFlags < 0x1_0000_0000 && d.flags == StoredFlags(diskFlags)
    ensures CheckFlags(d, Pow2(k)) <==> k < 31 && Bit(diskFlags, k)
  {
    AndCommutes(Pow2(k), d.flags);
    HasAnyPow2(d.flags, k);
    StoredFlagsBits(diskFlags, k);
  }

  lemma {:induction false} AndCommutes(a: nat, b: nat)
    ensures And(a, b) == And(b, a)
  {
    if a != 0 && b != 0 {
      AndCommutes(a / 2, b / 2);
    }
  }

  /** The leaf in slot m holds, in order, the two triangles of the tile the slot encodes. */
  predicate LeafHoldsTile(tris: seq<Tri>, leaves: seq<Leaf>, w: nat, m: nat)
    requires m < |leaves|
  {
    var l := leaves[m];
    l.tri0 < |tris| && l.tri1 < |tris| &&
    [tris[l.tri0], tris[l.tri1]] == TileTris(w, SlotColumn(m), SlotRow(m))
  }

  lemma LeavesHoldTiles(power: nat, tris: seq<Tri>, leaves: seq<Leaf>)
    requires power <= 4
    requires forall y: nat, x: nat :: y < Tiles(power) && x < Tiles(power) ==>
      TileAt(tris, Width(power), Tiles(power), x, y)
    requires forall m :: 0 <= m < |leaves| ==>
      SlotColumn(m) < Tiles(power) && SlotRow(m) < Tiles(power) &&
      leaves[m] == TileLeaf(Tiles(power), SlotColumn(m), SlotRow(m))
    ensures forall m :: 0 <= m < |leaves| ==> LeafHoldsTile(tris, leaves, Width(power), m)
  {
    var n := Tiles(power);
    var w := Width(power);
    forall m | 0 <= m < |leaves| ensures LeafHoldsTile(tris, leaves, w, m) {
      var x, y := SlotColumn(m), SlotRow(m);
      assert TileAt(tris, w, n, x, y);
      var ts := TileTris(w, x, y);
      assert [ts[0], ts[1]] == ts;
    }
  }

  /**
   * The constructor's integer part: flags with bit 31 cleared, the triangle grid of
   * AABBTree_CopyDispData and the leaves of AABBTree_CreateLeafs, and no cache yet. Every leaf
   * slot's two triangles are the two triangles of the tile the slot encodes.
   */
  method NewDispTree(power: nat, diskFlags: nat) returns (d: DispTree)
    requires 1 <= power <= 4 && diskFlags < 0x1_0000_0000
    ensures d.power == power && d.flags == StoredFlags(diskFlags)
    ensures |d.tris| == TriSize(power) && |d.leaves| == Tiles(power) * Tiles(power)
    ensures d.innerCount + |d.leaves| == NodesCalcCount(power)
    ensures forall m :: 0 <= m < |d.leaves| ==> LeafHoldsTile(d.tris, d.leaves, Width(power), m)
    ensures !IsCacheGenerated(d)
  {
    var tris := CopyDispData(power);
    var leaves, innerCount := CreateLeafs(power);
    assert Width(power) - 1 == Tiles(power);
    LeavesHoldTiles(power, tris, leaves);
    TriSizePositive(power);
    d := DispTree(power, StoredFlags(diskFlags), tris, leaves, innerCount, [], []);
  }
}
