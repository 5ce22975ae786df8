/**
 * The bounding-volume hierarchy over the collidable objects of a map. Leaves are the
 * objects (with a dummy leaf at index 0, so that a leaf can be referenced by a negative
 * child index); nodes are built top-down from a stack of unsplit nodes, each holding its
 * leaves sorted along the three axes. Splitting a node cuts the list of the chosen axis at
 * the chosen position and stably partitions the other two lists to match. A child with a
 * single leaf is stored as minus the leaf index; a child with more leaves becomes a new
 * node at the end of the node list.
 *
 * Bounding boxes, the surface-area heuristic and the float centroid order are not modelled:
 * a leaf's centroid along an axis is an integer key, and the split choice is a parameter
 * constrained only by what the program asserts of it.
 */
module Bvh {

  // ---------------------------------------------------------------------------------------
  // Leaves
  // ---------------------------------------------------------------------------------------

  /** Leaf::Type: the kind of map object a leaf stands for. */
  datatype LeafType = Brush | Displacement | StaticProp | DynamicProp | FuncBrush

  /** A leaf: its object kind and its centroid key along each of the three axes. */
  datatype Leaf = Leaf(kind: LeafType, cx: int, cy: int, cz: int)

  function Centroid(l: Leaf, axis: nat): int
  {
    if axis == 0 then l.cx else if axis == 1 then l.cy else l.cz
  }

  /** The value-initialised leaf the constructor puts at index 0. */
  const DUMMY_LEAF := Leaf(Brush, 0, 0, 0)

  /** CreateLeaves: a dummy entry, then one leaf per collected object, in collection order. */
  function CreateLeaves(objects: seq<Leaf>): (leaves: seq<Leaf>)
    ensures |leaves| == |objects| + 1 && leaves[0] == DUMMY_LEAF
    ensures forall i :: 0 <= i < |objects| ==> leaves[i + 1] == objects[i]
  {
    [DUMMY_LEAF] + objects
  }

  // ---------------------------------------------------------------------------------------
  // Leaf reference lists
  // ---------------------------------------------------------------------------------------

  /** The indices lo, lo+1, ..., hi-1. */
  function Range(lo: nat, hi: nat): (r: seq<nat>)
    ensures |r| == if hi <= lo then 0 else hi - lo
    decreases hi
  {
    if hi <= lo then [] else Range(lo, hi - 1) + [hi - 1]
  }

  /** The range 1 .. size-1 lists real leaves only. */
  lemma {:induction false} RangeReal(hi: nat, size: nat)
    requires hi <= size
    ensures RealLeaves(Range(1, hi), size)
    decreases hi
  {
    if hi > 1 {
      RangeReal(hi - 1, size);
      assert Range(1, hi) == Range(1, hi - 1) + [hi - 1];
    }
  }

  /** Every index of the range occurs once, and nothing else occurs. */
  lemma {:induction false} RangeCounts(lo: nat, hi: nat, x: nat)
    ensures multiset(Range(lo, hi))[x] == if lo <= x < hi then 1 else 0
    decreases hi
  {
    if hi > lo {
      RangeCounts(lo, hi - 1, x);
      assert multiset(Range(lo, hi)) == multiset(Range(lo, hi - 1)) + multiset([hi - 1]);
    }
  }

  /** No index is listed twice. */
  ghost predicate NoDup(s: seq<nat>)
  {
    forall x :: multiset(s)[x] <= 1
  }

  /** All listed indices are real leaves (not the dummy) of a leaf list of the given size. */
  predicate RealLeaves(s: seq<nat>, size: nat)
  {
    forall k :: 0 <= k < |s| ==> 1 <= s[k] < size
  }

  /** Ascending centroid order along one axis. */
  predicate SortedAlong(s: seq<nat>, leaves: seq<Leaf>, axis: nat)
    requires RealLeaves(s, |leaves|)
  {
    forall i, j :: 0 <= i < j < |s| ==> Centroid(leaves[s[i]], axis) <= Centroid(leaves[s[j]], axis)
  }

  /** x inserted before the first leaf with a larger centroid. */
  function InsertAlong(x: nat, s: seq<nat>, leaves: seq<Leaf>, axis: nat): (r: seq<nat>)
    requires 1 <= x < |leaves| && RealLeaves(s, |leaves|) && SortedAlong(s, leaves, axis)
    ensures RealLeaves(r, |leaves|) && SortedAlong(r, leaves, axis)
    ensures multiset(r) == multiset(s) + multiset{x}
  {
    if s == [] then [x]
    else if Centroid(leaves[x], axis) <= Centroid(leaves[s[0]], axis) then
      SortedCons(x, s, leaves, axis);
      [x] + s
    else
      var t := InsertAlong(x, s[1..], leaves, axis);
      assert s == [s[0]] + s[1..];
      InsertedAbove(s[0], s[1..], x, t, leaves, axis);
      SortedCons(s[0], t, leaves, axis);
      [s[0]] + t
  }

  /** A leaf at or below every element of a sorted list keeps it sorted in front. */
  lemma SortedCons(h: nat, t: seq<nat>, leaves: seq<Leaf>, axis: nat)
    requires 1 <= h < |leaves| && RealLeaves(t, |leaves|) && SortedAlong(t, leaves, axis)
    requires t != [] ==> Centroid(leaves[h], axis) <= Centroid(leaves[t[0]], axis)
    ensures RealLeaves([h] + t, |leaves|) && SortedAlong([h] + t, leaves, axis)
  {
    var r := [h] + t;
    assert RealLeaves(r, |leaves|);
    forall i, j | 0 <= i < j < |r| ensures Centroid(leaves[r[i]], axis) <= Centroid(leaves[r[j]], axis) {
      if i == 0 && j > 1 {
        assert r[j] == t[j - 1];
      }
    }
  }

  /** Every element of a permutation of s plus x lies at or above a bound s and x respect. */
  lemma InsertedAbove(h: nat, s: seq<nat>, x: nat, t: seq<nat>, leaves: seq<Leaf>, axis: nat)
    requires h < |leaves| && x < |leaves| && RealLeaves(s, |leaves|) && RealLeaves(t, |leaves|)
    requires multiset(t) == multiset(s) + multiset{x}
    requires forall k :: 0 <= k < |s| ==> Centroid(leaves[h], axis) <= Centroid(leaves[s[k]], axis)
    requires Centroid(leaves[h], axis) <= Centroid(leaves[x], axis)
    ensures forall k :: 0 <= k < |t| ==> Centroid(leaves[h], axis) <= Centroid(leaves[t[k]], axis)
  {
    forall k | 0 <= k < |t| ensures Centroid(leaves[h], axis) <= Centroid(leaves[t[k]], axis) {
      assert t[k] in multiset(t);
      assert t[k] in multiset(s) || t[k] == x;
    }
  }

  /** The std::sort of a leaf reference list by centroid along one axis (any sorted permutation). */
  function SortAlong(s: seq<nat>, leaves: seq<Leaf>, axis: nat): (r: seq<nat>)
    requires RealLeaves(s, |leaves|)
    ensures RealLeaves(r, |leaves|) && SortedAlong(r, leaves, axis)
    ensures multiset(r) == multiset(s)
  {
    if s == [] then []
    else
      assert s == [s[0]] + s[1..];
      InsertAlong(s[0], SortAlong(s[1..], leaves, axis), leaves, axis)
  }

  /**
   * The three lists of an unsplit node: one per axis, all listing the same leaves, each
   * leaf once.
   */
  ghost predicate Coherent(refs: seq<seq<nat>>, size: nat)
  {
    && |refs| == 3
    && (forall a :: 0 <= a < 3 ==> multiset(refs[a]) == multiset(refs[0]))
    && NoDup(refs[0])
    && RealLeaves(refs[0], size)
  }

  // ---------------------------------------------------------------------------------------
  // Splitting a node
  // ---------------------------------------------------------------------------------------

  /** NodeSplitDetails: the axis to cut and the first position that goes to the right child. */
  datatype Split = Split(axis: int, pos: nat)

  /** What the program asserts of a chosen split: both children get at least one leaf. */
  predicate ValidSplit(sp: Split, count: nat)
  {
    0 <= sp.axis < 3 && 0 < sp.pos < count
  }

  /** The side look-up table: entry i is true when leaf i goes to the left child. */
  function SideLut(size: nat, left: seq<nat>): (lut: seq<bool>)
    ensures |lut| == size && forall i :: 0 <= i < size ==> (lut[i] <==> i in left)
  {
    seq(size, i => i in left)
  }

  /** Leaf x is on the given side of the table (leaves beyond the table are on the right). */
  predicate OnSide(lut: seq<bool>, x: nat, side: bool)
  {
    (x < |lut| && lut[x]) == side
  }

  /** The leaves of s whose table entry equals side, in their order in s. */
  function Filter(s: seq<nat>, lut: seq<bool>, side: bool): (r: seq<nat>)
    ensures |r| <= |s|
  {
    if s == [] then []
    else (if OnSide(lut, s[0], side) then [s[0]] else []) + Filter(s[1..], lut, side)
  }

  /**
   * The rewrite of a non-split axis list: the left child's leaves first, then the right
   * child's, each side in its prior order.
   */
  function StablePartition(s: seq<nat>, lut: seq<bool>): (r: seq<nat>)
  {
    Filter(s, lut, true) + Filter(s, lut, false)
  }

  /**
   * The children's lists: on the split axis the two sub-ranges of the sorted list, on the
   * other axes the two halves of the stable partition.
   */
  function SplitRefs(refs: seq<seq<nat>>, sp: Split, size: nat): (r: (seq<seq<nat>>, seq<seq<nat>>))
    requires |refs| == 3 && 0 <= sp.axis < 3 && sp.pos <= |refs[sp.axis]|
    ensures |r.0| == 3 && |r.1| == 3
  {
    var s := refs[sp.axis];
    var lut := SideLut(size, s[..sp.pos]);
    var l := seq(3, a requires 0 <= a < 3 => if a == sp.axis then s[..sp.pos] else Filter(refs[a], lut, true));
    var r := seq(3, a requires 0 <= a < 3 => if a == sp.axis then s[sp.pos..] else Filter(refs[a], lut, false));
    (l, r)
  }

  /** A leaf is kept by the filter exactly as often as it occurs, when it is on that side. */
  lemma {:induction false} FilterCount(s: seq<nat>, lut: seq<bool>, side: bool, x: nat)
    ensures multiset(Filter(s, lut, side))[x] == if OnSide(lut, x, side) then multiset(s)[x] else 0
  {
    if s != [] {
      var rest := Filter(s[1..], lut, side);
      FilterCount(s[1..], lut, side, x);
      assert s == [s[0]] + s[1..];
      assert multiset(s) == multiset([s[0]]) + multiset(s[1..]);
      if OnSide(lut, s[0], side) {
        assert Filter(s, lut, side) == [s[0]] + rest;
        assert multiset(Filter(s, lut, side)) == multiset([s[0]]) + multiset(rest);
      } else {
        assert Filter(s, lut, side) == rest;
      }
    }
  }

  /** Both halves of the stable partition together are a permutation of the list. */
  lemma StablePartitionPermutes(s: seq<nat>, lut: seq<bool>)
    ensures multiset(StablePartition(s, lut)) == multiset(s)
  {
    forall x ensures multiset(StablePartition(s, lut))[x] == multiset(s)[x] {
      FilterCount(s, lut, true, x);
      FilterCount(s, lut, false, x);
    }
  }

  /**
   * Partitioning another list of the same leaves by the left part of the split list gives
   * exactly that left part, and the rest gives the right part.
   */
  lemma FilterMatchesCut(s: seq<nat>, t: seq<nat>, pos: nat, size: nat)
    requires pos <= |s| && NoDup(s) && RealLeaves(s, size) && multiset(t) == multiset(s)
    ensures multiset(Filter(t, SideLut(size, s[..pos]), true)) == multiset(s[..pos])
    ensures multiset(Filter(t, SideLut(size, s[..pos]), false)) == multiset(s[pos..])
  {
    var lut := SideLut(size, s[..pos]);
    var a, b := multiset(Filter(t, lut, true)), multiset(s[..pos]);
    var c, d := multiset(Filter(t, lut, false)), multiset(s[pos..]);
    forall x: nat ensures a[x] == b[x] && c[x] == d[x] {
      FilterMatchesCutAt(s, t, pos, size, x);
    }
    assert a == b;
    assert c == d;
  }

  lemma FilterMatchesCutAt(s: seq<nat>, t: seq<nat>, pos: nat, size: nat, x: nat)
    requires pos <= |s| && NoDup(s) && RealLeaves(s, size) && multiset(t) == multiset(s)
    ensures multiset(Filter(t, SideLut(size, s[..pos]), true))[x] == multiset(s[..pos])[x]
    ensures multiset(Filter(t, SideLut(size, s[..pos]), false))[x] == multiset(s[pos..])[x]
  {
    var lut := SideLut(size, s[..pos]);
    FilterCount(t, lut, true, x);
    FilterCount(t, lut, false, x);
    CutCounts(s, pos);
    CutSide(s, pos, size, x);
    assert multiset(s)[x] <= 1;
  }

  lemma CutCounts(s: seq<nat>, pos: nat)
    requires pos <= |s|
    ensures multiset(s) == multiset(s[..pos]) + multiset(s[pos..])
  {
    assert s == s[..pos] + s[pos..];
  }

  /** The side table of a cut puts exactly the leaves before the cut on the left. */
  lemma CutSide(s: seq<nat>, pos: nat, size: nat, x: nat)
    requires pos <= |s| && RealLeaves(s, size)
    ensures OnSide(SideLut(size, s[..pos]), x, true) <==> x in multiset(s[..pos])
    ensures OnSide(SideLut(size, s[..pos]), x, false) <==> x !in multiset(s[..pos])
  {
    if x in s[..pos] {
      var k :| 0 <= k < pos && s[..pos][k] == x;
      assert s[k] == x;
    }
  }

  /** Every sub-list of a list without duplicates has none. */
  lemma NoDupSub(s: seq<nat>, t: seq<nat>)
    requires NoDup(s) && multiset(t) <= multiset(s)
    ensures NoDup(t)
  {
    forall x ensures multiset(t)[x] <= 1 {
      assert multiset(t)[x] <= multiset(s)[x];
    }
  }

  /** Leaves of a sub-list are leaves of the list. */
  lemma RealLeavesSub(s: seq<nat>, t: seq<nat>, size: nat)
    requires RealLeaves(s, size) && multiset(t) <= multiset(s)
    ensures RealLeaves(t, size)
  {
    forall k | 0 <= k < |t| ensures 1 <= t[k] < size {
      assert t[k] in multiset(t);
      assert t[k] in multiset(s);
      var j :| 0 <= j < |s| && s[j] == t[k];
    }
  }

  /**
   * A split of a coherent node gives two coherent children whose leaves divide the node's
   * leaves: pos of them go left and the rest go right.
   */
  lemma SplitKeepsLeaves(refs: seq<seq<nat>>, sp: Split, size: nat)
    requires Coherent(refs, size) && ValidSplit(sp, |refs[0]|)
    ensures sp.pos <= |refs[sp.axis]|
    ensures Coherent(SplitRefs(refs, sp, size).0, size) && Coherent(SplitRefs(refs, sp, size).1, size)
    ensures |SplitRefs(refs, sp, size).0[0]| == sp.pos
    ensures |SplitRefs(refs, sp, size).1[0]| == |refs[0]| - sp.pos
    ensures multiset(SplitRefs(refs, sp, size).0[0]) + multiset(SplitRefs(refs, sp, size).1[0]) == multiset(refs[0])
  {
    var s := refs[sp.axis];
    assert multiset(s) == multiset(refs[0]);
    assert |s| == |multiset(s)| == |refs[0]|;
    var (l, r) := SplitRefs(refs, sp, size);
    var left, right := s[..sp.pos], s[sp.pos..];
    assert s == left + right;
    NoDupSub(refs[0], s);
    RealLeavesSub(refs[0], s, size);
    forall a | 0 <= a < 3
      ensures multiset(l[a]) == multiset(left) && multiset(r[a]) == multiset(right)
    {
      if a != sp.axis {
        FilterMatchesCut(s, refs[a], sp.pos, size);
      }
    }
    NoDupSub(s, l[0]);
    NoDupSub(s, r[0]);
    RealLeavesSub(s, l[0], size);
    RealLeavesSub(s, r[0], size);
    assert |l[0]| == |multiset(l[0])| == |left|;
    assert |r[0]| == |multiset(r[0])| == |right|;
  }

  // ---------------------------------------------------------------------------------------
  // Nodes
  // ---------------------------------------------------------------------------------------

  /**
   * Node: a child index >= 0 is a node index, a child index < 0 is minus a leaf index. A
   * freshly pushed node is value-initialised, with both children 0.
   */
  datatype Node = Node(childL: int, childR: int)

  const BLANK_NODE := Node(0, 0)

  /** The leaves a child index references: one leaf for a negative index, none otherwise. */
  function LeafOf(c: int): multiset<nat>
  {
    if c < 0 then multiset{(-c) as nat} else multiset{}
  }

  /** The nodes a child index references. Index 0 is the root and never a child. */
  function NodeOf(c: int): multiset<nat>
  {
    if c > 0 then multiset{c as nat} else multiset{}
  }

  /** Every leaf referenced as a child, counted with multiplicity. */
  function LeafRefs(nodes: seq<Node>): multiset<nat>
  {
    if nodes == [] then multiset{}
    else
      var n := nodes[|nodes| - 1];
      LeafRefs(nodes[..|nodes| - 1]) + LeafContrib(n)
  }

  /** Every node referenced as a child, counted with multiplicity. */
  function NodeRefs(nodes: seq<Node>): multiset<nat>
  {
    if nodes == [] then multiset{}
    else
      var n := nodes[|nodes| - 1];
      NodeRefs(nodes[..|nodes| - 1]) + NodeContrib(n)
  }

  /** The leaves one node references. */
  function LeafContrib(n: Node): multiset<nat>
  {
    LeafOf(n.childL) + LeafOf(n.childR)
  }

  /** The nodes one node references. */
  function NodeContrib(n: Node): multiset<nat>
  {
    NodeOf(n.childL) + NodeOf(n.childR)
  }

  /** Overwriting one node swaps its leaf references for the new node's. */
  lemma {:induction false} LeafRefsUpdate(nodes: seq<Node>, k: nat, v: Node)
    requires k < |nodes|
    ensures LeafRefs(nodes[k := v]) + LeafContrib(nodes[k]) == LeafRefs(nodes) + LeafContrib(v)
  {
    var m := |nodes| - 1;
    var u := nodes[k := v];
    if k < m {
      assert u[..m] == nodes[..m][k := v];
      LeafRefsUpdate(nodes[..m], k, v);
      RefsStep(LeafRefs(u[..m]), LeafRefs(nodes[..m]), LeafContrib(nodes[k]), LeafContrib(v), LeafContrib(nodes[m]));
      assert LeafRefs(u) == LeafRefs(u[..m]) + LeafContrib(nodes[m]);
    } else {
      assert u[..m] == nodes[..m];
      assert LeafRefs(u) == LeafRefs(nodes[..m]) + LeafContrib(v);
      RefsSwap(LeafRefs(nodes[..m]), LeafContrib(v), LeafContrib(nodes[k]));
    }
  }


  /** Overwriting one node swaps its node references for the new node's. */
  lemma {:induction false} NodeRefsUpdate(nodes: seq<Node>, k: nat, v: Node)
    requires k < |nodes|
    ensures NodeRefs(nodes[k := v]) + NodeContrib(nodes[k]) == NodeRefs(nodes) + NodeContrib(v)
  {
    var m := |nodes| - 1;
    var u := nodes[k := v];
    if k < m {
      assert u[..m] == nodes[..m][k := v];
      NodeRefsUpdate(nodes[..m], k, v);
      RefsStep(NodeRefs(u[..m]), NodeRefs(nodes[..m]), NodeContrib(nodes[k]), NodeContrib(v), NodeContrib(nodes[m]));
      assert NodeRefs(u) == NodeRefs(u[..m]) + NodeContrib(nodes[m]);
    } else {
      assert u[..m] == nodes[..m];
      assert NodeRefs(u) == NodeRefs(nodes[..m]) + NodeContrib(v);
      RefsSwap(NodeRefs(nodes[..m]), NodeContrib(v), NodeContrib(nodes[k]));
    }
  }


  /** Adding the same references to both sides of an equation keeps it. */
  lemma RefsStep(a: multiset<nat>, b: multiset<nat>, cOld: multiset<nat>, cNew: multiset<nat>, c: multiset<nat>)
    requires a + cOld == b + cNew
    ensures (a + c) + cOld == (b + c) + cNew
  {
    forall x ensures ((a + c) + cOld)[x] == ((b + c) + cNew)[x] {
      assert (a + cOld)[x] == (b + cNew)[x];
    }
  }

  lemma RefsSwap(b: multiset<nat>, c1: multiset<nat>, c2: multiset<nat>)
    ensures (b + c1) + c2 == (b + c2) + c1
  {
  }

  /** The leaf references after setting a blank node's children. */
  lemma SetChildrenLeafRefs(nodes: seq<Node>, k: nat, v: Node)
    requires k < |nodes| && nodes[k] == BLANK_NODE
    ensures LeafRefs(nodes[k := v]) == LeafRefs(nodes) + LeafContrib(v)
  {
    LeafRefsUpdate(nodes, k, v);
    assert LeafContrib(nodes[k]) == multiset{};
  }

  /** The node references after setting a blank node's children. */
  lemma SetChildrenNodeRefs(nodes: seq<Node>, k: nat, v: Node)
    requires k < |nodes| && nodes[k] == BLANK_NODE
    ensures NodeRefs(nodes[k := v]) == NodeRefs(nodes) + NodeContrib(v)
  {
    NodeRefsUpdate(nodes, k, v);
    assert NodeContrib(nodes[k]) == multiset{};
  }

  /**
   * A finished node: a leaf child names a real leaf, a node child has a larger index than
   * its parent, so following children always moves forward in the node list.
   */
  predicate ChildOk(c: int, i: nat, count: nat, size: nat)
  {
    (c < 0 && -c < size) || (i < c < count)
  }

  predicate NodeOk(nodes: seq<Node>, i: nat, size: nat)
    requires i < |nodes|
  {
    ChildOk(nodes[i].childL, i, |nodes|, size) && ChildOk(nodes[i].childR, i, |nodes|, size)
  }

  /** A finished hierarchy: every node finished. */
  predicate WellFormed(nodes: seq<Node>, size: nat)
  {
    forall i :: 0 <= i < |nodes| ==> NodeOk(nodes, i, size)
  }

  // ---------------------------------------------------------------------------------------
  // CreateNodeHierarchy
  // ---------------------------------------------------------------------------------------

  /** UnsplitNodeStackEntry: a node whose children are still to be set, and its leaves. */
  datatype Entry = Entry(node: nat, refs: seq<seq<nat>>)

  /** The leaves of all unsplit nodes. */
  function PendingRefs(stack: seq<Entry>): multiset<nat>
  {
    if stack == [] then multiset{}
    else
      var e := stack[|stack| - 1];
      PendingRefs(stack[..|stack| - 1]) + (if |e.refs| > 0 then multiset(e.refs[0]) else multiset{})
  }

  /** The nodes still to be created below the unsplit nodes: k - 2 below a node with k leaves. */
  function PendingNodes(stack: seq<Entry>): int
  {
    if stack == [] then 0
    else
      var e := stack[|stack| - 1];
      PendingNodes(stack[..|stack| - 1]) + (if |e.refs| > 0 then |e.refs[0]| - 2 else 0)
  }

  predicate NotPending(stack: seq<Entry>, i: nat)
  {
    forall k :: 0 <= k < |stack| ==> stack[k].node != i
  }

  /**
   * The loop invariant of CreateNodeHierarchy over the node list and the stack of unsplit
   * nodes, for n leaves with reference multiset all:
   *   - every stacked node is blank, holds a coherent list of at least two leaves, and the
   *     stacked node indices ascend from bottom to top;
   *   - every node not on the stack is finished;
   *   - the leaves referenced as children plus the stacked leaves are exactly all leaves;
   *   - every node but the root is referenced exactly once;
   *   - the nodes made so far plus those still to come below the stacked nodes are n - 1.
   */
  ghost predicate HierarchyInv(nodes: seq<Node>, stack: seq<Entry>, size: nat, all: multiset<nat>, n: nat)
  {
    && |nodes| >= 1
    && StackOk(nodes, stack, size)
    && FinishedOk(nodes, stack, size)
    && Bookkeeping(nodes, stack, all, n)
  }

  ghost predicate StackOk(nodes: seq<Node>, stack: seq<Entry>, size: nat)
  {
    && (forall k :: 0 <= k < |stack| ==>
          stack[k].node < |nodes| && nodes[stack[k].node] == BLANK_NODE
          && Coherent(stack[k].refs, size) && |stack[k].refs[0]| >= 2)
    && (forall k, j :: 0 <= k < j < |stack| ==> stack[k].node < stack[j].node)
  }

  predicate FinishedOk(nodes: seq<Node>, stack: seq<Entry>, size: nat)
  {
    forall i :: 0 <= i < |nodes| && NotPending(stack, i) ==> NodeOk(nodes, i, size)
  }

  predicate Bookkeeping(nodes: seq<Node>, stack: seq<Entry>, all: multiset<nat>, n: nat)
  {
    && LeafRefs(nodes) + PendingRefs(stack) == all
    && NodeRefs(nodes) == multiset(Range(1, |nodes|))
    && |nodes| + PendingNodes(stack) == n - 1
  }

  /** With two or more leaves per stacked node, the pending node count is not negative. */
  lemma {:induction false} PendingNodesNonNegative(stack: seq<Entry>)
    requires forall k :: 0 <= k < |stack| ==> |stack[k].refs| > 0 && |stack[k].refs[0]| >= 2
    ensures PendingNodes(stack) >= 0
  {
    if stack != [] {
      PendingNodesNonNegative(stack[..|stack| - 1]);
    }
  }

  /**
   * Attaching a child of the node being split: a child with one leaf is that leaf's negated
   * index; a child with more leaves becomes a new blank node at index nodes.size(), pushed
   * onto the stack with its leaves.
   */
  function Attach(nodes: seq<Node>, stack: seq<Entry>, refs: seq<seq<nat>>): (r: (int, seq<Node>, seq<Entry>))
    requires |refs| > 0 && |refs[0]| > 0
  {
    if |refs[0]| == 1 then (-(refs[0][0] as int), nodes, stack)
    else (|nodes|, nodes + [BLANK_NODE], stack + [Entry(|nodes|, refs)])
  }

  /** Pop the top node, attach its left and then its right child, and set its children. */
  function StepWith(nodes: seq<Node>, stack: seq<Entry>, l: seq<seq<nat>>, r: seq<seq<nat>>): (res: (seq<Node>, seq<Entry>))
    requires stack != [] && stack[|stack| - 1].node < |nodes|
    requires |l| > 0 && |l[0]| > 0 && |r| > 0 && |r[0]| > 0
  {
    var e := stack[|stack| - 1];
    var (cl, n1, s1) := Attach(nodes, stack[..|stack| - 1], l);
    var (cr, n2, s2) := Attach(n1, s1, r);
    (n2[e.node := Node(cl, cr)], s2)
  }

  /**
   * One iteration of the construction loop: pop the top node, split it with the chosen
   * split, attach the left child and then the right child, and set the popped node's
   * children. The right child, pushed last, is split next.
   */
  function SplitTop(nodes: seq<Node>, stack: seq<Entry>, sp: Split, size: nat): (r: (seq<Node>, seq<Entry>))
    requires stack != [] && stack[|stack| - 1].node < |nodes|
    requires Coherent(stack[|stack| - 1].refs, size) && ValidSplit(sp, |stack[|stack| - 1].refs[0]|)
  {
    var e := stack[|stack| - 1];
    SplitKeepsLeaves(e.refs, sp, size);
    var (l, r) := SplitRefs(e.refs, sp, size);
    StepWith(nodes, stack, l, r)
  }

  /**
   * What attaching a child does to the bookkeeping: the child index references the child's
   * leaves or the new node, whose leaves are then pending instead.
   */
  lemma AttachLeafRefs(nodes: seq<Node>, stack: seq<Entry>, refs: seq<seq<nat>>, size: nat)
    requires |refs| > 0 && |refs[0]| > 0 && |nodes| > 0 && RealLeaves(refs[0], size)
    ensures LeafRefs(Attach(nodes, stack, refs).1) == LeafRefs(nodes)
    ensures LeafOf(Attach(nodes, stack, refs).0) + PendingRefs(Attach(nodes, stack, refs).2)
         == PendingRefs(stack) + multiset(refs[0])
  {
    if |refs[0]| == 1 {
      AttachLeaf(refs[0]);
    } else {
      AppendBlank(nodes);
      PushEntry(stack, Entry(|nodes|, refs));
    }
  }

  /** Attaching a child adds its node index, if any, to the referenced nodes. */
  lemma AttachNodeRefs(nodes: seq<Node>, stack: seq<Entry>, refs: seq<seq<nat>>, size: nat)
    requires |refs| > 0 && |refs[0]| > 0 && |nodes| > 0 && RealLeaves(refs[0], size)
    ensures NodeRefs(Attach(nodes, stack, refs).1) == NodeRefs(nodes)
    ensures multiset(Range(1, |nodes|)) + NodeOf(Attach(nodes, stack, refs).0)
         == multiset(Range(1, |Attach(nodes, stack, refs).1|))
  {
    if |refs[0]| == 1 {
      AttachLeaf(refs[0]);
    } else {
      AppendBlank(nodes);
      RangeAppend(|nodes|);
    }
  }

  /** Attaching a child of k leaves accounts for its k - 1 nodes, made or pending. */
  lemma AttachCount(nodes: seq<Node>, stack: seq<Entry>, refs: seq<seq<nat>>)
    requires |refs| > 0 && |refs[0]| > 0
    ensures |Attach(nodes, stack, refs).1| + PendingNodes(Attach(nodes, stack, refs).2)
         == |nodes| + PendingNodes(stack) + |refs[0]| - 1
  {
    if |refs[0]| > 1 {
      PushEntry(stack, Entry(|nodes|, refs));
    }
  }

  /** A single leaf is referenced by its negated index. */
  lemma AttachLeaf(leaves: seq<nat>)
    requires |leaves| == 1 && leaves[0] >= 1
    ensures LeafOf(-(leaves[0] as int)) == multiset(leaves)
    ensures NodeOf(-(leaves[0] as int)) == multiset{}
  {
    assert leaves == [leaves[0]];
  }

  /** A blank node adds no reference. */
  lemma AppendBlank(nodes: seq<Node>)
    ensures LeafRefs(nodes + [BLANK_NODE]) == LeafRefs(nodes)
    ensures NodeRefs(nodes + [BLANK_NODE]) == NodeRefs(nodes)
  {
    assert (nodes + [BLANK_NODE])[..|nodes|] == nodes;
  }

  /** A pushed entry adds its references and its nodes to the pending totals. */
  lemma PushEntry(stack: seq<Entry>, e: Entry)
    requires |e.refs| > 0
    ensures PendingRefs(stack + [e]) == PendingRefs(stack) + multiset(e.refs[0])
    ensures PendingNodes(stack + [e]) == PendingNodes(stack) + |e.refs[0]| - 2
  {
    assert (stack + [e])[..|stack|] == stack;
  }

  lemma RangeAppend(n: nat)
    requires n > 0
    ensures multiset(Range(1, n)) + NodeOf(n) == multiset(Range(1, n + 1))
  {
  }

  /** The multiset bookkeeping of one construction step, over named parts. */
  lemma StepAlgebra(all: multiset<nat>, l0: multiset<nat>, l3: multiset<nat>, lcl: multiset<nat>, lcr: multiset<nat>,
                    p0: multiset<nat>, p1: multiset<nat>, p2: multiset<nat>,
                    ml: multiset<nat>, mr: multiset<nat>, me: multiset<nat>)
    requires l3 == l0 + (lcl + lcr)
    requires lcl + p1 == p0 + ml && lcr + p2 == p1 + mr
    requires ml + mr == me && l0 + (p0 + me) == all
    ensures l3 + p2 == all
  {
    forall x ensures (l3 + p2)[x] == all[x] {
      assert (lcl + p1)[x] == (p0 + ml)[x];
      assert (lcr + p2)[x] == (p1 + mr)[x];
    }
  }

  /** One step keeps the leaf and node bookkeeping and the node count. */
  lemma StepBookkeeping(nodes: seq<Node>, stack: seq<Entry>, l: seq<seq<nat>>, r: seq<seq<nat>>, size: nat, all: multiset<nat>, n: nat)
    requires stack != [] && stack[|stack| - 1].node < |nodes| && nodes[stack[|stack| - 1].node] == BLANK_NODE
    requires |l| > 0 && |l[0]| > 0 && |r| > 0 && |r[0]| > 0
    requires RealLeaves(l[0], size) && RealLeaves(r[0], size)
    requires |stack[|stack| - 1].refs| > 0 && multiset(l[0]) + multiset(r[0]) == multiset(stack[|stack| - 1].refs[0])
    requires Bookkeeping(nodes, stack, all, n) && |nodes| >= 1
    ensures Bookkeeping(StepWith(nodes, stack, l, r).0, StepWith(nodes, stack, l, r).1, all, n)
  {
    StepLeafRefs(nodes, stack, l, r, size, all);
    StepNodeRefs(nodes, stack, l, r, size);
    StepCount(nodes, stack, l, r, size, n);
  }

  /** One step keeps every leaf either referenced as a child or pending, once. */
  lemma StepLeafRefs(nodes: seq<Node>, stack: seq<Entry>, l: seq<seq<nat>>, r: seq<seq<nat>>, size: nat, all: multiset<nat>)
    requires stack != [] && stack[|stack| - 1].node < |nodes| && nodes[stack[|stack| - 1].node] == BLANK_NODE
    requires |l| > 0 && |l[0]| > 0 && |r| > 0 && |r[0]| > 0
    requires RealLeaves(l[0], size) && RealLeaves(r[0], size)
    requires |stack[|stack| - 1].refs| > 0 && multiset(l[0]) + multiset(r[0]) == multiset(stack[|stack| - 1].refs[0])
    requires LeafRefs(nodes) + PendingRefs(stack) == all && |nodes| >= 1
    ensures LeafRefs(StepWith(nodes, stack, l, r).0) + PendingRefs(StepWith(nodes, stack, l, r).1) == all
  {
    var e := stack[|stack| - 1];
    var rest := stack[..|stack| - 1];
    var (cl, n1, s1) := Attach(nodes, rest, l);
    var (cr, n2, s2) := Attach(n1, s1, r);
    var v := Node(cl, cr);
    assert StepWith(nodes, stack, l, r) == (n2[e.node := v], s2);
    assert n2[e.node] == BLANK_NODE by {
      assert n1[e.node] == nodes[e.node];
    }
    SetChildrenLeafRefs(n2, e.node, v);
    AttachLeafRefs(nodes, rest, l, size);
    AttachLeafRefs(n1, s1, r, size);
    StepAlgebra(all, LeafRefs(nodes), LeafRefs(n2[e.node := v]), LeafOf(cl), LeafOf(cr),
                PendingRefs(rest), PendingRefs(s1), PendingRefs(s2),
                multiset(l[0]), multiset(r[0]), multiset(e.refs[0]));
  }

  /** One step keeps every node but the root referenced once. */
  lemma StepNodeRefs(nodes: seq<Node>, stack: seq<Entry>, l: seq<seq<nat>>, r: seq<seq<nat>>, size: nat)
    requires stack != [] && stack[|stack| - 1].node < |nodes| && nodes[stack[|stack| - 1].node] == BLANK_NODE
    requires |l| > 0 && |l[0]| > 0 && |r| > 0 && |r[0]| > 0
    requires RealLeaves(l[0], size) && RealLeaves(r[0], size)
    requires |stack[|stack| - 1].refs| > 0 && multiset(l[0]) + multiset(r[0]) == multiset(stack[|stack| - 1].refs[0])
    requires NodeRefs(nodes) == multiset(Range(1, |nodes|)) && |nodes| >= 1
    ensures NodeRefs(StepWith(nodes, stack, l, r).0) == multiset(Range(1, |StepWith(nodes, stack, l, r).0|))
  {
    var e := stack[|stack| - 1];
    var rest := stack[..|stack| - 1];
    var (cl, n1, s1) := Attach(nodes, rest, l);
    var (cr, n2, s2) := Attach(n1, s1, r);
    var v := Node(cl, cr);
    assert StepWith(nodes, stack, l, r) == (n2[e.node := v], s2);
    assert n2[e.node] == BLANK_NODE by {
      assert n1[e.node] == nodes[e.node];
    }
    SetChildrenNodeRefs(n2, e.node, v);
    AttachNodeRefs(nodes, rest, l, size);
    AttachNodeRefs(n1, s1, r, size);
    NodeAlgebra(NodeRefs(n2[e.node := v]), NodeRefs(n2), NodeOf(cl), NodeOf(cr),
                multiset(Range(1, |nodes|)), multiset(Range(1, |n1|)), multiset(Range(1, |n2|)));
  }

  /** The node bookkeeping of one construction step, over named parts. */
  lemma NodeAlgebra(n3: multiset<nat>, n2: multiset<nat>, cl: multiset<nat>, cr: multiset<nat>,
                    r0: multiset<nat>, r1: multiset<nat>, r2: multiset<nat>)
    requires n3 == n2 + (cl + cr) && n2 == r0 && r0 + cl == r1 && r1 + cr == r2
    ensures n3 == r2
  {
    forall x ensures n3[x] == r2[x] {
      assert (r0 + cl)[x] == r1[x];
      assert (r1 + cr)[x] == r2[x];
    }
  }

  /** One step keeps the made and the still-to-come nodes summing to n - 1. */
  lemma StepCount(nodes: seq<Node>, stack: seq<Entry>, l: seq<seq<nat>>, r: seq<seq<nat>>, size: nat, n: nat)
    requires stack != [] && stack[|stack| - 1].node < |nodes| && nodes[stack[|stack| - 1].node] == BLANK_NODE
    requires |l| > 0 && |l[0]| > 0 && |r| > 0 && |r[0]| > 0
    requires RealLeaves(l[0], size) && RealLeaves(r[0], size)
    requires |stack[|stack| - 1].refs| > 0 && multiset(l[0]) + multiset(r[0]) == multiset(stack[|stack| - 1].refs[0])
    requires |nodes| + PendingNodes(stack) == n - 1 && |nodes| >= 1
    ensures |StepWith(nodes, stack, l, r).0| + PendingNodes(StepWith(nodes, stack, l, r).1) == n - 1
  {
    var e := stack[|stack| - 1];
    var rest := stack[..|stack| - 1];
    var (cl, n1, s1) := Attach(nodes, rest, l);
    var (cr, n2, s2) := Attach(n1, s1, r);
    var v := Node(cl, cr);
    assert StepWith(nodes, stack, l, r) == (n2[e.node := v], s2);
    assert n2[e.node] == BLANK_NODE by {
      assert n1[e.node] == nodes[e.node];
    }
    AttachCount(nodes, rest, l);
    AttachCount(n1, s1, r);
    assert |multiset(l[0])| + |multiset(r[0])| == |multiset(e.refs[0])|;
  }

  /** One step keeps the stacked nodes blank, coherent and ascending. */
  lemma StepStack(nodes: seq<Node>, stack: seq<Entry>, l: seq<seq<nat>>, r: seq<seq<nat>>, size: nat)
    requires stack != [] && StackOk(nodes, stack, size)
    requires Coherent(l, size) && Coherent(r, size) && |l[0]| > 0 && |r[0]| > 0
    ensures StackOk(StepWith(nodes, stack, l, r).0, StepWith(nodes, stack, l, r).1, size)
  {
    var e := stack[|stack| - 1];
    var rest := stack[..|stack| - 1];
    var (cl, n1, s1) := Attach(nodes, rest, l);
    var (cr, n2, s2) := Attach(n1, s1, r);
    var n3 := n2[e.node := Node(cl, cr)];
    assert StepWith(nodes, stack, l, r) == (n3, s2);
    assert |rest| <= |s1| <= |s2| && |nodes| <= |n1| <= |n2| == |n3|;
    forall k | 0 <= k < |s2|
      ensures s2[k].node < |n3| && n3[s2[k].node] == BLANK_NODE
      ensures Coherent(s2[k].refs, size) && |s2[k].refs[0]| >= 2
    {
      if k < |rest| {
        assert s1[k] == rest[k];
        assert s2[k] == stack[k];
        assert stack[k].node < e.node;
        assert n3[stack[k].node] == n2[stack[k].node] == nodes[stack[k].node];
      } else if k < |s1| {
        assert s2[k] == s1[k] == Entry(|nodes|, l);
      } else {
        assert s2[k] == Entry(|n1|, r);
      }
    }
    forall k, j | 0 <= k < j < |s2| ensures s2[k].node < s2[j].node {
      if j < |rest| {
        assert s1[j] == rest[j] && s1[k] == rest[k];
        assert s2[k] == stack[k] && s2[j] == stack[j];
      } else if k < |rest| {
        assert s1[k] == rest[k];
        assert s2[k] == stack[k];
        assert stack[k].node < e.node < |nodes|;
        assert j < |s1| ==> s2[j] == s1[j] == Entry(|nodes|, l);
      } else {
        assert k == |rest| && j == |rest| + 1 && |s1| == |rest| + 1;
        assert s2[k] == s1[k];
      }
    }
  }

  /** After one step every node that is not stacked is finished. */
  lemma StepFinished(nodes: seq<Node>, stack: seq<Entry>, l: seq<seq<nat>>, r: seq<seq<nat>>, size: nat)
    requires stack != [] && stack[|stack| - 1].node < |nodes| && FinishedOk(nodes, stack, size)
    requires |l| > 0 && |l[0]| > 0 && |r| > 0 && |r[0]| > 0
    requires RealLeaves(l[0], size) && RealLeaves(r[0], size)
    ensures FinishedOk(StepWith(nodes, stack, l, r).0, StepWith(nodes, stack, l, r).1, size)
  {
    var e := stack[|stack| - 1];
    var rest := stack[..|stack| - 1];
    var (cl, n1, s1) := Attach(nodes, rest, l);
    var (cr, n2, s2) := Attach(n1, s1, r);
    var n3 := n2[e.node := Node(cl, cr)];
    assert StepWith(nodes, stack, l, r) == (n3, s2);
    assert |nodes| <= |n1| <= |n2| == |n3|;
    forall i | 0 <= i < |n3| && NotPending(s2, i) ensures NodeOk(n3, i, size) {
      if i == e.node {
        assert ChildOk(cl, i, |n3|, size);
        assert ChildOk(cr, i, |n3|, size);
      } else if i < |nodes| {
        assert n3[i] == nodes[i];
        forall k | 0 <= k < |stack| ensures stack[k].node != i {
          if k < |rest| {
            assert s1[k] == rest[k];
            assert s2[k] == stack[k];
          }
        }
        assert NodeOk(nodes, i, size);
      } else if i < |n1| {
        StackedNotFinished(s2, |rest|);
      } else {
        StackedNotFinished(s2, |s2| - 1);
      }
    }
  }

  /** A stacked node is pending. */
  lemma StackedNotFinished(stack: seq<Entry>, k: int)
    ensures 0 <= k < |stack| ==> !NotPending(stack, stack[k].node)
  {
  }

  /** One construction step keeps the invariant and makes progress. */
  lemma SplitTopKeepsInv(nodes: seq<Node>, stack: seq<Entry>, sp: Split, size: nat, all: multiset<nat>, n: nat)
    requires HierarchyInv(nodes, stack, size, all, n) && stack != []
    requires ValidSplit(sp, |stack[|stack| - 1].refs[0]|)
    ensures HierarchyInv(SplitTop(nodes, stack, sp, size).0, SplitTop(nodes, stack, sp, size).1, size, all, n)
    ensures |SplitTop(nodes, stack, sp, size).1| + 2 * |nodes| < |stack| + 2 * |SplitTop(nodes, stack, sp, size).0|
  {
    var e := stack[|stack| - 1];
    SplitKeepsLeaves(e.refs, sp, size);
    var lr := SplitRefs(e.refs, sp, size);
    var l, r := lr.0, lr.1;
    assert SplitTop(nodes, stack, sp, size) == StepWith(nodes, stack, l, r);
    StepBookkeeping(nodes, stack, l, r, size, all, n);
    StepStack(nodes, stack, l, r, size);
    StepFinished(nodes, stack, l, r, size);
    StepGrows(nodes, stack, l, r);
  }

  /** A step pops one node and pushes one new node per child that gets one. */
  lemma StepGrows(nodes: seq<Node>, stack: seq<Entry>, l: seq<seq<nat>>, r: seq<seq<nat>>)
    requires stack != [] && stack[|stack| - 1].node < |nodes|
    requires |l| > 0 && |l[0]| > 0 && |r| > 0 && |r[0]| > 0
    ensures |StepWith(nodes, stack, l, r).1| + 2 * |nodes| < |stack| + 2 * |StepWith(nodes, stack, l, r).0|
    ensures |StepWith(nodes, stack, l, r).0| >= 1
  {
  }

  /**
   * CreateNodeHierarchy: splits nodes until none is left unsplit, choosing each split with
   * choose (DetermineBeneficialNodeSplit). Starting from the root over n coherent leaves,
   * it ends with n - 1 finished nodes in which every leaf is referenced exactly once and
   * every node but the root exactly once.
   */
  method CreateNodeHierarchy(rootRefs: seq<seq<nat>>, size: nat, choose: seq<seq<nat>> -> Split)
    returns (nodes: seq<Node>)
    requires Coherent(rootRefs, size) && |rootRefs[0]| >= 2
    requires forall refs: seq<seq<nat>> :: |refs| == 3 && |refs[0]| >= 2 ==> ValidSplit(choose(refs), |refs[0]|)
    ensures |nodes| == |rootRefs[0]| - 1
    ensures WellFormed(nodes, size)
    ensures LeafRefs(nodes) == multiset(rootRefs[0])
    ensures NodeRefs(nodes) == multiset(Range(1, |nodes|))
  {
    nodes := [BLANK_NODE];
    var stack := [Entry(0, rootRefs)];
    var n := |rootRefs[0]|;
    assert PendingRefs(stack) == multiset(rootRefs[0]) by {
      assert stack[..0] == [];
    }
    assert PendingNodes(stack) == n - 2 by {
      assert stack[..0] == [];
    }
    assert NodeRefs(nodes) == multiset{} by {
      assert nodes[..0] == [];
    }
    while stack != []
      invariant HierarchyInv(nodes, stack, size, multiset(rootRefs[0]), n)
      decreases 2 * (n - |nodes|) + |stack|
    {
      PendingNodesNonNegative(stack);
      var sp := choose(stack[|stack| - 1].refs);
      SplitTopKeepsInv(nodes, stack, sp, size, multiset(rootRefs[0]), n);
      PendingNodesNonNegative(SplitTop(nodes, stack, sp, size).1);
      nodes, stack := SplitTop(nodes, stack, sp, size).0, SplitTop(nodes, stack, sp, size).1;
    }
    assert PendingRefs(stack) == multiset{};
  }

  // ---------------------------------------------------------------------------------------
  // SetNodeContentsInfo
  // ---------------------------------------------------------------------------------------

  /** The leaf types a child contributes: its leaf's type, or the child node's set. */
  function ChildTypes(c: int, leaves: seq<Leaf>, types: seq<set<LeafType>>): set<LeafType>
  {
    if c < 0 then (if -c < |leaves| then {leaves[-c].kind} else {})
    else if c < |types| then types[c] else {}
  }

  /** A reference definition: the types of all leaves below node i. */
  function SubtreeTypes(nodes: seq<Node>, leaves: seq<Leaf>, i: nat): set<LeafType>
    requires WellFormed(nodes, |leaves|) && i < |nodes|
    decreases |nodes| - i
  {
    var n := nodes[i];
    assert NodeOk(nodes, i, |leaves|);
    (if n.childL < 0 then {leaves[-n.childL].kind} else SubtreeTypes(nodes, leaves, n.childL))
    + (if n.childR < 0 then {leaves[-n.childR].kind} else SubtreeTypes(nodes, leaves, n.childR))
  }

  /**
   * SetNodeContentsInfo: sets, from the back of the node list, each node's contained leaf
   * types once both children are set, repeating passes until every node is set. Since a
   * child node always comes after its parent, the first pass sets them all; each node's set
   * is the union of its children's, hence the types of all leaves below it.
   */
  method SetNodeContentsInfo(nodes: seq<Node>, leaves: seq<Leaf>) returns (types: seq<set<LeafType>>)
    requires WellFormed(nodes, |leaves|)
    ensures |types| == |nodes|
    ensures forall i :: 0 <= i < |nodes| ==>
      types[i] == ChildTypes(nodes[i].childL, leaves, types) + ChildTypes(nodes[i].childR, leaves, types)
    ensures forall i :: 0 <= i < |nodes| ==> types[i] == SubtreeTypes(nodes, leaves, i)
  {
    types := seq(|nodes|, _ => {});
    var isSet := seq(|nodes|, _ => false);
    var setCount := 0;
    while setCount < |nodes|
      invariant |types| == |nodes| && |isSet| == |nodes|
      invariant setCount == 0 || setCount == |nodes|
      invariant setCount == 0 ==> forall j :: 0 <= j < |nodes| ==> !isSet[j]
      invariant setCount == |nodes| ==> forall j :: 0 <= j < |nodes| ==> types[j] == SubtreeTypes(nodes, leaves, j)
      decreases |nodes| - setCount
    {
      var i := |nodes|;
      while i > 0
        invariant 0 <= i <= |nodes| && |types| == |nodes| && |isSet| == |nodes|
        invariant setCount == |nodes| - i
        invariant forall j :: 0 <= j < i ==> !isSet[j]
        invariant forall j :: i <= j < |nodes| ==> isSet[j] && types[j] == SubtreeTypes(nodes, leaves, j)
      {
        i := i - 1;
        var n := nodes[i];
        assert NodeOk(nodes, i, |leaves|);
        var ready := !isSet[i] && (n.childL < 0 || isSet[n.childL]) && (n.childR < 0 || isSet[n.childR]);
        if ready {
          types := types[i := ChildTypes(n.childL, leaves, types) + ChildTypes(n.childR, leaves, types)];
          isSet := isSet[i := true];
          setCount := setCount + 1;
        }
      }
    }
    forall i | 0 <= i < |nodes|
      ensures types[i] == ChildTypes(nodes[i].childL, leaves, types) + ChildTypes(nodes[i].childR, leaves, types)
    {
      assert NodeOk(nodes, i, |leaves|);
    }
  }

  // ---------------------------------------------------------------------------------------
  // Construction
  // ---------------------------------------------------------------------------------------

  /** The BVH: leaves (dummy first), nodes (root first, empty on failure), per-node types. */
  datatype Tree = Tree(leaves: seq<Leaf>, nodes: seq<Node>, totalLeafCnt: nat, types: seq<set<LeafType>>)

  /** WasConstructedSuccessfully: at least one node and two leaves. */
  predicate WasConstructedSuccessfully(t: Tree)
  {
    |t.nodes| != 0 && t.totalLeafCnt >= 2
  }

  /**
   * The BVH constructor over the objects leaf creation collected (createdOk is false when
   * leaf creation failed): without success or with fewer than two leaves no node is built;
   * otherwise the leaf references are sorted along each axis and split down to n - 1 nodes.
   */
  method Build(objects: seq<Leaf>, createdOk: bool, choose: seq<seq<nat>> -> Split) returns (t: Tree)
    requires forall refs: seq<seq<nat>> :: |refs| == 3 && |refs[0]| >= 2 ==> ValidSplit(choose(refs), |refs[0]|)
    ensures t.leaves == CreateLeaves(objects) && t.totalLeafCnt == |objects|
    ensures WasConstructedSuccessfully(t) <==> createdOk && |objects| >= 2
    ensures !WasConstructedSuccessfully(t) ==> t.nodes == []
    ensures WasConstructedSuccessfully(t) ==>
      && |t.nodes| == |objects| - 1
      && WellFormed(t.nodes, |t.leaves|)
      && LeafRefs(t.nodes) == multiset(Range(1, |objects| + 1))
      && NodeRefs(t.nodes) == multiset(Range(1, |t.nodes|))
      && |t.types| == |t.nodes|
      && (forall i :: 0 <= i < |t.nodes| ==> t.types[i] == SubtreeTypes(t.nodes, t.leaves, i))
  {
    var leaves := CreateLeaves(objects);
    var total := |leaves| - 1;
    if !createdOk || total < 2 {
      return Tree(leaves, [], total, []);
    }
    var rootRefs := RootRefs(leaves);
    var nodes := CreateNodeHierarchy(rootRefs, |leaves|, choose);
    var types := SetNodeContentsInfo(nodes, leaves);
    t := Tree(leaves, nodes, total, types);
  }

  /**
   * The root's lists: every real leaf index, sorted by centroid along X, Y and Z; each is a
   * permutation of 1 .. n.
   */
  function RootRefs(leaves: seq<Leaf>): (refs: seq<seq<nat>>)
    requires |leaves| >= 1
    ensures |refs| == 3 && Coherent(refs, |leaves|) && |refs[0]| == |leaves| - 1
    ensures multiset(refs[0]) == multiset(Range(1, |leaves|))
    ensures RealLeaves(refs[1], |leaves|) && RealLeaves(refs[2], |leaves|)
    ensures SortedAlong(refs[0], leaves, 0) && SortedAlong(refs[1], leaves, 1)
    ensures SortedAlong(refs[2], leaves, 2)
  {
    var all := Range(1, |leaves|);
    RangeReal(|leaves|, |leaves|);
    var x := SortAlong(all, leaves, 0);
    var y := SortAlong(all, leaves, 1);
    var z := SortAlong(all, leaves, 2);
    RootCoherent(all, x, y, z, |leaves|);
    [x, y, z]
  }

  /** Three permutations of the duplicate-free range of real leaves form a coherent list triple. */
  lemma RootCoherent(all: seq<nat>, x: seq<nat>, y: seq<nat>, z: seq<nat>, size: nat)
    requires size >= 1 && all == Range(1, size) && RealLeaves(x, size)
    requires multiset(x) == multiset(all) && multiset(y) == multiset(all) && multiset(z) == multiset(all)
    ensures Coherent([x, y, z], size) && |x| == size - 1
  {
    RangeNoDup(size);
    assert |x| == |multiset(x)| == |multiset(all)| == |all|;
  }

  /** The range 1 .. hi-1 holds each index once. */
  lemma RangeNoDup(hi: nat)
    ensures NoDup(Range(1, hi))
  {
    forall x ensures multiset(Range(1, hi))[x] <= 1 {
      RangeCounts(1, hi, x);
    }
  }

  /** Every real leaf is referenced exactly once, and the dummy leaf never. */
  lemma EachLeafOnce(t: Tree, x: nat)
    requires LeafRefs(t.nodes) == multiset(Range(1, t.totalLeafCnt + 1))
    ensures LeafRefs(t.nodes)[x] == if 1 <= x <= t.totalLeafCnt then 1 else 0
  {
    RangeCounts(1, t.totalLeafCnt + 1, x);
  }
}
