/**
 * Building the triangle mesh of one section of a PHY collision model: the triangles'
 * winding is inverted, the global vertex indices are renumbered densely in order of first
 * appearance (the look-up table), the section's vertices are copied in that order, and the
 * unique edges are collected. Vertex positions are an opaque type: their float maths is not
 * part of this model.
 */
module PhyMesh {

  /** A triangle face as read from the file: three global vertex indices in file order. */
  datatype Face = Face(v1: nat, v2: nat, v3: nat)

  /** TriMesh::Tri: three vertex indices. */
  datatype Tri = Tri(a: nat, b: nat, c: nat)

  /** TriMesh::Edge: two vertex indices. */
  datatype Edge = Edge(a: nat, b: nat)

  /** TriMesh: vertices, unique edges and triangles of one convex section. */
  datatype TriMesh<V> = TriMesh(vertices: seq<V>, edges: seq<Edge>, tris: seq<Tri>)

  // ---------------------------------------------------------------------------------------
  // Winding
  // ---------------------------------------------------------------------------------------

  /** The triangle stored for a face read as (v1, v2, v3): its second and third vertex swapped. */
  function Wind(f: Face): Tri
  {
    Tri(f.v1, f.v3, f.v2)
  }

  /** The triangles of a section, in file order. */
  function Winding(fs: seq<Face>): (r: seq<Tri>)
    ensures |r| == |fs|
  {
    seq(|fs|, i requires 0 <= i < |fs| => Wind(fs[i]))
  }

  /** The directed edge x -> y runs along the face, following its vertex order. */
  predicate FaceEdge(f: Face, x: nat, y: nat)
  {
    (x, y) == (f.v1, f.v2) || (x, y) == (f.v2, f.v3) || (x, y) == (f.v3, f.v1)
  }

  /** The directed edge x -> y runs along the triangle, following its vertex order. */
  predicate TriEdge(t: Tri, x: nat, y: nat)
  {
    (x, y) == (t.a, t.b) || (x, y) == (t.b, t.c) || (x, y) == (t.c, t.a)
  }

  /**
   * The stored triangle runs the other way round: each of its directed edges is a directed
   * edge of the face reversed, and the other way round, and it has the same corners.
   */
  lemma WindingInverts(f: Face, x: nat, y: nat)
    ensures TriEdge(Wind(f), x, y) <==> FaceEdge(f, y, x)
    ensures {Wind(f).a, Wind(f).b, Wind(f).c} == {f.v1, f.v2, f.v3}
  {
  }

  // ---------------------------------------------------------------------------------------
  // Renumbering in order of first appearance
  // ---------------------------------------------------------------------------------------

  /** The vertex indices of the triangles, three per triangle, in the order they are visited. */
  function Flat(ts: seq<Tri>): (r: seq<nat>)
    ensures |r| == 3 * |ts|
  {
    if ts == [] then [] else
    var t := ts[|ts| - 1];
    Flat(ts[..|ts| - 1]) + [t.a, t.b, t.c]
  }

  /** The three corners of triangle i come at 3i, 3i+1 and 3i+2 of the visiting order. */
  lemma {:induction false} FlatAt(ts: seq<Tri>, i: nat)
    requires i < |ts|
    ensures Flat(ts)[3 * i] == ts[i].a && Flat(ts)[3 * i + 1] == ts[i].b && Flat(ts)[3 * i + 2] == ts[i].c
    decreases |ts|
  {
    var n := |ts| - 1;
    var init := ts[..n];
    if i < n {
      FlatAt(init, i);
      assert init[i] == ts[i];
    }
  }

  /**
   * The vertex look-up table as the PHY parser builds it: each index in visiting order is
   * inserted with the table's current size as its new index, and an insert of an index
   * already present changes nothing.
   */
  function Lut(vs: seq<nat>): map<nat, nat>
  {
    if vs == [] then map[] else
    var m := Lut(vs[..|vs| - 1]);
    var v := vs[|vs| - 1];
    if v in m then m else m[v := |m|]
  }

  /** The distinct indices of vs in order of their first appearance. */
  function FirstAppearance(vs: seq<nat>): seq<nat>
  {
    if vs == [] then [] else
    var o := FirstAppearance(vs[..|vs| - 1]);
    var v := vs[|vs| - 1];
    if v in o then o else o + [v]
  }

  predicate Distinct(s: seq<nat>)
  {
    forall i, j :: 0 <= i < j < |s| ==> s[i] != s[j]
  }

  /** The first appearances are distinct and are exactly the indices that occur. */
  lemma {:induction false} FirstAppearanceFacts(vs: seq<nat>)
    ensures Distinct(FirstAppearance(vs))
    ensures forall v :: v in FirstAppearance(vs) <==> v in vs
    decreases |vs|
  {
    if vs != [] {
      var init := vs[..|vs| - 1];
      FirstAppearanceFacts(init);
      assert vs == init + [vs[|vs| - 1]];
    }
  }

  /** The first appearances in a prefix of vs come first among those of vs. */
  lemma {:induction false} FirstAppearancePrefix(vs: seq<nat>, i: nat)
    requires i <= |vs|
    ensures FirstAppearance(vs[..i]) <= FirstAppearance(vs)
    decreases |vs|
  {
    if i < |vs| {
      var init := vs[..|vs| - 1];
      FirstAppearancePrefix(init, i);
      assert init[..i] == vs[..i];
    } else {
      assert vs[..i] == vs;
    }
  }

  /**
   * The table maps exactly the indices that occur, and maps the k-th first appearance to k:
   * the new indices are 0 .. k-1 in order of first appearance.
   */
  lemma {:induction false} LutIsFirstAppearance(vs: seq<nat>)
    ensures var m := Lut(vs); var o := FirstAppearance(vs);
      && |m| == |o| && (forall v :: v in m <==> v in o)
      && (forall k :: 0 <= k < |o| ==> o[k] in m && m[o[k]] == k)
    decreases |vs|
  {
    if vs != [] {
      var init := vs[..|vs| - 1];
      var v := vs[|vs| - 1];
      LutIsFirstAppearance(init);
      FirstAppearanceFacts(init);
      var m0 := Lut(init);
      var o0 := FirstAppearance(init);
      if v !in m0 {
        assert m0.Keys !! {v};
        var o := o0 + [v];
        forall k | 0 <= k < |o| ensures o[k] in m0[v := |m0|] && m0[v := |m0|][o[k]] == k {
          if k < |o0| {
            assert o[k] == o0[k];
          }
        }
      }
    }
  }

  /** Every index of a renumbered table is below its size. */
  lemma LutBelowSize(vs: seq<nat>, v: nat)
    requires v in vs
    ensures v in Lut(vs) && Lut(vs)[v] < |Lut(vs)| == |FirstAppearance(vs)|
    ensures FirstAppearance(vs)[Lut(vs)[v]] == v
  {
    LutIsFirstAppearance(vs);
    FirstAppearanceFacts(vs);
    var o := FirstAppearance(vs);
    var k :| 0 <= k < |o| && o[k] == v;
  }

  // ---------------------------------------------------------------------------------------
  // Unique edges
  // ---------------------------------------------------------------------------------------

  /** e joins x and y, in either orientation. */
  predicate SameEdge(e: Edge, x: nat, y: nat)
  {
    (e.a == x && e.b == y) || (e.a == y && e.b == x)
  }

  /** The linear search of the edge loop: no edge so far joins x and y. */
  function Novel(es: seq<Edge>, x: nat, y: nat): (r: bool)
  {
    if es == [] then true
    else if SameEdge(es[0], x, y) then false
    else Novel(es[1..], x, y)
  }

  /** The search finds an edge exactly when one of the listed edges joins x and y. */
  lemma {:induction false} NovelMeans(es: seq<Edge>, x: nat, y: nat)
    ensures Novel(es, x, y) <==> forall k :: 0 <= k < |es| ==> !SameEdge(es[k], x, y)
    decreases |es|
  {
    if es != [] {
      NovelMeans(es[1..], x, y);
      assert forall k :: 1 <= k < |es| ==> es[k] == es[1..][k - 1];
    }
  }

  /** The edge x -> y is appended unless an edge joining x and y is already listed. */
  function AddEdge(es: seq<Edge>, x: nat, y: nat): seq<Edge>
  {
    if Novel(es, x, y) then es + [Edge(x, y)] else es
  }

  /** The three edges of a triangle, in the order a -> b, b -> c, c -> a. */
  function AddTri(es: seq<Edge>, t: Tri): seq<Edge>
  {
    AddEdge(AddEdge(AddEdge(es, t.a, t.b), t.b, t.c), t.c, t.a)
  }

  /** The unique edges of the triangles, visited in order. */
  function UniqueEdges(ts: seq<Tri>): seq<Edge>
  {
    if ts == [] then [] else AddTri(UniqueEdges(ts[..|ts| - 1]), ts[|ts| - 1])
  }

  /** No two listed edges join the same two vertices, in either orientation. */
  predicate NoDuplicateEdges(es: seq<Edge>)
  {
    forall i, j :: 0 <= i < j < |es| ==> !SameEdge(es[i], es[j].a, es[j].b)
  }

  /** Some listed edge joins x and y. */
  predicate Listed(es: seq<Edge>, x: nat, y: nat)
  {
    exists k :: 0 <= k < |es| && SameEdge(es[k], x, y)
  }

  /** Some triangle has x -> y as one of its directed edges. */
  predicate EdgeOfSome(ts: seq<Tri>, x: nat, y: nat)
  {
    exists i :: 0 <= i < |ts| && TriEdge(ts[i], x, y)
  }

  /** Every edge is an edge of a triangle and lies within n vertices when the triangles do. */
  predicate EdgesFrom(es: seq<Edge>, ts: seq<Tri>)
  {
    forall k :: 0 <= k < |es| ==> EdgeOfSome(ts, es[k].a, es[k].b)
  }

  /** Adding one edge only appends, and afterwards that edge is listed. */
  lemma AddEdgeGrows(es: seq<Edge>, x: nat, y: nat)
    ensures var r := AddEdge(es, x, y);
      && Listed(r, x, y) && es <= r && (forall k :: |es| <= k < |r| ==> r[k] == Edge(x, y))
  {
    NovelMeans(es, x, y);
    var r := AddEdge(es, x, y);
    if !Novel(es, x, y) {
      var k :| 0 <= k < |es| && SameEdge(es[k], x, y);
      assert Listed(r, x, y);
    } else {
      assert SameEdge(r[|es|], x, y);
    }
  }

  /** Adding one edge keeps the list free of duplicates. */
  lemma AddEdgeDistinct(es: seq<Edge>, x: nat, y: nat)
    requires NoDuplicateEdges(es)
    ensures NoDuplicateEdges(AddEdge(es, x, y))
  {
    NovelMeans(es, x, y);
    var r := AddEdge(es, x, y);
    if Novel(es, x, y) {
      forall i, j | 0 <= i < j < |r| ensures !SameEdge(r[i], r[j].a, r[j].b) {
        if j == |es| {
          assert r[i] == es[i];
        }
      }
    }
  }

  /** A list that holds the edges of es keeps holding them when it grows. */
  lemma ListedGrows(es: seq<Edge>, r: seq<Edge>, x: nat, y: nat)
    requires es <= r && Listed(es, x, y)
    ensures Listed(r, x, y)
  {
    var k :| 0 <= k < |es| && SameEdge(es[k], x, y);
    assert r[k] == es[k];
  }

  /** Adding a triangle's edges only appends sides of the triangle, and afterwards all three are listed. */
  lemma AddTriGrows(es: seq<Edge>, t: Tri)
    ensures var r := AddTri(es, t);
      && es <= r && Covers(r, t)
      && (forall k :: |es| <= k < |r| ==> TriEdge(t, r[k].a, r[k].b))
  {
    var e1 := AddEdge(es, t.a, t.b);
    var e2 := AddEdge(e1, t.b, t.c);
    var e3 := AddEdge(e2, t.c, t.a);
    AddEdgeGrows(es, t.a, t.b);
    AddEdgeGrows(e1, t.b, t.c);
    AddEdgeGrows(e2, t.c, t.a);
    ListedGrows(e1, e3, t.a, t.b);
    ListedGrows(e2, e3, t.b, t.c);
    forall k | |es| <= k < |e3| ensures TriEdge(t, e3[k].a, e3[k].b) {
      if k < |e1| {
        assert e3[k] == e1[k];
      } else if k < |e2| {
        assert e3[k] == e2[k];
      }
    }
  }

  /** Adding a triangle's edges keeps the list free of duplicates. */
  lemma AddTriDistinct(es: seq<Edge>, t: Tri)
    requires NoDuplicateEdges(es)
    ensures NoDuplicateEdges(AddTri(es, t))
  {
    var e1 := AddEdge(es, t.a, t.b);
    var e2 := AddEdge(e1, t.b, t.c);
    AddEdgeDistinct(es, t.a, t.b);
    AddEdgeDistinct(e1, t.b, t.c);
    AddEdgeDistinct(e2, t.c, t.a);
  }

  /** No two unique edges join the same vertices, in either orientation. */
  lemma {:induction false} UniqueEdgesDistinct(ts: seq<Tri>)
    ensures NoDuplicateEdges(UniqueEdges(ts))
    decreases |ts|
  {
    if ts != [] {
      UniqueEdgesDistinct(ts[..|ts| - 1]);
      AddTriDistinct(UniqueEdges(ts[..|ts| - 1]), ts[|ts| - 1]);
    }
  }

  /** Every side of t is joined by a listed edge. */
  predicate Covers(es: seq<Edge>, t: Tri)
  {
    Listed(es, t.a, t.b) && Listed(es, t.b, t.c) && Listed(es, t.c, t.a)
  }

  /** A list that covers a triangle keeps covering it when it grows. */
  lemma CoversGrows(es: seq<Edge>, r: seq<Edge>, t: Tri)
    requires es <= r && Covers(es, t)
    ensures Covers(r, t)
  {
    ListedGrows(es, r, t.a, t.b);
    ListedGrows(es, r, t.b, t.c);
    ListedGrows(es, r, t.c, t.a);
  }

  /** Every side of every triangle is joined by one of the unique edges. */
  lemma {:induction false} UniqueEdgesCover(ts: seq<Tri>)
    ensures forall i :: 0 <= i < |ts| ==> Covers(UniqueEdges(ts), ts[i])
    decreases |ts|
  {
    if ts != [] {
      var n := |ts| - 1;
      var init := ts[..n];
      var e0 := UniqueEdges(init);
      var es := UniqueEdges(ts);
      assert es == AddTri(e0, ts[n]);
      UniqueEdgesCover(init);
      AddTriGrows(e0, ts[n]);
      forall i | 0 <= i < |ts| ensures Covers(es, ts[i]) {
        if i < n {
          assert init[i] == ts[i];
          CoversGrows(e0, es, init[i]);
        } else {
          assert Covers(es, ts[n]);
        }
      }
    }
  }

  /** Every unique edge is a directed side of some triangle. */
  lemma {:induction false} UniqueEdgesSound(ts: seq<Tri>)
    ensures EdgesFrom(UniqueEdges(ts), ts)
    decreases |ts|
  {
    if ts != [] {
      var n := |ts| - 1;
      var init := ts[..n];
      var e0 := UniqueEdges(init);
      var es := UniqueEdges(ts);
      UniqueEdgesSound(init);
      AddTriGrows(e0, ts[n]);
      forall k | 0 <= k < |es| ensures EdgeOfSome(ts, es[k].a, es[k].b) {
        if k < |e0| {
          assert es[k] == e0[k];
          var i :| 0 <= i < |init| && TriEdge(init[i], e0[k].a, e0[k].b);
          assert init[i] == ts[i];
        } else {
          assert TriEdge(ts[n], es[k].a, es[k].b);
        }
      }
    }
  }

  /** Edges that are sides of triangles within n vertices are within n vertices. */
  lemma SoundEdgesWithin(es: seq<Edge>, ts: seq<Tri>, n: nat)
    requires EdgesFrom(es, ts) && TrisWithin(ts, n)
    ensures EdgesWithin(es, n)
  {
    forall k | 0 <= k < |es| ensures es[k].a < n && es[k].b < n {
      var i :| 0 <= i < |ts| && TriEdge(ts[i], es[k].a, es[k].b);
    }
  }

  // ---------------------------------------------------------------------------------------
  // The section mesh
  // ---------------------------------------------------------------------------------------

  /** Every face of the section refers to one of n vertices. */
  predicate FacesWithin(fs: seq<Face>, n: nat)
  {
    forall i :: 0 <= i < |fs| ==> fs[i].v1 < n && fs[i].v2 < n && fs[i].v3 < n
  }

  /** Every triangle refers to one of n vertices. */
  predicate TrisWithin(ts: seq<Tri>, n: nat)
  {
    forall i :: 0 <= i < |ts| ==> ts[i].a < n && ts[i].b < n && ts[i].c < n
  }

  /** Every edge refers to one of n vertices. */
  predicate EdgesWithin(es: seq<Edge>, n: nat)
  {
    forall k :: 0 <= k < |es| ==> es[k].a < n && es[k].b < n
  }

  /** Every index that occurs in the triangles appears in their visiting order. */
  lemma CornersVisited(ts: seq<Tri>, i: nat)
    requires i < |ts|
    ensures ts[i].a in Flat(ts) && ts[i].b in Flat(ts) && ts[i].c in Flat(ts)
  {
    FlatAt(ts, i);
  }

  /** Each corner of each triangle has a new index in the table. */
  predicate Renumberable(ts: seq<Tri>, m: map<nat, nat>)
  {
    forall i :: 0 <= i < |ts| ==> ts[i].a in m && ts[i].b in m && ts[i].c in m
  }

  /** The table built over the triangles' visiting order renumbers all their corners. */
  lemma TableCoversTris(ts: seq<Tri>)
    ensures Renumberable(ts, Lut(Flat(ts)))
  {
    forall i | 0 <= i < |ts| ensures ts[i].a in Lut(Flat(ts)) && ts[i].b in Lut(Flat(ts)) && ts[i].c in Lut(Flat(ts)) {
      CornersVisited(ts, i);
      LutBelowSize(Flat(ts), ts[i].a);
      LutBelowSize(Flat(ts), ts[i].b);
      LutBelowSize(Flat(ts), ts[i].c);
    }
  }

  /** The triangles with their corners translated through the table. */
  function Renumber(ts: seq<Tri>, m: map<nat, nat>): (r: seq<Tri>)
    requires Renumberable(ts, m)
    ensures |r| == |ts|
  {
    seq(|ts|, i requires 0 <= i < |ts| => Tri(m[ts[i].a], m[ts[i].b], m[ts[i].c]))
  }

  /** The corners of the faces, in the order the table is built. */
  function Corners(fs: seq<Face>): seq<nat>
  {
    Flat(Winding(fs))
  }

  /** A face index that occurs in the section is visited when the table is built. */
  lemma FaceCornersVisited(fs: seq<Face>, i: nat)
    requires i < |fs|
    ensures fs[i].v1 in Corners(fs) && fs[i].v2 in Corners(fs) && fs[i].v3 in Corners(fs)
  {
    CornersVisited(Winding(fs), i);
  }

  /** The first appearances among a section's corners all lie below n when its faces do. */
  lemma FirstAppearancesWithin(fs: seq<Face>, n: nat)
    requires FacesWithin(fs, n)
    ensures IndicesBelow(FirstAppearance(Corners(fs)), n)
  {
    var o := FirstAppearance(Corners(fs));
    var ts := Winding(fs);
    FirstAppearanceFacts(Corners(fs));
    forall k | 0 <= k < |o| ensures o[k] < n {
      assert o[k] in Flat(ts);
      var j :| 0 <= j < |Flat(ts)| && Flat(ts)[j] == o[k];
      var i := j / 3;
      FlatAt(ts, i);
      assert j == 3 * i || j == 3 * i + 1 || j == 3 * i + 2;
      assert ts[i] == Wind(fs[i]);
    }
  }

  /** Every listed index is below n. */
  predicate IndicesBelow(o: seq<nat>, n: nat)
  {
    forall k :: 0 <= k < |o| ==> o[k] < n
  }

  /** The vertices at the listed indices, in list order: section_mesh_vertices[new] = vertices[old]. */
  function Gather<V>(o: seq<nat>, vertices: seq<V>): (r: seq<V>)
    requires IndicesBelow(o, |vertices|)
    ensures |r| == |o| && forall k :: 0 <= k < |o| ==> r[k] == vertices[o[k]]
  {
    seq(|o|, k requires 0 <= k < |o| => vertices[o[k]])
  }

  /**
   * The mesh of one section over the model's vertices: triangles wound the other way,
   * renumbered through the table, the section's vertices in new-index order, and the
   * unique edges of the renumbered triangles.
   */
  function BuildMesh<V>(fs: seq<Face>, vertices: seq<V>): (r: TriMesh<V>)
    requires FacesWithin(fs, |vertices|)
    ensures |r.tris| == |fs|
  {
    var ts := Winding(fs);
    var m := Lut(Corners(fs));
    var o := FirstAppearance(Corners(fs));
    TableCoversTris(ts);
    FirstAppearancesWithin(fs, |vertices|);
    var rs := Renumber(ts, m);
    TriMesh(Gather(o, vertices), UniqueEdges(rs), rs)
  }

  /** Corner v of the section, which has new index m[v], is the model's vertex v. */
  lemma NewIndexLeadsBack<V>(fs: seq<Face>, vertices: seq<V>, v: nat)
    requires FacesWithin(fs, |vertices|) && v in Corners(fs)
    ensures var m := Lut(Corners(fs));
      v < |vertices| && v in m && m[v] < |BuildMesh(fs, vertices).vertices| && BuildMesh(fs, vertices).vertices[m[v]] == vertices[v]
  {
    LutBelowSize(Corners(fs), v);
    LutIsFirstAppearance(Corners(fs));
    FirstAppearancesWithin(fs, |vertices|);
  }

  /**
   * The section mesh keeps the geometry: it has one vertex per distinct index its faces use,
   * each renumbered triangle i lies on the model's vertices of face i taken in the order
   * (v1, v3, v2), and every triangle and edge index is a vertex of the section.
   */
  lemma {:induction false} BuildMeshCorrect<V>(fs: seq<Face>, vertices: seq<V>)
    requires FacesWithin(fs, |vertices|)
    ensures var r := BuildMesh(fs, vertices);
      && |r.vertices| == |FirstAppearance(Corners(fs))|
      && TrisWithin(r.tris, |r.vertices|)
      && (forall i :: 0 <= i < |fs| ==>
            && r.vertices[r.tris[i].a] == vertices[fs[i].v1]
            && r.vertices[r.tris[i].b] == vertices[fs[i].v3]
            && r.vertices[r.tris[i].c] == vertices[fs[i].v2])
  {
    var r := BuildMesh(fs, vertices);
    var ts := Winding(fs);
    var m := Lut(Flat(ts));
    forall i | 0 <= i < |fs|
      ensures && r.tris[i].a < |r.vertices| && r.tris[i].b < |r.vertices| && r.tris[i].c < |r.vertices|
              && r.vertices[r.tris[i].a] == vertices[fs[i].v1]
              && r.vertices[r.tris[i].b] == vertices[fs[i].v3]
              && r.vertices[r.tris[i].c] == vertices[fs[i].v2]
    {
      assert ts[i] == Wind(fs[i]);
      FaceCornersVisited(fs, i);
      NewIndexLeadsBack(fs, vertices, fs[i].v1);
      NewIndexLeadsBack(fs, vertices, fs[i].v2);
      NewIndexLeadsBack(fs, vertices, fs[i].v3);
    }
  }

  /**
   * The section's edges are its unique edges: no duplicates in either orientation, every
   * triangle side listed, every edge a triangle side, and every edge index a vertex of the
   * section.
   */
  lemma BuildMeshEdges<V>(fs: seq<Face>, vertices: seq<V>)
    requires FacesWithin(fs, |vertices|)
    ensures var r := BuildMesh(fs, vertices);
      && NoDuplicateEdges(r.edges)
      && (forall i :: 0 <= i < |r.tris| ==> Covers(r.edges, r.tris[i]))
      && EdgesFrom(r.edges, r.tris)
      && EdgesWithin(r.edges, |r.vertices|)
  {
    var r := BuildMesh(fs, vertices);
    assert r.edges == UniqueEdges(r.tris);
    UniqueEdgesDistinct(r.tris);
    UniqueEdgesCover(r.tris);
    UniqueEdgesSound(r.tris);
    BuildMeshCorrect(fs, vertices);
    SoundEdgesWithin(r.edges, r.tris, |r.vertices|);
  }
}
