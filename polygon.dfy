/**
 * `gPolygon` (Graphical/src/Geometry/gPolygon.cs): a polygon as an id, a
 * boundary flag and two lists that it owns and updates in place, its
 * vertices and its edges. When built from vertices, the edges run from each
 * vertex to the next one and the last edge closes back to the first vertex.
 */
module Polygons {
  import opened Wrappers
  import opened Collections
  import opened Geometry
  import opened BoundingBoxes

  datatype PolygonError = InvalidOperationException

  /** The closed ring of edges through `vs`: edge `j` runs from `vs[j]` to `vs[(j + 1) % |vs|]`. */
  function CyclicEdges(vs: seq<Vertex>): seq<Edge>
  {
    seq(|vs|, j requires 0 <= j < |vs| => Edge(vs[j], vs[(j + 1) % |vs|]))
  }

  /** The start vertices of a list of edges, in order. */
  function Starts(es: seq<Edge>): seq<Vertex>
  {
    seq(|es|, j requires 0 <= j < |es| => es[j].start)
  }

  /**
   * The ring has one edge per vertex, each edge ends where the next one starts,
   * the last one ends where the first starts, and reading off the start
   * vertices gives the vertex list back.
   */
  lemma CyclicEdgesRing(vs: seq<Vertex>)
    ensures |CyclicEdges(vs)| == |vs|
    ensures Starts(CyclicEdges(vs)) == vs
    ensures forall j :: 0 <= j < |vs| - 1 ==> CyclicEdges(vs)[j].end == CyclicEdges(vs)[j + 1].start
    ensures |vs| > 0 ==> CyclicEdges(vs)[|vs| - 1].end == CyclicEdges(vs)[0].start
  {
    var es := CyclicEdges(vs);
    var n := |vs|;
    forall j | 0 <= j < n - 1
      ensures es[j].end == es[j + 1].start
    {
      EdgeAt(vs, j);
    }
    if n > 0 {
      EdgeAt(vs, n - 1);
    }
    assert Starts(es) == vs;
  }

  /** The index after `i` round a ring of `n`. */
  function Next(i: nat, n: nat): nat
  {
    if i + 1 == n then 0 else i + 1
  }

  lemma EdgeAt(vs: seq<Vertex>, i: nat)
    requires i < |vs|
    ensures CyclicEdges(vs)[i] == Edge(vs[i], vs[Next(i, |vs|)])
  {
    if i + 1 < |vs| {
      assert (i + 1) % |vs| == i + 1;
    } else {
      assert (i + 1) % |vs| == 0;
    }
  }

  /**
   * Inserting `v` right after `vs[j]` and rebuilding the ring splits edge `j`
   * into two edges through `v` and leaves every other edge where it was.
   */
  lemma InsertAfterSplitsEdge(vs: seq<Vertex>, j: nat, v: Vertex)
    requires j < |vs|
    ensures var n := |vs|;
      CyclicEdges(vs[..j + 1] + [v] + vs[j + 1..])
      == CyclicEdges(vs)[..j] + [Edge(vs[j], v), Edge(v, vs[(j + 1) % n])] + CyclicEdges(vs)[j + 1..]
  {
    var n := |vs|;
    var ws := vs[..j + 1] + [v] + vs[j + 1..];
    var es := CyclicEdges(vs);
    EdgeAt(vs, j);
    var lhs := CyclicEdges(ws);
    var rhs := es[..j] + [Edge(vs[j], v), Edge(v, vs[Next(j, n)])] + es[j + 1..];
    assert |lhs| == |rhs| == n + 1;
    forall i | 0 <= i < n + 1
      ensures lhs[i] == rhs[i]
    {
      EdgeAt(ws, i);
      if i < j {
        EdgeAt(vs, i);
        assert ws[i] == vs[i] && ws[i + 1] == vs[i + 1];
      } else if i == j {
        assert ws[i] == vs[j] && ws[i + 1] == v;
      } else if i == j + 1 {
        assert ws[i] == v;
        assert ws[Next(i, n + 1)] == vs[Next(j, n)];
      } else {
        EdgeAt(vs, i - 1);
        assert rhs[i] == es[i - 1];
        assert ws[i] == vs[i - 1];
        assert ws[Next(i, n + 1)] == vs[Next(i - 1, n)];
      }
    }
  }

  /**
   * Inserting `v` in front (where `AddVertex` puts it when the edge's start
   * vertex is not found) puts an edge from `v` to the old first vertex in front,
   * keeps the other edges, and replaces the closing edge by one into `v`.
   */
  lemma InsertAtFrontReplacesClosingEdge(vs: seq<Vertex>, v: Vertex)
    requires |vs| > 0
    ensures var n := |vs|;
      CyclicEdges([v] + vs) == [Edge(v, vs[0])] + CyclicEdges(vs)[..n - 1] + [Edge(vs[n - 1], v)]
  {
    var n := |vs|;
    var ws := [v] + vs;
    var es := CyclicEdges(vs);
    var lhs := CyclicEdges(ws);
    var rhs := [Edge(v, vs[0])] + es[..n - 1] + [Edge(vs[n - 1], v)];
    assert |lhs| == |rhs| == n + 1;
    forall i | 0 <= i < n + 1
      ensures lhs[i] == rhs[i]
    {
      EdgeAt(ws, i);
      if 0 < i < n {
        EdgeAt(vs, i - 1);
        assert rhs[i] == es[i - 1];
      }
    }
  }

  /** The smallest element (LINQ `Min`, which needs at least one element). */
  function SeqMin(s: seq<real>): (m: real)
    requires |s| > 0
    ensures m in s
    ensures forall x :: x in s ==> m <= x
  {
    if |s| == 1 then s[0]
    else
      var rest := SeqMin(s[1..]);
      assert forall x :: x in s ==> x == s[0] || x in s[1..];
      if s[0] <= rest then s[0] else rest
  }

  /** The largest element (LINQ `Max`, which needs at least one element). */
  function SeqMax(s: seq<real>): (m: real)
    requires |s| > 0
    ensures m in s
    ensures forall x :: x in s ==> x <= m
  {
    if |s| == 1 then s[0]
    else
      var rest := SeqMax(s[1..]);
      assert forall x :: x in s ==> x == s[0] || x in s[1..];
      if s[0] >= rest then s[0] else rest
  }

  /** A vertex as the coordinate triple a bounding box is compared with. */
  function Point(v: Vertex): seq<real>
  {
    [v.x, v.y, v.z]
  }

  class Polygon {
    var id: int
    var isBoundary: bool
    var edges: List<Edge>
    var vertices: List<Vertex>

    /** `gPolygon(id, isExternal)`: empty, fresh vertex and edge lists. */
    constructor (id: int, isExternal: bool)
      ensures this.id == id && isBoundary == isExternal
      ensures fresh(edges) && fresh(vertices)
      ensures edges.elements == [] && vertices.elements == []
    {
      this.id := id;
      isBoundary := isExternal;
      edges := new List<Edge>();
      vertices := new List<Vertex>();
    }

    /**
     * `ByVertices`: id -1, the given boundary flag (false by default), the caller's vertex list
     * itself (not a copy), and a fresh edge list holding the closed ring
     * through the vertices.
     */
    static method ByVertices(vertices: List<Vertex>, isExternal: bool := false) returns (polygon: Polygon)
      ensures fresh(polygon) && fresh(polygon.edges)
      ensures polygon.id == -1 && polygon.isBoundary == isExternal
      ensures polygon.vertices == vertices && vertices.elements == old(vertices.elements)
      ensures polygon.edges.elements == CyclicEdges(vertices.elements)
    {
      polygon := new Polygon(-1, isExternal);
      polygon.vertices := vertices;
      var vertexCount := vertices.Count();
      for j := 0 to vertexCount
        invariant fresh(polygon.edges)
        invariant polygon.id == -1 && polygon.isBoundary == isExternal
        invariant polygon.vertices == vertices && vertices.elements == old(vertices.elements)
        invariant polygon.edges.elements == CyclicEdges(vertices.elements)[..j]
      {
        var nextIndex := (j + 1) % vertexCount;
        var vertex := vertices.elements[j];
        var nextVertex := vertices.elements[nextIndex];
        polygon.edges.Add(Edge(vertex, nextVertex));
      }
    }

    /** `AddVertex(vertex)`: the vertex now belongs to this polygon and is appended; the edges are left as they are. */
    method AddVertex(vertex: Vertex)
      modifies vertex, vertices
      ensures vertex.polygonId == id
      ensures vertices.elements == old(vertices.elements) + [vertex]
      ensures edges.elements == old(edges.elements)
    {
      vertex.polygonId := id;
      vertices.Add(vertex);
    }

    /** `Clone`: same id and flag, fresh lists holding the same elements in the same order. */
    method Clone() returns (newPolygon: Polygon)
      ensures fresh(newPolygon) && fresh(newPolygon.edges) && fresh(newPolygon.vertices)
      ensures newPolygon.id == id && newPolygon.isBoundary == isBoundary
      ensures newPolygon.edges.elements == edges.elements && newPolygon.vertices.elements == vertices.elements
    {
      newPolygon := new Polygon(id, isBoundary);
      newPolygon.edges := new List<Edge>.Copy(edges.elements);
      newPolygon.vertices := new List<Vertex>.Copy(vertices.elements);
    }

    /**
     * `AddVertex(v, intersectingEdge)`: a clone with `v` inserted right after
     * the first vertex that `Equals` the edge's start (at the front when there
     * is none) and its edges rebuilt as the closed ring; `v` now belongs to
     * this polygon, whose own lists are left untouched. When this polygon's
     * edges were the ring through its vertices, the clone's edges are the same
     * ring with the edge leaving the start vertex split at `v`.
     */
    method AddVertexOnEdge(v: Vertex, intersectingEdge: Edge, eq: (Vertex, Vertex) -> bool) returns (newPolygon: Polygon)
      modifies v
      ensures fresh(newPolygon) && fresh(newPolygon.edges) && fresh(newPolygon.vertices)
      ensures newPolygon.id == id && newPolygon.isBoundary == isBoundary
      ensures v.polygonId == id
      ensures var vs := old(vertices.elements); var index := IndexOf(vs, intersectingEdge.start, eq);
        newPolygon.vertices.elements == vs[..index + 1] + [v] + vs[index + 1..]
      ensures newPolygon.edges.elements == CyclicEdges(newPolygon.vertices.elements)
      ensures vertices.elements == old(vertices.elements) && edges.elements == old(edges.elements)
      ensures var vs := old(vertices.elements); var index := IndexOf(vs, intersectingEdge.start, eq);
        old(edges.elements) == CyclicEdges(vs) && 0 <= index ==>
          newPolygon.edges.elements
          == old(edges.elements)[..index] + [Edge(vs[index], v), Edge(v, vs[(index + 1) % |vs|])] + old(edges.elements)[index + 1..]
    {
      ghost var vs, es := vertices.elements, edges.elements;
      newPolygon := Clone();
      v.polygonId := id;
      var index := IndexOf(newPolygon.vertices.elements, intersectingEdge.start, eq);
      newPolygon.vertices.Insert(index + 1, v);
      assert newPolygon.vertices.elements == vs[..index + 1] + [v] + vs[index + 1..];
      newPolygon.RebuildEdges();
      assert vertices.elements == vs && edges.elements == es;
      if 0 <= index {
        InsertAfterSplitsEdge(vs, index, v);
      }
    }

    /** The tail of `AddVertex(v, intersectingEdge)`: clear the edges and lay the closed ring through the vertices. */
    method RebuildEdges()
      modifies edges
      ensures edges.elements == CyclicEdges(vertices.elements)
    {
      edges.Clear();
      var verticesCount := vertices.Count();
      for i := 0 to verticesCount
        invariant edges.elements == CyclicEdges(vertices.elements)[..i]
      {
        var nextIndex := (i + 1) % verticesCount;
        edges.Add(Edge(vertices.elements[i], vertices.elements[nextIndex]));
      }
    }

    /**
     * `ComputeBoundingBox`: the per-axis minima and maxima of the vertex
     * coordinates. LINQ's `Min` throws on an empty polygon. Otherwise every
     * vertex lies in the box and each face of the box touches some vertex.
     */
    method ComputeBoundingBox() returns (r: Result<BoundingBox, PolygonError>)
      ensures r.Failure? <==> vertices.elements == []
      ensures r.Success? ==> WellFormed(r.value) && Encloses(vertices.elements, r.value) && FacesTouch(vertices.elements, r.value)
    {
      var vs := vertices.elements;
      var xCoord, yCoord, zCoord := [], [], [];
      for i := 0 to |vs|
        invariant |xCoord| == |yCoord| == |zCoord| == i
        invariant forall j :: 0 <= j < i ==> xCoord[j] == vs[j].x && yCoord[j] == vs[j].y && zCoord[j] == vs[j].z
      {
        xCoord := xCoord + [vs[i].x];
        yCoord := yCoord + [vs[i].y];
        zCoord := zCoord + [vs[i].z];
      }
      if vs == [] {
        return Failure(InvalidOperationException);
      }
      var box := New([SeqMin(xCoord), SeqMin(yCoord), SeqMin(zCoord)], [SeqMax(xCoord), SeqMax(yCoord), SeqMax(zCoord)]);
      r := Success(box.value);
      CoordinatesBound(vs, xCoord, yCoord, zCoord, box.value);
    }
  }

  /** Some vertex has coordinate `r` on axis `k`. */
  ghost predicate Attained(vs: seq<Vertex>, k: nat, r: real)
    requires k < 3
  {
    exists i :: 0 <= i < |vs| && Point(vs[i])[k] == r
  }

  /** Every vertex lies in the box. */
  ghost predicate Encloses(vs: seq<Vertex>, box: BoundingBox)
    requires WellFormed(box)
  {
    forall i :: 0 <= i < |vs| ==> Contains(box, Point(vs[i]))
  }

  /** Each face of the box touches some vertex: every minimum and maximum is some vertex's coordinate. */
  ghost predicate FacesTouch(vs: seq<Vertex>, box: BoundingBox)
    requires WellFormed(box)
  {
    forall k :: 0 <= k < 3 ==> Attained(vs, k, box.min[k]) && Attained(vs, k, box.max[k])
  }

  /** One axis of `CoordinatesBound`: the list's minimum and maximum bound every vertex's coordinate and are attained. */
  lemma AxisBound(vs: seq<Vertex>, cs: seq<real>, k: nat)
    requires |vs| > 0 && |cs| == |vs| && k < 3
    requires forall j :: 0 <= j < |vs| ==> cs[j] == Point(vs[j])[k]
    ensures forall i :: 0 <= i < |vs| ==> SeqMin(cs) <= Point(vs[i])[k] <= SeqMax(cs)
    ensures Attained(vs, k, SeqMin(cs)) && Attained(vs, k, SeqMax(cs))
  {
    forall i | 0 <= i < |vs|
      ensures SeqMin(cs) <= Point(vs[i])[k] <= SeqMax(cs)
    {
      assert cs[i] in cs;
    }
    var lo :| 0 <= lo < |cs| && cs[lo] == SeqMin(cs);
    var hi :| 0 <= hi < |cs| && cs[hi] == SeqMax(cs);
    assert Point(vs[lo])[k] == SeqMin(cs);
    assert Point(vs[hi])[k] == SeqMax(cs);
  }

  /** The box built from the coordinate lists' minima and maxima holds every vertex and each face touches one. */
  lemma CoordinatesBound(vs: seq<Vertex>, xs: seq<real>, ys: seq<real>, zs: seq<real>, box: BoundingBox)
    requires |vs| > 0 && |xs| == |ys| == |zs| == |vs|
    requires forall j :: 0 <= j < |vs| ==> xs[j] == vs[j].x && ys[j] == vs[j].y && zs[j] == vs[j].z
    requires box == BoundingBox([SeqMin(xs), SeqMin(ys), SeqMin(zs)], [SeqMax(xs), SeqMax(ys), SeqMax(zs)])
    ensures WellFormed(box) && Encloses(vs, box) && FacesTouch(vs, box)
  {
    AxisBound(vs, xs, 0);
    AxisBound(vs, ys, 1);
    AxisBound(vs, zs, 2);
    forall i | 0 <= i < |vs|
      ensures Contains(box, Point(vs[i]))
    {
      assert SeqMin(xs) <= vs[i].x <= SeqMax(xs) by { assert Point(vs[i])[0] == vs[i].x; }
      assert SeqMin(ys) <= vs[i].y <= SeqMax(ys) by { assert Point(vs[i])[1] == vs[i].y; }
      assert SeqMin(zs) <= vs[i].z <= SeqMax(zs) by { assert Point(vs[i])[2] == vs[i].z; }
    }
    forall k | 0 <= k < 3
      ensures Attained(vs, k, box.min[k]) && Attained(vs, k, box.max[k])
    {
      if k == 0 {
        assert box.min[k] == SeqMin(xs) && box.max[k] == SeqMax(xs);
      } else if k == 1 {
        assert box.min[k] == SeqMin(ys) && box.max[k] == SeqMax(ys);
      } else {
        assert box.min[k] == SeqMin(zs) && box.max[k] == SeqMax(zs);
      }
    }
  }
}
