/**
 * `gBoundingBox` (Graphical/src/Geometry/gBoundingBox.cs): an axis-aligned box
 * given by its minimum and maximum corners, each three coordinates X, Y, Z.
 * The source keeps them in `double[]` arrays; here they are sequences of reals.
 */
module BoundingBoxes {
  import opened Wrappers
  import opened Geometry

  datatype BoxError = ArgumentException

  datatype BoundingBox = BoundingBox(min: seq<real>, max: seq<real>)

  /** What the internal constructor guarantees: three coordinates in each corner. */
  predicate WellFormed(box: BoundingBox)
  {
    |box.min| == 3 && |box.max| == 3
  }

  /** The box is not empty: its minimum is not above its maximum on any axis. */
  predicate Proper(box: BoundingBox)
    requires WellFormed(box)
  {
    forall k :: 0 <= k < 3 ==> box.min[k] <= box.max[k]
  }

  /** The point `p` (X, Y, Z) lies in the closed box. */
  predicate Contains(box: BoundingBox, p: seq<real>)
    requires WellFormed(box) && |p| == 3
  {
    forall k :: 0 <= k < 3 ==> box.min[k] <= p[k] <= box.max[k]
  }

  /** The closed intervals `[lo1, hi1]` and `[lo2, hi2]` share a point. */
  predicate Overlap(lo1: real, hi1: real, lo2: real, hi2: real)
  {
    lo1 <= hi2 && hi1 >= lo2
  }

  /**
   * The internal constructor `gBoundingBox(min, max)`: `ArgumentException`
   * unless both arrays hold exactly three coordinates; otherwise a box with
   * exactly those corners.
   */
  function New(min: seq<real>, max: seq<real>): (r: Result<BoundingBox, BoxError>)
    ensures r.Failure? <==> |min| != 3 || |max| != 3
    ensures r.Success? ==> WellFormed(r.value) && r.value.min == min && r.value.max == max
  {
    if |min| != 3 || |max| != 3 then Failure(ArgumentException) else Success(BoundingBox(min, max))
  }

  /** `ByMinVertexMaxVertex`: the corners are the X, Y, Z of the two vertices, in that order. */
  function ByMinVertexMaxVertex(min: Vertex, max: Vertex): (r: BoundingBox)
    ensures WellFormed(r)
    ensures r.min[0] == min.x && r.min[1] == min.y && r.min[2] == min.z
    ensures r.max[0] == max.x && r.max[1] == max.y && r.max[2] == max.z
  {
    var b := New([min.x, min.y, min.z], [max.x, max.y, max.z]);
    b.value
  }

  /** When the first vertex is below the second on every axis, the box holds both and is proper. */
  lemma ByMinVertexMaxVertexContainsCorners(min: Vertex, max: Vertex)
    requires min.x <= max.x && min.y <= max.y && min.z <= max.z
    ensures Proper(ByMinVertexMaxVertex(min, max))
    ensures Contains(ByMinVertexMaxVertex(min, max), [min.x, min.y, min.z])
    ensures Contains(ByMinVertexMaxVertex(min, max), [max.x, max.y, max.z])
  {
  }

  /** `Intersects`: the closed intervals of the two boxes overlap on each of the three axes. */
  function Intersects(a: BoundingBox, b: BoundingBox): (r: bool)
    requires WellFormed(a) && WellFormed(b)
    ensures r <==> forall k :: 0 <= k < 3 ==> Overlap(a.min[k], a.max[k], b.min[k], b.max[k])
  {
    (a.min[0] <= b.max[0]) && (a.max[0] >= b.min[0]) &&
    (a.min[1] <= b.max[1]) && (a.max[1] >= b.min[1]) &&
    (a.min[2] <= b.max[2]) && (a.max[2] >= b.min[2])
  }

  lemma IntersectsSymmetric(a: BoundingBox, b: BoundingBox)
    requires WellFormed(a) && WellFormed(b)
    ensures Intersects(a, b) == Intersects(b, a)
  {
  }

  /**
   * The comparisons are not strict: boxes that meet on one axis (here X) and
   * overlap on the other two intersect, so a shared face, edge or corner counts.
   */
  lemma TouchingBoxesIntersect(a: BoundingBox, b: BoundingBox)
    requires WellFormed(a) && WellFormed(b) && Proper(a) && Proper(b)
    requires a.max[0] == b.min[0]
    requires Overlap(a.min[1], a.max[1], b.min[1], b.max[1]) && Overlap(a.min[2], a.max[2], b.min[2], b.max[2])
    ensures Intersects(a, b)
  {
    assert Overlap(a.min[0], a.max[0], b.min[0], b.max[0]);
  }

  /** In particular, boxes whose only common point is a corner intersect. */
  lemma CornerTouchingBoxesIntersect(a: BoundingBox, b: BoundingBox)
    requires WellFormed(a) && WellFormed(b) && Proper(a) && Proper(b)
    requires a.max[0] == b.min[0] && a.max[1] == b.min[1] && a.max[2] == b.min[2]
    ensures Intersects(a, b)
  {
    TouchingBoxesIntersect(a, b);
  }

  /** A box intersects itself exactly when it is proper. */
  lemma SelfIntersects(a: BoundingBox)
    requires WellFormed(a)
    ensures Intersects(a, a) <==> Proper(a)
  {
  }

  /** A point that lies in both boxes makes them intersect. */
  lemma CommonPointIntersects(a: BoundingBox, b: BoundingBox, p: seq<real>)
    requires WellFormed(a) && WellFormed(b) && |p| == 3
    requires Contains(a, p) && Contains(b, p)
    ensures Intersects(a, b)
  {
    assert Overlap(a.min[0], a.max[0], b.min[0], b.max[0]);
    assert Overlap(a.min[1], a.max[1], b.min[1], b.max[1]);
    assert Overlap(a.min[2], a.max[2], b.min[2], b.max[2]);
  }

  function Max(x: real, y: real): real
  {
    if x < y then y else x
  }

  /** Intersecting proper boxes share a point: on each axis, the larger of the two minima. */
  lemma IntersectingBoxesShareAPoint(a: BoundingBox, b: BoundingBox) returns (p: seq<real>)
    requires WellFormed(a) && WellFormed(b) && Proper(a) && Proper(b)
    requires Intersects(a, b)
    ensures |p| == 3 && Contains(a, p) && Contains(b, p)
  {
    p := [Max(a.min[0], b.min[0]), Max(a.min[1], b.min[1]), Max(a.min[2], b.min[2])];
    forall k | 0 <= k < 3
      ensures a.min[k] <= p[k] <= a.max[k] && b.min[k] <= p[k] <= b.max[k]
    {
      assert Overlap(a.min[k], a.max[k], b.min[k], b.max[k]);
      assert a.min[k] <= a.max[k] && b.min[k] <= b.max[k];
    }
  }

  /** For proper boxes `Intersects` is exactly "some point lies in both". */
  lemma IntersectsIffCommonPoint(a: BoundingBox, b: BoundingBox)
    requires WellFormed(a) && WellFormed(b) && Proper(a) && Proper(b)
    ensures Intersects(a, b) <==> exists p :: |p| == 3 && Contains(a, p) && Contains(b, p)
  {
    if Intersects(a, b) {
      var p := IntersectingBoxesShareAPoint(a, b);
    }
    if exists p :: |p| == 3 && Contains(a, p) && Contains(b, p) {
      var p :| |p| == 3 && Contains(a, p) && Contains(b, p);
      CommonPointIntersects(a, b, p);
    }
  }
}
