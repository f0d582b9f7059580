/**
 * `SweepVertex` (Graphical/src/Core/SweepLine.cs): an event point of the
 * Bentley-Ottmann sweep, ordered by X and then by Y, with both comparisons
 * made under the geometry kernel's tolerance.
 *
 * The kernel's `gBase.Threshold` (are two coordinates equal within tolerance?)
 * and `gVertex.Equals` are not part of this model; they are passed in as a
 * `Tolerance`. The sweep-line engine itself is not modelled.
 */
module SweepLine {
  import opened Wrappers
  import opened Geometry

  /** The kernel predicates that `CompareTo` consults. */
  datatype Tolerance = Tolerance(threshold: (real, real) -> bool, equals: (Vertex, Vertex) -> bool)

  /**
   * What the antisymmetry argument needs of `Threshold`: it is symmetric, and a
   * coordinate is within tolerance of itself.
   */
  ghost predicate ThresholdWellBehaved(tol: Tolerance)
  {
    && (forall a: real, b: real :: tol.threshold(a, b) == tol.threshold(b, a))
    && (forall a: real :: tol.threshold(a, a))
  }

  /** `Equals` is symmetric on the two vertices at hand. */
  predicate EqualsSymmetricOn(tol: Tolerance, u: Vertex, v: Vertex)
  {
    tol.equals(u, v) == tol.equals(v, u)
  }

  /** A sweep event: the vertex, the edge it belongs to, and whether it starts that edge. */
  datatype SweepVertex = SweepVertex(vertex: Vertex, edge: Edge, isStart: bool)

  /** The two vertices are the same sweep position: `Equals`, or within tolerance on both X and Y. */
  predicate SamePosition(tol: Tolerance, u: Vertex, v: Vertex)
  {
    tol.equals(u, v) || (tol.threshold(u.x, v.x) && tol.threshold(u.y, v.y))
  }

  /**
   * `u` comes strictly before `v` in sweep order: smaller X when the X
   * coordinates are apart, smaller Y when only the Y coordinates are apart.
   */
  predicate SweepsBefore(tol: Tolerance, u: Vertex, v: Vertex)
  {
    if !tol.threshold(u.x, v.x) then u.x < v.x else !tol.threshold(u.y, v.y) && u.y < v.y
  }

  /**
   * `SweepVertex.CompareTo`: -1 against null, 0 for the same position,
   * otherwise -1 or 1 by the sweep order. Z plays no part.
   */
  function CompareTo(tol: Tolerance, self: SweepVertex, other: Option<SweepVertex>): (r: int)
    ensures r == -1 || r == 0 || r == 1
    ensures other.None? ==> r == -1
    ensures other.Some? ==> (r == 0 <==> SamePosition(tol, self.vertex, other.value.vertex))
    ensures other.Some? ==>
      (r == -1 <==> !SamePosition(tol, self.vertex, other.value.vertex) && SweepsBefore(tol, self.vertex, other.value.vertex))
  {
    match other
    case None => -1
    case Some(o) =>
      if tol.equals(self.vertex, o.vertex) then 0
      else if tol.threshold(self.vertex.x, o.vertex.x) then
        if tol.threshold(self.vertex.y, o.vertex.y) then 0
        else if self.vertex.y < o.vertex.y then -1 else 1
      else if self.vertex.x < o.vertex.x then -1 else 1
  }

  /** `sw1 < sw2`: the right operand is null, or `sw1` sweeps strictly before it. */
  predicate Less(tol: Tolerance, sw1: SweepVertex, sw2: Option<SweepVertex>): (r: bool)
    ensures r <==> (sw2.None? ||
      (!SamePosition(tol, sw1.vertex, sw2.value.vertex) && SweepsBefore(tol, sw1.vertex, sw2.value.vertex)))
  {
    CompareTo(tol, sw1, sw2) == -1
  }

  /** `sw1 > sw2`: the right operand is not null and `sw1` sweeps strictly after it. */
  predicate Greater(tol: Tolerance, sw1: SweepVertex, sw2: Option<SweepVertex>): (r: bool)
    ensures r <==> (sw2.Some? &&
      !SamePosition(tol, sw1.vertex, sw2.value.vertex) && !SweepsBefore(tol, sw1.vertex, sw2.value.vertex))
  {
    CompareTo(tol, sw1, sw2) == 1
  }

  /** `sw1 <= sw2`: the right operand is null, or the two share a position, or `sw1` sweeps before it. */
  predicate AtMost(tol: Tolerance, sw1: SweepVertex, sw2: Option<SweepVertex>): (r: bool)
    ensures r <==> (sw2.None? ||
      SamePosition(tol, sw1.vertex, sw2.value.vertex) || SweepsBefore(tol, sw1.vertex, sw2.value.vertex))
  {
    CompareTo(tol, sw1, sw2) <= 0
  }

  /** `sw1 >= sw2`: the right operand is not null, and the two share a position or `sw1` sweeps after it. */
  predicate AtLeast(tol: Tolerance, sw1: SweepVertex, sw2: Option<SweepVertex>): (r: bool)
    ensures r <==> (sw2.Some? &&
      (SamePosition(tol, sw1.vertex, sw2.value.vertex) || !SweepsBefore(tol, sw1.vertex, sw2.value.vertex)))
  {
    CompareTo(tol, sw1, sw2) >= 0
  }

  /** Vertices that `Equals` each other compare 0, whatever their coordinates. */
  lemma EqualVerticesCompareZero(tol: Tolerance, a: SweepVertex, b: SweepVertex)
    requires tol.equals(a.vertex, b.vertex)
    ensures CompareTo(tol, a, Some(b)) == 0
  {
  }

  /** X and Y within tolerance give 0, whatever the Z coordinates are. */
  lemma ZIgnored(tol: Tolerance, a: SweepVertex, b: SweepVertex, c: SweepVertex)
    requires b.vertex.x == c.vertex.x && b.vertex.y == c.vertex.y
    requires tol.equals(a.vertex, b.vertex) == tol.equals(a.vertex, c.vertex)
    ensures CompareTo(tol, a, Some(b)) == CompareTo(tol, a, Some(c))
  {
  }

  /** Antisymmetry: for non-null operands, `a.CompareTo(b) == -b.CompareTo(a)`. */
  lemma Antisymmetric(tol: Tolerance, a: SweepVertex, b: SweepVertex)
    requires ThresholdWellBehaved(tol) && EqualsSymmetricOn(tol, a.vertex, b.vertex)
    ensures CompareTo(tol, a, Some(b)) == -CompareTo(tol, b, Some(a))
  {
    var u, v := a.vertex, b.vertex;
    assert tol.threshold(u.x, v.x) == tol.threshold(v.x, u.x);
    assert tol.threshold(u.y, v.y) == tol.threshold(v.y, u.y);
    if u.x == v.x {
      assert tol.threshold(u.x, u.x);
    }
    if u.y == v.y {
      assert tol.threshold(u.y, u.y);
    }
  }

  /**
   * Without a reflexive `Threshold` antisymmetry fails: two vertices at the
   * same X and Y that are not `Equals` either way, and whose X is not within
   * tolerance of itself, compare 1 both ways.
   */
  lemma NeedsReflexiveThreshold(tol: Tolerance, a: SweepVertex, b: SweepVertex)
    requires a.vertex.x == b.vertex.x && a.vertex.y == b.vertex.y
    requires !tol.threshold(a.vertex.x, a.vertex.x)
    requires !tol.equals(a.vertex, b.vertex) && !tol.equals(b.vertex, a.vertex)
    ensures CompareTo(tol, a, Some(b)) == 1 && CompareTo(tol, b, Some(a)) == 1
  {
  }

  /** The four operators read `CompareTo` as a total order would: each relation is the converse or complement of another. */
  lemma OperatorsConsistent(tol: Tolerance, a: SweepVertex, b: SweepVertex)
    requires ThresholdWellBehaved(tol) && EqualsSymmetricOn(tol, a.vertex, b.vertex)
    ensures Less(tol, a, Some(b)) <==> Greater(tol, b, Some(a))
    ensures AtMost(tol, a, Some(b)) <==> AtLeast(tol, b, Some(a))
    ensures AtMost(tol, a, Some(b)) <==> !Greater(tol, a, Some(b))
    ensures AtLeast(tol, a, Some(b)) <==> !Less(tol, a, Some(b))
    ensures AtMost(tol, a, Some(b)) || AtLeast(tol, a, Some(b))
    ensures AtMost(tol, a, Some(b)) && AtLeast(tol, a, Some(b)) <==> SamePosition(tol, a.vertex, b.vertex)
  {
    Antisymmetric(tol, a, b);
  }

  /** Every sweep vertex is below null: `<` and `<=` hold, `>` and `>=` do not. */
  lemma NullIsLast(tol: Tolerance, a: SweepVertex)
    ensures Less(tol, a, None) && AtMost(tol, a, None)
    ensures !Greater(tol, a, None) && !AtLeast(tol, a, None)
  {
  }

  /**
   * Tolerance equality is not transitive, so neither is "compares 0": with a
   * tolerance of 1, X = 0 and X = 1 compare 0, X = 1 and X = 2 compare 0,
   * but X = 0 comes before X = 2.
   */
  lemma NotTransitive(a: SweepVertex, b: SweepVertex, c: SweepVertex)
    requires a.vertex.x == 0.0 && b.vertex.x == 1.0 && c.vertex.x == 2.0
    requires a.vertex.y == 0.0 && b.vertex.y == 0.0 && c.vertex.y == 0.0
    ensures var tol := Tolerance((p: real, q: real) => -1.0 <= p - q <= 1.0, (u: Vertex, v: Vertex) => u == v);
      CompareTo(tol, a, Some(b)) == 0 && CompareTo(tol, b, Some(c)) == 0 && CompareTo(tol, a, Some(c)) == -1
  {
  }
}
