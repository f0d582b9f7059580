/**
 * The parts of the geometry kernel (`gVertex`, `gEdge`) that the core touches.
 * The kernel itself is not part of this model: a vertex is three coordinates
 * (reals, standing for doubles) and the id of the polygon it belongs to, which
 * `gPolygon.AddVertex` overwrites; an edge is its start and end vertex.
 */
module Geometry {

  class Vertex {
    const x: real
    const y: real
    const z: real
    var polygonId: int

    constructor (x: real, y: real, z: real, polygonId: int)
      ensures this.x == x && this.y == y && this.z == z && this.polygonId == polygonId
    {
      this.x, this.y, this.z := x, y, z;
      this.polygonId := polygonId;
    }
  }

  /** `gEdge`, built by `new gEdge(start, end)`. */
  datatype Edge = Edge(start: Vertex, end: Vertex)
}
