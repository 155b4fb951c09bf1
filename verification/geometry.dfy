/**
  The collaborators of the scan-edge builder whose code is not part of this
  model: points, the tessellated multipolygon, the tolerant comparer and the
  scan-edge record the builder writes.
 */
module Geometry {

  /** A 2D point; coordinates are exact reals instead of single-precision floats. */
  datatype PointF = PointF(x: real, y: real)

  /**
    The tolerant comparer's AreEqual on one coordinate. Its body is not part of
    this model, so it is an arbitrary relation, assumed reflexive only where a
    property says so.
   */
  type Comparer = (real, real) -> bool

  ghost predicate Reflexive(areEqual: Comparer) {
    forall y: real :: areEqual(y, y)
  }

  /**
    One ring of a tessellated multipolygon: a closed vertex array whose last
    vertex repeats the first, so that ring edge k runs from vertices[k] to
    vertices[k + 1].
   */
  datatype Ring = Ring(vertices: seq<PointF>)

  /** The number of distinct vertices: the closing vertex is not counted again. */
  function VertexCount(ring: Ring): int {
    |ring.vertices| - 1
  }

  /** The number of edges the walk forms from the ring's vertex array. */
  function EdgeCount(ring: Ring): nat {
    if |ring.vertices| == 0 then 0 else |ring.vertices| - 1
  }

  /** The edges of all rings; this sizes the worst-case scan-edge buffer. */
  function TotalEdgeCount(rings: seq<Ring>): nat {
    if |rings| == 0 then 0 else TotalEdgeCount(rings[..|rings| - 1]) + EdgeCount(rings[|rings| - 1])
  }

  /** A prefix of the rings never has more edges than all of them. */
  lemma {:induction false} TotalEdgeCountPrefix(rings: seq<Ring>, j: nat)
    requires j <= |rings|
    ensures TotalEdgeCount(rings[..j]) <= TotalEdgeCount(rings)
    decreases |rings|
  {
    if j < |rings| {
      var front := rings[..|rings| - 1];
      assert rings[..j] == front[..j];
      TotalEdgeCountPrefix(front, j);
    } else {
      assert rings[..j] == rings;
    }
  }

  /**
    A scan edge as the scanner consumes it: a start point, an end point and
    the packed flag word. Its constructor is not part of this model; it is
    treated as a plain record.
   */
  datatype ScanEdge = ScanEdge(start: PointF, end: PointF, flags: int)
}
