/**
  Concrete rings worked through the functional reference, with an exact
  comparer: the 10 by 10 square, a triangle, a two-vertex ring and a ring with
  two consecutive horizontal edges.
 */
module Scenarios {
  import opened Results
  import opened Geometry
  import opened Categories
  import opened Edges
  import opened RingSpec

  /** A comparer that calls two coordinates equal only when they are equal. */
  function Exact(): Comparer {
    (a: real, b: real) => a == b
  }

  function P(x: real, y: real): PointF {
    PointF(x, y)
  }

  /** The square (0,0) (10,0) (10,10) (0,10), closed. */
  function Square(): Ring {
    Ring([P(0.0, 0.0), P(10.0, 0.0), P(10.0, 10.0), P(0.0, 10.0), P(0.0, 0.0)])
  }

  /**
    The square keeps only its two vertical sides: the right side as it runs,
    the left side flipped, each with one crossing credit at both ends.
   */
  lemma SquareScenario()
    ensures CreateSpec([Square()], Exact()) ==
      Success([ScanEdge(P(10.0, 0.0), P(10.0, 10.0), 10), ScanEdge(P(0.0, 0.0), P(0.0, 10.0), 11)])
  {
    var ring, eq := Square(), Exact();
    assert Category(ring, eq, 0) == Right;
    assert Category(ring, eq, 1) == Down;
    assert Category(ring, eq, 2) == Left;
    assert Category(ring, eq, 3) == Up;
    assert FirstRepeatedHorizontal(ring, eq, 4) == None;
    assert FirstRepeatedHorizontal(ring, eq, 0) == None;
    assert RingScanEdges(ring, eq, 1) == [];
    assert RingScanEdges(ring, eq, 2) == [ScanEdge(P(10.0, 0.0), P(10.0, 10.0), 10)];
    assert RingScanEdges(ring, eq, 3) == RingScanEdges(ring, eq, 2);
    assert AnnotatedEdge(ring, eq, 3) == EdgeData(Up, P(0.0, 10.0), P(0.0, 0.0), 1, 1);
    assert ToScanEdge(AnnotatedEdge(ring, eq, 3)) == ScanEdge(P(0.0, 0.0), P(0.0, 10.0), 11);
    assert RingScanEdges(ring, eq, 4) ==
      [ScanEdge(P(10.0, 0.0), P(10.0, 10.0), 10), ScanEdge(P(0.0, 0.0), P(0.0, 10.0), 11)];
    assert RingError(ring, eq) == None;
    SingleRingOutcome(ring, eq);
  }

  /** The triangle (10,10) (200,150) (50,300), closed. */
  function Triangle(): Ring {
    Ring([P(10.0, 10.0), P(200.0, 150.0), P(50.0, 300.0), P(10.0, 10.0)])
  }

  /**
    A triangle with no horizontal side keeps all three sides; only the vertex
    between its two downward sides earns a credit, and the upward side is
    flipped.
   */
  lemma TriangleScenario()
    ensures CreateSpec([Triangle()], Exact()) ==
      Success([
        ScanEdge(P(10.0, 10.0), P(200.0, 150.0), 0),
        ScanEdge(P(200.0, 150.0), P(50.0, 300.0), 2),
        ScanEdge(P(10.0, 10.0), P(50.0, 300.0), 1)])
  {
    var ring, eq := Triangle(), Exact();
    assert Category(ring, eq, 0) == Down;
    assert Category(ring, eq, 1) == Down;
    assert Category(ring, eq, 2) == Up;
    assert FirstRepeatedHorizontal(ring, eq, 3) == None;
    assert FirstRepeatedHorizontal(ring, eq, 0) == None;
    assert RingScanEdges(ring, eq, 1) == [ScanEdge(P(10.0, 10.0), P(200.0, 150.0), 0)];
    assert AnnotatedEdge(ring, eq, 1) == EdgeData(Down, P(200.0, 150.0), P(50.0, 300.0), 1, 0);
    assert RingScanEdges(ring, eq, 2) ==
      [ScanEdge(P(10.0, 10.0), P(200.0, 150.0), 0), ScanEdge(P(200.0, 150.0), P(50.0, 300.0), 2)];
    assert AnnotatedEdge(ring, eq, 2) == EdgeData(Up, P(50.0, 300.0), P(10.0, 10.0), 0, 0);
    assert ToScanEdge(AnnotatedEdge(ring, eq, 2)) == ScanEdge(P(10.0, 10.0), P(50.0, 300.0), 1);
    assert RingScanEdges(ring, eq, 3) ==
      [ScanEdge(P(10.0, 10.0), P(200.0, 150.0), 0), ScanEdge(P(200.0, 150.0), P(50.0, 300.0), 2),
       ScanEdge(P(10.0, 10.0), P(50.0, 300.0), 1)];
    assert RingError(ring, eq) == None;
    SingleRingOutcome(ring, eq);
  }

  /** A ring of two vertices is rejected before any of its edges is looked at. */
  lemma TwoVertexRingScenario()
    ensures CreateSpec([Ring([P(0.0, 0.0), P(1.0, 1.0), P(0.0, 0.0)])], Exact()) == Failure(TooFewVertices)
  {
    SingleRingOutcome(Ring([P(0.0, 0.0), P(1.0, 1.0), P(0.0, 0.0)]), Exact());
  }

  /** A ring with two consecutive rightward edges is rejected at the vertex between them. */
  lemma RepeatedHorizontalScenario()
    ensures CreateSpec([Ring([P(0.0, 0.0), P(5.0, 0.0), P(10.0, 0.0), P(10.0, 10.0), P(0.0, 0.0)])], Exact())
         == Failure(RepeatedHorizontal(RightRight))
  {
    var ring, eq := Ring([P(0.0, 0.0), P(5.0, 0.0), P(10.0, 0.0), P(10.0, 10.0), P(0.0, 0.0)]), Exact();
    assert Category(ring, eq, 0) == Right;
    assert Category(ring, eq, 1) == Right;
    assert Category(ring, eq, 3) == Up;
    assert FirstRepeatedHorizontal(ring, eq, 1) == Some(1);
    assert FirstRepeatedHorizontal(ring, eq, 0) == Some(1);
    SingleRingOutcome(ring, eq);
  }
}
