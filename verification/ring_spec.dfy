/**
  The functional reference for the scan-edge builder: which edges of each
  ring are emitted, in what order, with which credits, and when the build
  fails. The imperative ring walk is proved equal to this.
 */
module RingSpec {
  import opened Results
  import opened Geometry
  import opened Categories
  import opened Edges

  /** Ring edge k, from vertices[k] to vertices[k + 1], classified and without credits. */
  function RingEdge(ring: Ring, areEqual: Comparer, k: nat): EdgeData
    requires k < EdgeCount(ring)
  {
    NewEdgeData(ring.vertices[k], ring.vertices[k + 1], areEqual)
  }

  function Category(ring: Ring, areEqual: Comparer, k: nat): EdgeCategory
    requires k < EdgeCount(ring)
  {
    RingEdge(ring, areEqual, k).category
  }

  /** The edge before edge k, going round the ring. */
  function Pred(k: nat, n: nat): nat
    requires k < n
  {
    if k == 0 then n - 1 else k - 1
  }

  /** The edge after edge k, going round the ring. */
  function Succ(k: nat, n: nat): nat
    requires k < n
  {
    if k == n - 1 then 0 else k + 1
  }

  /** Vertex k of the ring: where edge k - 1 (cyclically) ends and edge k starts. */
  function VertexAt(ring: Ring, areEqual: Comparer, k: nat): VertexCategory
    requires k < EdgeCount(ring)
  {
    CreateVertexCategory(Category(ring, areEqual, Pred(k, EdgeCount(ring))), Category(ring, areEqual, k))
  }

  /**
    Edge k carrying the credit of vertex k on its start and the credit of
    vertex k + 1 (cyclically) on its end.
   */
  function AnnotatedEdge(ring: Ring, areEqual: Comparer, k: nat): EdgeData
    requires k < EdgeCount(ring)
  {
    var n := EdgeCount(ring);
    RingEdge(ring, areEqual, k).(
      emitStart := StartCredit(Category(ring, areEqual, Pred(k, n)), Category(ring, areEqual, k)),
      emitEnd := EndCredit(Category(ring, areEqual, k), Category(ring, areEqual, Succ(k, n))))
  }

  /** The first vertex at index k or later that joins two horizontal edges, if any. */
  function FirstRepeatedHorizontal(ring: Ring, areEqual: Comparer, k: nat): (r: Option<nat>)
    requires k <= EdgeCount(ring)
    ensures r.Some? ==> k <= r.value < EdgeCount(ring) && IsRepeatedHorizontal(VertexAt(ring, areEqual, r.value))
    ensures forall j :: k <= j < EdgeCount(ring) && (r.None? || j < r.value) ==>
      !IsRepeatedHorizontal(VertexAt(ring, areEqual, j))
    decreases EdgeCount(ring) - k
  {
    if k == EdgeCount(ring) then None
    else if IsRepeatedHorizontal(VertexAt(ring, areEqual, k)) then Some(k)
    else FirstRepeatedHorizontal(ring, areEqual, k + 1)
  }

  /**
    The error the builder raises for one ring: too few vertices, or else the
    category of the lowest-numbered vertex joining two horizontal edges.
   */
  function RingError(ring: Ring, areEqual: Comparer): (r: Option<BuildError>)
    ensures VertexCount(ring) < 3 ==> r == Some(TooFewVertices)
    ensures r.None? <==>
      VertexCount(ring) >= 3 &&
      forall k :: 0 <= k < EdgeCount(ring) ==> !IsRepeatedHorizontal(VertexAt(ring, areEqual, k))
    ensures VertexCount(ring) >= 3 && r.Some? ==>
      exists k :: 0 <= k < EdgeCount(ring) && r.value == RepeatedHorizontal(VertexAt(ring, areEqual, k))
                 && IsRepeatedHorizontal(VertexAt(ring, areEqual, k))
                 && forall j :: 0 <= j < k ==> !IsRepeatedHorizontal(VertexAt(ring, areEqual, j))
  {
    if VertexCount(ring) < 3 then Some(TooFewVertices)
    else match FirstRepeatedHorizontal(ring, areEqual, 0)
      case None => None
      case Some(k) => Some(RepeatedHorizontal(VertexAt(ring, areEqual, k)))
  }

  /** How many of edges 0 .. k - 1 are horizontal. */
  function HorizontalEdgeCount(ring: Ring, areEqual: Comparer, k: nat): (c: nat)
    requires k <= EdgeCount(ring)
    ensures c <= k
  {
    if k == 0 then 0
    else HorizontalEdgeCount(ring, areEqual, k - 1) + (if IsHorizontal(Category(ring, areEqual, k - 1)) then 1 else 0)
  }

  /** The indices among 0 .. k - 1 of the edges that are emitted, in walk order. */
  function EmittedIndices(ring: Ring, areEqual: Comparer, k: nat): (idx: seq<nat>)
    requires k <= EdgeCount(ring)
    ensures |idx| == k - HorizontalEdgeCount(ring, areEqual, k)
    ensures forall p :: 0 <= p < |idx| ==> idx[p] < k
  {
    if k == 0 then []
    else EmittedIndices(ring, areEqual, k - 1) + (if IsHorizontal(Category(ring, areEqual, k - 1)) then [] else [k - 1])
  }

  /**
    Each non-horizontal edge among 0 .. k - 1 is emitted exactly once, in
    increasing order, and no horizontal edge is.
   */
  lemma {:induction false} EmittedIndicesExact(ring: Ring, areEqual: Comparer, k: nat)
    requires k <= EdgeCount(ring)
    ensures var idx := EmittedIndices(ring, areEqual, k);
            && (forall p, q :: 0 <= p < q < |idx| ==> idx[p] < idx[q])
            && (forall j :: 0 <= j < k ==> (j in idx <==> !IsHorizontal(Category(ring, areEqual, j))))
  {
    if k > 0 {
      EmittedIndicesExact(ring, areEqual, k - 1);
    }
  }

  /**
    The scan edges emitted for edges 0 .. k - 1 of a ring, one per
    non-horizontal edge.
   */
  function RingScanEdges(ring: Ring, areEqual: Comparer, k: nat): (edges: seq<ScanEdge>)
    requires k <= EdgeCount(ring)
    ensures |edges| == k - HorizontalEdgeCount(ring, areEqual, k)
  {
    if k == 0 then []
    else
      RingScanEdges(ring, areEqual, k - 1)
      + (if IsHorizontal(Category(ring, areEqual, k - 1)) then [] else [ToScanEdge(AnnotatedEdge(ring, areEqual, k - 1))])
  }

  /** The p-th scan edge of a ring is the normalised, credited p-th emitted ring edge. */
  lemma {:induction false} RingScanEdgesIndexed(ring: Ring, areEqual: Comparer, k: nat)
    requires k <= EdgeCount(ring)
    ensures var edges := RingScanEdges(ring, areEqual, k);
            var idx := EmittedIndices(ring, areEqual, k);
            && |edges| == |idx|
            && forall p :: 0 <= p < |edges| ==> edges[p] == ToScanEdge(AnnotatedEdge(ring, areEqual, idx[p]))
  {
    if k > 0 {
      RingScanEdgesIndexed(ring, areEqual, k - 1);
    }
  }

  /** One more ring edge adds its scan edge, unless it is horizontal. */
  lemma RingScanEdgesStep(ring: Ring, areEqual: Comparer, k: nat)
    requires k < EdgeCount(ring)
    ensures RingScanEdges(ring, areEqual, k + 1) ==
      RingScanEdges(ring, areEqual, k)
      + (if IsHorizontal(Category(ring, areEqual, k)) then [] else [ToScanEdge(AnnotatedEdge(ring, areEqual, k))])
  {
  }

  /** All scan edges of a whole ring. */
  function AllRingScanEdges(ring: Ring, areEqual: Comparer): seq<ScanEdge> {
    RingScanEdges(ring, areEqual, EdgeCount(ring))
  }

  /** The number of non-horizontal edges over all rings. */
  function ScanEdgeCount(rings: seq<Ring>, areEqual: Comparer): (c: nat)
    ensures c <= TotalEdgeCount(rings)
  {
    if |rings| == 0 then 0
    else
      var last := rings[|rings| - 1];
      ScanEdgeCount(rings[..|rings| - 1], areEqual) + (EdgeCount(last) - HorizontalEdgeCount(last, areEqual, EdgeCount(last)))
  }

  /**
    The whole build: the rings in order, each contributing its scan edges,
    unless some ring is rejected, in which case the first rejected ring's
    error is the result.
   */
  function CreateSpec(rings: seq<Ring>, areEqual: Comparer): (r: Result<seq<ScanEdge>, BuildError>)
    ensures r.Success? ==> |r.value| == ScanEdgeCount(rings, areEqual)
  {
    if |rings| == 0 then Success([])
    else
      var front :- CreateSpec(rings[..|rings| - 1], areEqual);
      var last := rings[|rings| - 1];
      match RingError(last, areEqual)
      case Some(err) => Failure(err)
      case None => Success(front + AllRingScanEdges(last, areEqual))
  }

  /** Building one ring more: the next ring's error, or its scan edges appended. */
  lemma CreateSpecSnoc(rings: seq<Ring>, areEqual: Comparer, j: nat)
    requires j < |rings|
    requires CreateSpec(rings[..j], areEqual).Success?
    ensures CreateSpec(rings[..j + 1], areEqual) ==
      match RingError(rings[j], areEqual)
      case Some(err) => Failure(err)
      case None => Success(CreateSpec(rings[..j], areEqual).value + AllRingScanEdges(rings[j], areEqual))
  {
    assert rings[..j + 1][..j] == rings[..j];
  }

  /** The rings before index j are all accepted. */
  ghost predicate AcceptedBefore(rings: seq<Ring>, areEqual: Comparer, j: nat)
    requires j <= |rings|
  {
    forall i :: 0 <= i < j ==> RingError(rings[i], areEqual).None?
  }

  /** Ring j is the first rejected ring, and it is rejected with the given error. */
  ghost predicate FirstRejected(rings: seq<Ring>, areEqual: Comparer, j: nat, err: BuildError) {
    j < |rings| && RingError(rings[j], areEqual) == Some(err) && AcceptedBefore(rings, areEqual, j)
  }

  lemma AcceptedBeforeLast(rings: seq<Ring>, areEqual: Comparer)
    requires |rings| > 0
    ensures AcceptedBefore(rings, areEqual, |rings|) <==>
      AcceptedBefore(rings[..|rings| - 1], areEqual, |rings| - 1) && RingError(rings[|rings| - 1], areEqual).None?
    ensures AcceptedBefore(rings[..|rings| - 1], areEqual, |rings| - 1) <==> AcceptedBefore(rings, areEqual, |rings| - 1)
    ensures forall j, err :: FirstRejected(rings[..|rings| - 1], areEqual, j, err) ==> FirstRejected(rings, areEqual, j, err)
  {
    var front := rings[..|rings| - 1];
    assert forall i :: 0 <= i < |front| ==> front[i] == rings[i];
  }

  /**
    The build fails exactly when some ring is rejected, and then with the
    error of the first rejected ring.
   */
  lemma {:induction false} CreateSpecFailure(rings: seq<Ring>, areEqual: Comparer)
    ensures CreateSpec(rings, areEqual).Success? <==> AcceptedBefore(rings, areEqual, |rings|)
    ensures CreateSpec(rings, areEqual).Failure? ==>
      exists j :: FirstRejected(rings, areEqual, j, CreateSpec(rings, areEqual).error)
    decreases |rings|
  {
    if |rings| > 0 {
      var n := |rings| - 1;
      var front := rings[..n];
      CreateSpecFailure(front, areEqual);
      AcceptedBeforeLast(rings, areEqual);
      if CreateSpec(front, areEqual).Failure? {
        var err := CreateSpec(front, areEqual).error;
        assert CreateSpec(rings, areEqual) == Failure(err);
        var j :| FirstRejected(front, areEqual, j, err);
        assert FirstRejected(rings, areEqual, j, err);
      } else if RingError(rings[n], areEqual).Some? {
        assert CreateSpec(rings, areEqual) == Failure(RingError(rings[n], areEqual).value);
        assert FirstRejected(rings, areEqual, n, RingError(rings[n], areEqual).value);
      } else {
        assert CreateSpec(rings, areEqual).Success?;
      }
    }
  }

  /** Once a prefix of the rings fails, the whole build fails with the same error. */
  lemma {:induction false} CreateSpecPrefixFailure(rings: seq<Ring>, areEqual: Comparer, j: nat)
    requires j <= |rings|
    requires CreateSpec(rings[..j], areEqual).Failure?
    ensures CreateSpec(rings, areEqual) == CreateSpec(rings[..j], areEqual)
    decreases |rings| - j
  {
    if j == |rings| {
      assert rings[..j] == rings;
    } else {
      var longer := rings[..j + 1];
      assert longer[..j] == rings[..j];
      assert CreateSpec(longer, areEqual) == CreateSpec(rings[..j], areEqual);
      CreateSpecPrefixFailure(rings, areEqual, j + 1);
    }
  }

  /**
    A single ring on its own: rejected with its error, or else exactly its
    non-horizontal edges, as many as its vertex count minus its horizontal
    edges.
   */
  lemma SingleRingOutcome(ring: Ring, areEqual: Comparer)
    ensures RingError(ring, areEqual).Some? ==>
      CreateSpec([ring], areEqual) == Failure(RingError(ring, areEqual).value)
    ensures RingError(ring, areEqual).None? ==>
      && CreateSpec([ring], areEqual) == Success(AllRingScanEdges(ring, areEqual))
      && |AllRingScanEdges(ring, areEqual)| == VertexCount(ring) - HorizontalEdgeCount(ring, areEqual, EdgeCount(ring))
  {
    assert [ring][..0] == [];
    assert CreateSpec([ring][..0], areEqual) == Success([]);
    assert [] + AllRingScanEdges(ring, areEqual) == AllRingScanEdges(ring, areEqual);
  }

  /** Every scan edge in the sequence runs strictly towards larger y. */
  ghost predicate RunsDownward(edges: seq<ScanEdge>) {
    forall p :: 0 <= p < |edges| ==> edges[p].start.y < edges[p].end.y
  }

  /**
    Under a reflexive comparer every scan edge of a ring runs strictly towards
    larger y.
   */
  lemma RingScanEdgesNormalized(ring: Ring, areEqual: Comparer, k: nat)
    requires Reflexive(areEqual)
    requires k <= EdgeCount(ring)
    ensures RunsDownward(RingScanEdges(ring, areEqual, k))
  {
    var edges := RingScanEdges(ring, areEqual, k);
    var idx := EmittedIndices(ring, areEqual, k);
    RingScanEdgesIndexed(ring, areEqual, k);
    EmittedIndicesExact(ring, areEqual, k);
    forall p | 0 <= p < |edges|
      ensures edges[p].start.y < edges[p].end.y
    {
      var j := idx[p];
      assert j in idx;
      var e := RingEdge(ring, areEqual, j);
      var a := AnnotatedEdge(ring, areEqual, j);
      assert !IsHorizontal(e.category);
      assert a == e.(emitStart := a.emitStart, emitEnd := a.emitEnd);
      assert edges[p] == ToScanEdge(a);
      StoredEdgeRunsDownward(ring.vertices[j], ring.vertices[j + 1], areEqual, a.emitStart, a.emitEnd);
    }
    assert RunsDownward(edges);
  }

  /** Under a reflexive comparer every scan edge of a successful build runs towards larger y. */
  lemma {:induction false} CreateSpecNormalized(rings: seq<Ring>, areEqual: Comparer)
    requires Reflexive(areEqual)
    requires CreateSpec(rings, areEqual).Success?
    ensures RunsDownward(CreateSpec(rings, areEqual).value)
    decreases |rings|
  {
    if |rings| > 0 {
      var front := rings[..|rings| - 1];
      var last := rings[|rings| - 1];
      CreateSpecNormalized(front, areEqual);
      RingScanEdgesNormalized(last, areEqual, EdgeCount(last));
      RunsDownwardAppend(CreateSpec(front, areEqual).value, AllRingScanEdges(last, areEqual));
    }
  }

  lemma RunsDownwardAppend(a: seq<ScanEdge>, b: seq<ScanEdge>)
    requires RunsDownward(a) && RunsDownward(b)
    ensures RunsDownward(a + b)
  {
    forall p | 0 <= p < |a + b|
      ensures (a + b)[p].start.y < (a + b)[p].end.y
    {
      if p >= |a| {
        assert (a + b)[p] == b[p - |a|];
      }
    }
  }
}
