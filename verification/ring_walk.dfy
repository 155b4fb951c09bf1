/**
  The imperative side of the scan-edge builder: the three-edge sliding
  window (RingWalker) and its Move, the walk of one ring, and Create, proved
  to produce exactly what the functional reference in RingSpec describes.
 */
module RingWalk {
  import opened Results
  import opened Geometry
  import opened Categories
  import opened Edges
  import opened RingSpec

  /**
    The walker as a value: the output buffer and its fill counter, and the
    previous, current and next edges of the window.
   */
  datatype RingWalker = RingWalker(
    output: seq<ScanEdge>,
    edgeCounter: nat,
    previousEdge: EdgeData,
    currentEdge: EdgeData,
    nextEdge: EdgeData)

  /** The built collection: the whole buffer and the number of slots filled. */
  datatype ScanEdgeCollection = ScanEdgeCollection(edges: seq<ScanEdge>, count: nat)

  /** The zero-initialised EdgeData the walker starts with (Up is the enum's zero). */
  const DefaultEdge: EdgeData := EdgeData(Up, PointF(0.0, 0.0), PointF(0.0, 0.0), 0, 0)

  /**
    Move: applies the vertex between the previous and the current edge and
    the vertex between the current and the next edge, optionally emits the
    previous edge, then shifts the window by one. It fails, with the first of
    the two vertices in that order, when either joins two horizontal edges.
   */
  function Move(w: RingWalker, emitPreviousEdge: bool): (r: Result<RingWalker, BuildError>)
    requires emitPreviousEdge && !IsHorizontal(w.previousEdge.category) ==> w.edgeCounter < |w.output|
    ensures var s := CreateVertexCategory(w.previousEdge.category, w.currentEdge.category);
            var e := CreateVertexCategory(w.currentEdge.category, w.nextEdge.category);
            && (r.Failure? <==> IsRepeatedHorizontal(s) || IsRepeatedHorizontal(e))
            && (r.Failure? ==> r.error == RepeatedHorizontal(if IsRepeatedHorizontal(s) then s else e))
    ensures r.Success? ==>
      var p, c, n := w.previousEdge.category, w.currentEdge.category, w.nextEdge.category;
      && r.value.previousEdge == WithEndCredit(WithStartCredit(w.currentEdge, StartCredit(p, c)), EndCredit(c, n))
      && r.value.currentEdge == WithStartCredit(w.nextEdge, StartCredit(c, n))
      && r.value.nextEdge == r.value.currentEdge
      && (r.value.output, r.value.edgeCounter) ==
         (if emitPreviousEdge then EmitScanEdge(WithEndCredit(w.previousEdge, EndCredit(p, c)), w.output, w.edgeCounter)
          else (w.output, w.edgeCounter))
  {
    var startVertexCategory := CreateVertexCategory(w.previousEdge.category, w.currentEdge.category);
    var endVertexCategory := CreateVertexCategory(w.currentEdge.category, w.nextEdge.category);
    var atStart :- ApplyVertexCategory(startVertexCategory, w.previousEdge, w.currentEdge);
    var atEnd :- ApplyVertexCategory(endVertexCategory, atStart.1, w.nextEdge);
    var emitted := if emitPreviousEdge then EmitScanEdge(atStart.0, w.output, w.edgeCounter) else (w.output, w.edgeCounter);
    Success(RingWalker(emitted.0, emitted.1, atEnd.0, atEnd.1, atEnd.1))
  }

  /** Index i of a ring with n edges, for i < 2n, taken round the ring. */
  function Wrap(i: nat, n: nat): nat
    requires i < 2 * n
  {
    if i < n then i else i - n
  }

  /** Ring edge k carrying only the credit of the vertex at its start. */
  function StartAnnotatedEdge(ring: Ring, areEqual: Comparer, k: nat): EdgeData
    requires k < EdgeCount(ring)
  {
    var n := EdgeCount(ring);
    RingEdge(ring, areEqual, k).(emitStart := StartCredit(Category(ring, areEqual, Pred(k, n)), Category(ring, areEqual, k)))
  }

  /**
    The window after j steps of a ring's walk: the previous edge is edge j
    (round the ring) with both credits, the current edge is edge j + 1 with
    its start credit.
   */
  ghost predicate WindowAt(w: RingWalker, ring: Ring, areEqual: Comparer, j: nat)
    requires VertexCount(ring) >= 3 && j <= EdgeCount(ring)
  {
    var n := EdgeCount(ring);
    && w.previousEdge == AnnotatedEdge(ring, areEqual, Wrap(j, n))
    && w.currentEdge == StartAnnotatedEdge(ring, areEqual, Wrap(j + 1, n))
  }

  /**
    The buffer after j steps of a ring's walk entered with buffer `buffer`
    and counter `base`: the scan edges of ring edges 0 .. j - 1 follow
    `base`, and every other slot is untouched.
   */
  ghost predicate OutputAt(output: seq<ScanEdge>, edgeCounter: nat, ring: Ring, areEqual: Comparer, j: nat, base: nat, buffer: seq<ScanEdge>)
    requires j <= EdgeCount(ring)
  {
    && base + EdgeCount(ring) <= |buffer|
    && |output| == |buffer|
    && edgeCounter == base + |RingScanEdges(ring, areEqual, j)|
    && output[..base] == buffer[..base]
    && output[base..edgeCounter] == RingScanEdges(ring, areEqual, j)
    && output[edgeCounter..] == buffer[edgeCounter..]
  }

  /** Vertices 0 .. m of the ring join no two horizontal edges. */
  ghost predicate AcceptedUpTo(ring: Ring, areEqual: Comparer, m: nat) {
    forall v :: 0 <= v < EdgeCount(ring) && v <= m ==> !IsRepeatedHorizontal(VertexAt(ring, areEqual, v))
  }

  /** The complete walk state after j steps: window, buffer, and the vertices seen so far. */
  ghost predicate WalkState(w: RingWalker, ring: Ring, areEqual: Comparer, j: nat, base: nat, buffer: seq<ScanEdge>)
    requires VertexCount(ring) >= 3 && j <= EdgeCount(ring)
  {
    && WindowAt(w, ring, areEqual, j)
    && OutputAt(w.output, w.edgeCounter, ring, areEqual, j, base, buffer)
    && AcceptedUpTo(ring, areEqual, j + 1)
  }

  /** Writing slot c leaves the slots before `base` and after c alone and extends slots base .. c by one. */
  lemma UpdateAtCounter(s: seq<ScanEdge>, base: nat, c: nat, x: ScanEdge)
    requires base <= c < |s|
    ensures s[c := x][..base] == s[..base]
    ensures s[c := x][base..c + 1] == s[base..c] + [x]
    ensures s[c := x][c + 1..] == s[c + 1..]
  {
  }

  /** The ring's first invalid vertex is m when all vertices before it are valid. */
  lemma RingErrorAt(ring: Ring, areEqual: Comparer, m: nat)
    requires VertexCount(ring) >= 3 && m < EdgeCount(ring)
    requires IsRepeatedHorizontal(VertexAt(ring, areEqual, m))
    requires forall v :: 0 <= v < m ==> !IsRepeatedHorizontal(VertexAt(ring, areEqual, v))
    ensures RingError(ring, areEqual) == Some(RepeatedHorizontal(VertexAt(ring, areEqual, m)))
  {
    var first := FirstRepeatedHorizontal(ring, areEqual, 0);
    assert first.Some?;
    assert first.value == m;
  }

  /**
    The first Move of a ring, with the last, first and second edges in the
    window: it fails exactly at the ring's first invalid vertex when that is
    vertex 0 or 1, and otherwise reaches the walk state after no steps.
   */
  lemma FirstMove(w: RingWalker, ring: Ring, areEqual: Comparer)
    requires VertexCount(ring) >= 3
    requires w.edgeCounter + EdgeCount(ring) <= |w.output|
    requires w.previousEdge == RingEdge(ring, areEqual, EdgeCount(ring) - 1)
    requires w.currentEdge == RingEdge(ring, areEqual, 0)
    requires w.nextEdge == RingEdge(ring, areEqual, 1)
    ensures var m := Move(w, false);
            && (m.Failure? ==> RingError(ring, areEqual) == Some(m.error))
            && (m.Success? ==> WalkState(m.value, ring, areEqual, 0, w.edgeCounter, w.output))
  {
    var n := EdgeCount(ring);
    var m := Move(w, false);
    assert VertexAt(ring, areEqual, 0) == CreateVertexCategory(w.previousEdge.category, w.currentEdge.category);
    assert VertexAt(ring, areEqual, 1) == CreateVertexCategory(w.currentEdge.category, w.nextEdge.category);
    if m.Failure? {
      if IsRepeatedHorizontal(VertexAt(ring, areEqual, 0)) {
        RingErrorAt(ring, areEqual, 0);
      } else {
        RingErrorAt(ring, areEqual, 1);
      }
    } else {
      var w' := m.value;
      assert w'.previousEdge == AnnotatedEdge(ring, areEqual, 0);
      assert w'.currentEdge == StartAnnotatedEdge(ring, areEqual, 1);
      assert RingScanEdges(ring, areEqual, 0) == [];
      assert w'.output[w.edgeCounter..w.edgeCounter] == [];
    }
  }

  /**
    The window arithmetic of step j: with edge j + 1 loaded as the next edge,
    the two vertices Move applies are vertices j and j + 1 of the ring, and
    the credits it writes turn the window into the one after j steps and the
    emitted edge into the fully credited edge j - 1.
   */
  lemma StepWindow(w: RingWalker, ring: Ring, areEqual: Comparer, j: nat)
    requires VertexCount(ring) >= 3 && 1 <= j <= EdgeCount(ring)
    requires WindowAt(w, ring, areEqual, j - 1)
    ensures var n := EdgeCount(ring);
            var cj, nj := Wrap(j, n), Wrap(j + 1, n);
            var p := w.previousEdge.category;
            var c := w.currentEdge.category;
            var next := RingEdge(ring, areEqual, nj);
            && p == Category(ring, areEqual, j - 1)
            && CreateVertexCategory(p, c) == VertexAt(ring, areEqual, cj)
            && CreateVertexCategory(c, next.category) == VertexAt(ring, areEqual, nj)
            && WithEndCredit(WithStartCredit(w.currentEdge, StartCredit(p, c)), EndCredit(c, next.category))
               == AnnotatedEdge(ring, areEqual, cj)
            && WithStartCredit(next, StartCredit(c, next.category)) == StartAnnotatedEdge(ring, areEqual, nj)
            && WithEndCredit(w.previousEdge, EndCredit(p, c)) == AnnotatedEdge(ring, areEqual, j - 1)
  {
    var n := EdgeCount(ring);
    var pj, cj, nj := j - 1, Wrap(j, n), Wrap(j + 1, n);
    assert Pred(cj, n) == pj && Succ(pj, n) == cj;
    assert Succ(cj, n) == nj && Pred(nj, n) == cj;
  }

  /**
    The buffer side of step j: emitting the fully credited edge j - 1 turns
    the buffer after j - 1 steps into the buffer after j steps.
   */
  lemma StepOutput(output: seq<ScanEdge>, edgeCounter: nat, ring: Ring, areEqual: Comparer, j: nat, base: nat, buffer: seq<ScanEdge>)
    requires 1 <= j <= EdgeCount(ring)
    requires OutputAt(output, edgeCounter, ring, areEqual, j - 1, base, buffer)
    ensures var e := AnnotatedEdge(ring, areEqual, j - 1);
            && (!IsHorizontal(e.category) ==> edgeCounter < |output|)
            && var emitted := EmitScanEdge(e, output, edgeCounter);
               OutputAt(emitted.0, emitted.1, ring, areEqual, j, base, buffer)
  {
    var e := AnnotatedEdge(ring, areEqual, j - 1);
    var before := RingScanEdges(ring, areEqual, j - 1);
    assert |before| <= j - 1;
    RingScanEdgesStep(ring, areEqual, j - 1);
    if !IsHorizontal(e.category) {
      UpdateAtCounter(output, base, edgeCounter, ToScanEdge(e));
    }
  }

  /**
    Step j of the walk, 1 <= j <= n: put edge j + 1 (round the ring) into the
    window and Move with emission. It fails exactly when the newly reached
    vertex is the ring's first invalid one; otherwise it emits edge j - 1 and
    reaches the walk state after j steps.
   */
  lemma MoveStep(w: RingWalker, ring: Ring, areEqual: Comparer, j: nat, base: nat, buffer: seq<ScanEdge>)
    requires VertexCount(ring) >= 3 && 1 <= j <= EdgeCount(ring)
    requires WalkState(w, ring, areEqual, j - 1, base, buffer)
    ensures !IsHorizontal(w.previousEdge.category) ==> w.edgeCounter < |w.output|
    ensures var m := Move(w.(nextEdge := RingEdge(ring, areEqual, Wrap(j + 1, EdgeCount(ring)))), true);
            && (m.Failure? ==> RingError(ring, areEqual) == Some(m.error) && j + 1 < EdgeCount(ring))
            && (m.Success? ==> WalkState(m.value, ring, areEqual, j, base, buffer))
  {
    var n := EdgeCount(ring);
    var cj, nj := Wrap(j, n), Wrap(j + 1, n);
    StepWindow(w, ring, areEqual, j);
    StepOutput(w.output, w.edgeCounter, ring, areEqual, j, base, buffer);
    var m := Move(w.(nextEdge := RingEdge(ring, areEqual, nj)), true);
    if m.Failure? {
      assert IsRepeatedHorizontal(VertexAt(ring, areEqual, nj));
      assert nj == j + 1;
      RingErrorAt(ring, areEqual, nj);
    } else {
      assert !IsRepeatedHorizontal(VertexAt(ring, areEqual, nj));
      forall v | 0 <= v < n && v <= j + 1
        ensures !IsRepeatedHorizontal(VertexAt(ring, areEqual, v))
      {
        if v > j {
          assert v == nj;
        }
      }
    }
  }

  /**
    One step of the walk: load edge `next` as the window's next edge and Move
    with emission. Used for step j, 1 <= j <= n, with edge j + 1 round the
    ring: it fails exactly at the ring's first invalid vertex, and otherwise
    reaches the walk state after j steps.
   */
  method Advance(w: RingWalker, next: EdgeData, ring: Ring, areEqual: Comparer, ghost j: nat, ghost base: nat, ghost buffer: seq<ScanEdge>)
    returns (r: Result<RingWalker, BuildError>)
    requires VertexCount(ring) >= 3 && 1 <= j <= EdgeCount(ring)
    requires WalkState(w, ring, areEqual, j - 1, base, buffer)
    requires next == RingEdge(ring, areEqual, Wrap(j + 1, EdgeCount(ring)))
    ensures r.Failure? ==> RingError(ring, areEqual) == Some(r.error)
    ensures r.Failure? ==> j + 1 < EdgeCount(ring)
    ensures r.Success? ==> WalkState(r.value, ring, areEqual, j, base, buffer)
  {
    MoveStep(w, ring, areEqual, j, base, buffer);
    r := Move(w.(nextEdge := next), true);
  }

  /**
    After all n steps the ring is accepted and exactly its scan edges follow
    the counter the walk started from.
   */
  lemma WalkComplete(w: RingWalker, ring: Ring, areEqual: Comparer, base: nat, buffer: seq<ScanEdge>)
    requires VertexCount(ring) >= 3
    requires WalkState(w, ring, areEqual, EdgeCount(ring), base, buffer)
    ensures RingError(ring, areEqual).None?
    ensures var edges := AllRingScanEdges(ring, areEqual);
      && |w.output| == |buffer|
      && w.edgeCounter == base + |edges|
      && w.output[..base] == buffer[..base]
      && w.output[base..w.edgeCounter] == edges
      && w.output[w.edgeCounter..] == buffer[w.edgeCounter..]
  {
  }

  /**
    The body of Create's loop for one ring of at least three vertices: the
    window is seeded with the last, first and second edges, Moved without
    emission, then slid over edges 2 .. n - 1, then over the first and second
    edges again. It fails with the ring's first invalid vertex, and otherwise
    appends exactly the ring's scan edges at the counter.
   */
  method WalkRing(walker: RingWalker, ring: Ring, areEqual: Comparer) returns (r: Result<RingWalker, BuildError>)
    requires VertexCount(ring) >= 3
    requires walker.edgeCounter + EdgeCount(ring) <= |walker.output|
    ensures r.Failure? <==> RingError(ring, areEqual).Some?
    ensures r.Failure? ==> RingError(ring, areEqual) == Some(r.error)
    ensures r.Success? ==>
      var edges := AllRingScanEdges(ring, areEqual);
      && |r.value.output| == |walker.output|
      && r.value.edgeCounter == walker.edgeCounter + |edges|
      && r.value.output[..walker.edgeCounter] == walker.output[..walker.edgeCounter]
      && r.value.output[walker.edgeCounter..r.value.edgeCounter] == edges
      && r.value.output[r.value.edgeCounter..] == walker.output[r.value.edgeCounter..]
  {
    var vertices := ring.vertices;
    ghost var n := EdgeCount(ring);
    ghost var base, buffer := walker.edgeCounter, walker.output;
    var w := walker.(
      previousEdge := NewEdgeData(vertices[|vertices| - 2], vertices[|vertices| - 1], areEqual), // last edge
      currentEdge := NewEdgeData(vertices[0], vertices[1], areEqual), // first edge
      nextEdge := NewEdgeData(vertices[1], vertices[2], areEqual)); // second edge
    FirstMove(w, ring, areEqual);
    var moved := Move(w, false);
    if moved.Failure? {
      return Failure(moved.error);
    }
    w := moved.value;

    var i := 1;
    while i < |vertices| - 2
      invariant 1 <= i <= |vertices| - 2
      invariant WalkState(w, ring, areEqual, i - 1, base, buffer)
    {
      moved := Advance(w, NewEdgeData(vertices[i + 1], vertices[i + 2], areEqual), ring, areEqual, i, base, buffer);
      if moved.Failure? {
        return Failure(moved.error);
      }
      w := moved.value;
      i := i + 1;
    }

    // the first edge again; emits the edge before the last edge (vertex 0 was already accepted)
    moved := Advance(w, NewEdgeData(vertices[0], vertices[1], areEqual), ring, areEqual, n - 1, base, buffer);
    w := moved.value;

    // the second edge again; emits the last edge (vertex 1 was already accepted)
    moved := Advance(w, NewEdgeData(vertices[1], vertices[2], areEqual), ring, areEqual, n, base, buffer);
    r := moved;
    WalkComplete(r.value, ring, areEqual, base, buffer);
  }

  /**
    Create: walks the rings in order with one walker over a buffer sized for
    every ring edge. A ring with fewer than three vertices or with a vertex
    between two horizontal edges aborts the build with that error and no
    collection; otherwise the buffer's first `count` slots hold exactly the
    reference's scan edges and the remaining slots are untouched.
   */
  method Create(rings: seq<Ring>, buffer: seq<ScanEdge>, areEqual: Comparer) returns (r: Result<ScanEdgeCollection, BuildError>)
    requires TotalEdgeCount(rings) <= |buffer|
    ensures r.Failure? <==> CreateSpec(rings, areEqual).Failure?
    ensures r.Failure? ==> r.error == CreateSpec(rings, areEqual).error
    ensures r.Success? ==>
      && r.value.count == |CreateSpec(rings, areEqual).value|
      && r.value.count <= |buffer|
      && |r.value.edges| == |buffer|
      && r.value.edges[..r.value.count] == CreateSpec(rings, areEqual).value
      && r.value.edges[r.value.count..] == buffer[r.value.count..]
  {
    var walker := RingWalker(buffer, 0, DefaultEdge, DefaultEdge, DefaultEdge);
    var j := 0;
    TotalEdgeCountPrefix(rings, 0);
    while j < |rings|
      invariant 0 <= j <= |rings|
      invariant TotalEdgeCount(rings[..j]) <= |buffer|
      invariant CreateSpec(rings[..j], areEqual).Success?
      invariant walker.edgeCounter == |CreateSpec(rings[..j], areEqual).value|
      invariant |walker.output| == |buffer|
      invariant walker.output[..walker.edgeCounter] == CreateSpec(rings[..j], areEqual).value
      invariant walker.output[walker.edgeCounter..] == buffer[walker.edgeCounter..]
    {
      var ring := rings[j];
      CreateSpecSnoc(rings, areEqual, j);
      if VertexCount(ring) < 3 {
        CreateSpecPrefixFailure(rings, areEqual, j + 1);
        return Failure(TooFewVertices);
      }
      TotalEdgeCountPrefix(rings, j + 1);
      assert rings[..j + 1][..j] == rings[..j];
      var walked := WalkRing(walker, ring, areEqual);
      if walked.Failure? {
        CreateSpecPrefixFailure(rings, areEqual, j + 1);
        return Failure(walked.error);
      }
      ghost var counter := walker.edgeCounter;
      walker := walked.value;
      assert walker.output[..walker.edgeCounter] == walker.output[..counter] + walker.output[counter..walker.edgeCounter];
      j := j + 1;
    }
    assert rings[..j] == rings;
    return Success(ScanEdgeCollection(walker.output, walker.edgeCounter));
  }
}
