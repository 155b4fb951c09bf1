/**
  The per-edge state of the scan-edge builder (EdgeData): classification of
  a ring edge, the vertex table that hands out crossing credits, and the
  normalisation of an edge into a packed scan edge.
 */
module Edges {
  import opened Results
  import opened Geometry
  import opened Categories

  /** A crossing credit an endpoint contributes to a scanline: 0, 1 or 2. */
  type EmitCount = n: int | 0 <= n <= 2

  /** A ring edge together with its category and the credits of its two endpoints. */
  datatype EdgeData = EdgeData(
    category: EdgeCategory,
    start: PointF,
    end: PointF,
    emitStart: EmitCount,
    emitEnd: EmitCount)

  /**
    The EdgeData constructor: an edge is horizontal when the comparer calls
    its endpoints' y equal; a horizontal edge is Right when it runs towards
    larger x and Left otherwise; a non-horizontal edge is Down when it runs
    towards larger y and Up otherwise. Both credits start at zero.
   */
  function NewEdgeData(start: PointF, end: PointF, areEqual: Comparer): (e: EdgeData)
    ensures e.start == start && e.end == end
    ensures IsHorizontal(e.category) <==> areEqual(start.y, end.y)
    ensures e.category.Right? ==> start.x < end.x
    ensures e.category.Left? ==> end.x <= start.x
    ensures e.category.Down? ==> start.y < end.y
    ensures e.category.Up? ==> end.y <= start.y
    ensures e.emitStart == 0 && e.emitEnd == 0
  {
    var category :=
      if areEqual(start.y, end.y) then
        (if start.x < end.x then Right else Left)
      else
        (if start.y < end.y then Down else Up);
    EdgeData(category, start, end, 0, 0)
  }

  /**
    Under a reflexive comparer, a non-horizontal edge really changes y: an Up
    edge runs strictly towards smaller y.
   */
  lemma UpEdgeRunsUpward(start: PointF, end: PointF, areEqual: Comparer)
    requires Reflexive(areEqual)
    requires NewEdgeData(start, end, areEqual).category.Up?
    ensures end.y < start.y
  {
    assert areEqual(start.y, start.y);
  }

  /**
    Under a reflexive comparer that is symmetric on the edge's endpoints,
    walking an edge backwards keeps it horizontal
    or not, and turns Up into Down and Down into Up; a horizontal edge with
    distinct x turns Left into Right and Right into Left.
   */
  lemma ReversedEdgeCategory(start: PointF, end: PointF, areEqual: Comparer)
    requires Reflexive(areEqual)
    requires areEqual(start.y, end.y) == areEqual(end.y, start.y)
    ensures var forward := NewEdgeData(start, end, areEqual).category;
            var backward := NewEdgeData(end, start, areEqual).category;
            && (IsHorizontal(forward) <==> IsHorizontal(backward))
            && (forward.Up? <==> backward.Down?)
            && (start.x != end.x ==> (forward.Left? <==> backward.Right?))
  {
    assert areEqual(start.y, start.y);
  }

  /**
    The crossing credit the vertex table gives the START of the edge leaving
    a vertex, written as the rule the table follows: a vertex between two
    edges of the same vertical direction earns one credit, a reversal earns
    none, and a vertex after a horizontal edge earns 2 when the horizontal
    run and the outgoing edge turn one way (Left then Down, Right then Up)
    and 1 when they turn the other way.
   */
  function StartCredit(incoming: EdgeCategory, outgoing: EdgeCategory): EmitCount {
    if IsHorizontal(outgoing) then 0
    else if !IsHorizontal(incoming) then (if incoming == outgoing then 1 else 0)
    else if incoming.Left? == outgoing.Down? then 2
    else 1
  }

  /**
    The crossing credit the vertex table gives the END of the edge entering
    a vertex: only a vertex before a horizontal edge gives one, 2 when the
    turn is Up then Left or Down then Right and 1 otherwise.
   */
  function EndCredit(incoming: EdgeCategory, outgoing: EdgeCategory): EmitCount {
    if IsHorizontal(incoming) || !IsHorizontal(outgoing) then 0
    else if incoming.Up? == outgoing.Left? then 2
    else 1
  }

  /** The credit rule never credits both sides of one vertex. */
  lemma CreditsAreExclusive(incoming: EdgeCategory, outgoing: EdgeCategory)
    ensures StartCredit(incoming, outgoing) == 0 || EndCredit(incoming, outgoing) == 0
  {
  }

  /** Writes a start credit, leaving the edge as it is when there is none to write. */
  function WithStartCredit(e: EdgeData, credit: EmitCount): EdgeData {
    if credit == 0 then e else e.(emitStart := credit)
  }

  /** Writes an end credit, leaving the edge as it is when there is none to write. */
  function WithEndCredit(e: EdgeData, credit: EmitCount): EdgeData {
    if credit == 0 then e else e.(emitEnd := credit)
  }

  /**
    ApplyVertexCategory: the sixteen-way table. The four vertices between two
    horizontal edges reject the ring; every other vertex writes the credit
    rule's value into the incoming edge's end or the outgoing edge's start
    (never both), and changes nothing else about either edge.
   */
  function ApplyVertexCategory(vc: VertexCategory, fromEdge: EdgeData, toEdge: EdgeData)
    : (r: Result<(EdgeData, EdgeData), BuildError>)
    ensures r.Failure? <==> IsRepeatedHorizontal(vc)
    ensures r.Failure? ==> r.error == RepeatedHorizontal(vc)
    ensures r.Success? ==>
      r.value.0 == WithEndCredit(fromEdge, EndCredit(Incoming(vc), Outgoing(vc)))
    ensures r.Success? ==>
      r.value.1 == WithStartCredit(toEdge, StartCredit(Incoming(vc), Outgoing(vc)))
    ensures r.Success? ==> r.value.0 == fromEdge || r.value.1 == toEdge
  {
    match vc
    case UpUp => Success((fromEdge, toEdge.(emitStart := 1)))
    case UpDown => Success((fromEdge, toEdge))
    case UpLeft => Success((fromEdge.(emitEnd := 2), toEdge))
    case UpRight => Success((fromEdge.(emitEnd := 1), toEdge))
    case DownUp => Success((fromEdge, toEdge))
    case DownDown => Success((fromEdge, toEdge.(emitStart := 1)))
    case DownLeft => Success((fromEdge.(emitEnd := 1), toEdge))
    case DownRight => Success((fromEdge.(emitEnd := 2), toEdge))
    case LeftUp => Success((fromEdge, toEdge.(emitStart := 1)))
    case LeftDown => Success((fromEdge, toEdge.(emitStart := 2)))
    case LeftLeft => Failure(RepeatedHorizontal(vc))
    case LeftRight => Failure(RepeatedHorizontal(vc))
    case RightUp => Success((fromEdge, toEdge.(emitStart := 2)))
    case RightDown => Success((fromEdge, toEdge.(emitStart := 1)))
    case RightLeft => Failure(RepeatedHorizontal(vc))
    case RightRight => Failure(RepeatedHorizontal(vc))
  }

  /**
    A vertex only ever writes credits: the category, the endpoints and the
    other credit of both edges come through unchanged.
   */
  lemma ApplyVertexCategoryFrame(vc: VertexCategory, fromEdge: EdgeData, toEdge: EdgeData)
    requires ApplyVertexCategory(vc, fromEdge, toEdge).Success?
    ensures var (f, t) := ApplyVertexCategory(vc, fromEdge, toEdge).value;
            && f.category == fromEdge.category && f.start == fromEdge.start && f.end == fromEdge.end
            && f.emitStart == fromEdge.emitStart
            && t.category == toEdge.category && t.start == toEdge.start && t.end == toEdge.end
            && t.emitEnd == toEdge.emitEnd
  {
  }

  /** Applying the same vertex category a second time changes nothing more. */
  lemma ApplyVertexCategoryIdempotent(vc: VertexCategory, fromEdge: EdgeData, toEdge: EdgeData)
    requires ApplyVertexCategory(vc, fromEdge, toEdge).Success?
    ensures var (f, t) := ApplyVertexCategory(vc, fromEdge, toEdge).value;
            ApplyVertexCategory(vc, f, t) == Success((f, t))
  {
  }

  /** Bit 0 of a flag word: whether the stored edge was an Up edge. */
  function UpBit(flags: int): int {
    flags % 2
  }

  /** Bits 1-2 of a flag word: the stored start's credit. */
  function EmitStartBits(flags: int): int {
    (flags / 2) % 4
  }

  /** Bits 3-4 of a flag word: the stored end's credit. */
  function EmitEndBits(flags: int): int {
    (flags / 8) % 4
  }

  /**
    `up | (emitStart << 1) | (emitEnd << 3)`: the three fields occupy disjoint
    bits, so the word lies in [0, 32) and each field decodes back unchanged.
   */
  function PackFlags(up: int, emitStart: EmitCount, emitEnd: EmitCount): (flags: int)
    requires up == 0 || up == 1
    ensures 0 <= flags < 32
    ensures UpBit(flags) == up
    ensures EmitStartBits(flags) == emitStart
    ensures EmitEndBits(flags) == emitEnd
  {
    PackFlagsLemma(up as bv8, emitStart as bv8, emitEnd as bv8);
    ((up as bv8) | ((emitStart as bv8) << 1) | ((emitEnd as bv8) << 3)) as int
  }

  lemma PackFlagsLemma(u: bv8, s: bv8, e: bv8)
    requires u < 2 && s < 3 && e < 3
    ensures (u | (s << 1) | (e << 3)) as int == (u as int) + 2 * (s as int) + 8 * (e as int)
  {
    assert u == 0 || u == 1;
    assert s == 0 || s == 1 || s == 2;
    assert e == 0 || e == 1 || e == 2;
  }

  /**
    ToScanEdge: normalises an edge so it runs towards larger y. An Up edge has
    its endpoints and its credits swapped and its up bit set; any other edge
    is stored as it is.
   */
  function ToScanEdge(e: EdgeData): (r: ScanEdge)
    ensures e.category.Up? ==> r.start == e.end && r.end == e.start
    ensures !e.category.Up? ==> r.start == e.start && r.end == e.end
    ensures 0 <= r.flags < 32
    ensures UpBit(r.flags) == 1 <==> e.category.Up?
    ensures EmitStartBits(r.flags) == (if e.category.Up? then e.emitEnd else e.emitStart)
    ensures EmitEndBits(r.flags) == (if e.category.Up? then e.emitStart else e.emitEnd)
  {
    var up := if e.category == Up then 1 else 0;
    var (start, end, emitStart, emitEnd) :=
      if up == 1 then (e.end, e.start, e.emitEnd, e.emitStart)
      else (e.start, e.end, e.emitStart, e.emitEnd);
    ScanEdge(start, end, PackFlags(up, emitStart, emitEnd))
  }

  /**
    Under a reflexive comparer, every non-horizontal ring edge, whatever its
    credits, is stored running strictly towards larger y.
   */
  lemma StoredEdgeRunsDownward(start: PointF, end: PointF, areEqual: Comparer, emitStart: EmitCount, emitEnd: EmitCount)
    requires Reflexive(areEqual)
    requires !IsHorizontal(NewEdgeData(start, end, areEqual).category)
    ensures var stored := ToScanEdge(NewEdgeData(start, end, areEqual).(emitStart := emitStart, emitEnd := emitEnd));
            stored.start.y < stored.end.y
  {
    if NewEdgeData(start, end, areEqual).category.Up? {
      UpEdgeRunsUpward(start, end, areEqual);
    }
  }

  /**
    EmitScanEdge: a horizontal edge writes nothing; any other edge is
    normalised into the slot at the counter, which advances by one, and
    every other slot keeps its content.
   */
  function EmitScanEdge(e: EdgeData, edges: seq<ScanEdge>, edgeCounter: nat): (r: (seq<ScanEdge>, nat))
    requires !IsHorizontal(e.category) ==> edgeCounter < |edges|
    ensures IsHorizontal(e.category) ==> r == (edges, edgeCounter)
    ensures !IsHorizontal(e.category) ==>
      && r.1 == edgeCounter + 1
      && |r.0| == |edges|
      && r.0[edgeCounter] == ToScanEdge(e)
      && (forall p :: 0 <= p < |edges| && p != edgeCounter ==> r.0[p] == edges[p])
  {
    if e.category == Left || e.category == Right then
      (edges, edgeCounter)
    else
      (edges[edgeCounter := ToScanEdge(e)], edgeCounter + 1)
  }
}
