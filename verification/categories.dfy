/**
  Edge and vertex categories of the scan-edge builder, the packing of a pair
  of edge categories into a vertex category, and the builder's error cases.
 */
module Categories {
  import opened Results

  /** The direction of a ring edge; Up and Down are non-horizontal, Left and Right horizontal. */
  datatype EdgeCategory = Up | Down | Left | Right

  predicate IsHorizontal(c: EdgeCategory) {
    c.Left? || c.Right?
  }

  /** The enum's underlying value: Up = 0, Down = 1, Left = 2, Right = 3. */
  function Ordinal(c: EdgeCategory): (n: int)
    ensures 0 <= n < 4
    ensures IsHorizontal(c) <==> 2 <= n
  {
    match c
    case Up => 0
    case Down => 1
    case Left => 2
    case Right => 3
  }

  /**
    The pair (incoming edge category, outgoing edge category) at a ring
    vertex, one constructor per enum member, in the enum's declaration order.
   */
  datatype VertexCategory =
    | UpUp | UpDown | UpLeft | UpRight
    | DownUp | DownDown | DownLeft | DownRight
    | LeftUp | LeftDown | LeftLeft | LeftRight
    | RightUp | RightDown | RightLeft | RightRight

  /** The category of the edge entering the vertex, as the member's name says. */
  function Incoming(vc: VertexCategory): EdgeCategory {
    match vc
    case UpUp | UpDown | UpLeft | UpRight => Up
    case DownUp | DownDown | DownLeft | DownRight => Down
    case LeftUp | LeftDown | LeftLeft | LeftRight => Left
    case RightUp | RightDown | RightLeft | RightRight => Right
  }

  /** The category of the edge leaving the vertex, as the member's name says. */
  function Outgoing(vc: VertexCategory): EdgeCategory {
    match vc
    case UpUp | DownUp | LeftUp | RightUp => Up
    case UpDown | DownDown | LeftDown | RightDown => Down
    case UpLeft | DownLeft | LeftLeft | RightLeft => Left
    case UpRight | DownRight | LeftRight | RightRight => Right
  }

  /** A vertex joining two horizontal edges: the four members the builder rejects. */
  predicate IsRepeatedHorizontal(vc: VertexCategory) {
    IsHorizontal(Incoming(vc)) && IsHorizontal(Outgoing(vc))
  }

  /** The enum's underlying value of a vertex category (its declaration index). */
  function VertexCategoryValue(vc: VertexCategory): int {
    match vc
    case UpUp => 0      case UpDown => 1     case UpLeft => 2     case UpRight => 3
    case DownUp => 4    case DownDown => 5   case DownLeft => 6   case DownRight => 7
    case LeftUp => 8    case LeftDown => 9   case LeftLeft => 10  case LeftRight => 11
    case RightUp => 12  case RightDown => 13 case RightLeft => 14 case RightRight => 15
  }

  /** The cast of an in-range integer to the vertex-category enum. */
  function VertexCategoryFromValue(value: int): (vc: VertexCategory)
    requires 0 <= value < 16
    ensures VertexCategoryValue(vc) == value
  {
    if value == 0 then UpUp else if value == 1 then UpDown
    else if value == 2 then UpLeft else if value == 3 then UpRight
    else if value == 4 then DownUp else if value == 5 then DownDown
    else if value == 6 then DownLeft else if value == 7 then DownRight
    else if value == 8 then LeftUp else if value == 9 then LeftDown
    else if value == 10 then LeftLeft else if value == 11 then LeftRight
    else if value == 12 then RightUp else if value == 13 then RightDown
    else if value == 14 then RightLeft else RightRight
  }

  /** Every vertex category survives the round trip through its underlying value. */
  lemma VertexCategoryValueRoundTrip(vc: VertexCategory)
    ensures 0 <= VertexCategoryValue(vc) < 16
    ensures VertexCategoryFromValue(VertexCategoryValue(vc)) == vc
  {
  }

  /**
    `(previous << 2) | current` on the two enum values: the shift and the or
    never overlap, so the result is the base-4 pair and lies in [0, 16).
   */
  function CreateVertexCategoryValue(previous: EdgeCategory, current: EdgeCategory): (value: int)
    ensures 0 <= value < 16
    ensures value == 4 * Ordinal(previous) + Ordinal(current)
  {
    PackPairLemma(Ordinal(previous) as bv8, Ordinal(current) as bv8);
    (((Ordinal(previous) as bv8) << 2) | (Ordinal(current) as bv8)) as int
  }

  lemma PackPairLemma(p: bv8, c: bv8)
    requires p < 4 && c < 4
    ensures ((p << 2) | c) as int == 4 * (p as int) + (c as int)
  {
    assert p == 0 || p == 1 || p == 2 || p == 3;
    assert c == 0 || c == 1 || c == 2 || c == 3;
  }

  /** Distinct pairs of edge categories pack to distinct values. */
  lemma CreateVertexCategoryValueInjective(a: EdgeCategory, b: EdgeCategory, c: EdgeCategory, d: EdgeCategory)
    requires CreateVertexCategoryValue(a, b) == CreateVertexCategoryValue(c, d)
    ensures a == c && b == d
  {
  }

  /** The debug-only range check on a vertex-category value. */
  function VerifyVertexCategory(value: int): (r: Outcome<string>)
    ensures r.Pass? <==> 0 <= value < 16
  {
    if value < 0 || value >= 16 then Fail("EdgeCategoryPair value shall be: 0 <= value < 16") else Pass
  }

  /** The debug range check never fails on a packed pair of edge categories. */
  lemma VerifyVertexCategoryNeverFails(previous: EdgeCategory, current: EdgeCategory)
    ensures VerifyVertexCategory(CreateVertexCategoryValue(previous, current)) == Pass
  {
  }

  /**
    The vertex category of an incoming and an outgoing edge: the packed value
    cast to the enum names exactly that pair.
   */
  function CreateVertexCategory(previous: EdgeCategory, current: EdgeCategory): (vc: VertexCategory)
    ensures Incoming(vc) == previous && Outgoing(vc) == current
    ensures VertexCategoryValue(vc) == CreateVertexCategoryValue(previous, current)
  {
    var value := CreateVertexCategoryValue(previous, current);
    assert VerifyVertexCategory(value).Pass?;
    VertexCategoryFromValue(value)
  }

  /** Every vertex category is the packing of its own incoming and outgoing categories. */
  lemma CreateVertexCategoryOnto(vc: VertexCategory)
    ensures CreateVertexCategory(Incoming(vc), Outgoing(vc)) == vc
  {
    VertexCategoryValueRoundTrip(vc);
  }

  /**
    The reasons the builder throws InvalidOperationException: a ring with too
    few vertices, or a vertex that joins two horizontal edges.
   */
  datatype BuildError = TooFewVertices | RepeatedHorizontal(category: VertexCategory)
}
