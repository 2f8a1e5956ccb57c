/** The four exit slots of a room and the geometric relations the generator
    derives from room positions. */
module Directions {

  /** The source keys exits by the strings "north", "east", "south", "west". */
  datatype Direction = North | East | South | West

  /** The default candidate list of `get_available_directions`, in its order. */
  const AllDirections: seq<Direction> := [North, East, South, West]

  /** The dictionary key the source uses for a direction. */
  function Name(d: Direction): string
  {
    match d
    case North => "north"
    case East => "east"
    case South => "south"
    case West => "west"
  }

  predicate IsVertical(d: Direction)
  {
    d == North || d == South
  }

  /** The fixed pairing north/south, east/west used to mirror every exit. */
  function Opposite(d: Direction): (o: Direction)
    ensures o != d
    ensures IsVertical(o) == IsVertical(d)
  {
    match d
    case North => South
    case South => North
    case East => West
    case West => East
  }

  lemma OppositeIsInvolution(d: Direction)
    ensures Opposite(Opposite(d)) == d
    ensures forall e :: Opposite(e) == Opposite(d) ==> e == d
  {
  }

  /** Direction the spanning phase gives the edge from (x1, y1) to (x2, y2):
      the x test comes first, and equal positions fall through to South. */
  function SpanDirection(x1: int, y1: int, x2: int, y2: int): (d: Direction)
    ensures d == East <==> x1 < x2
    ensures d == West <==> x1 > x2
    ensures d == North <==> x1 == x2 && y1 < y2
    ensures d == South <==> x1 == x2 && y1 >= y2
  {
    if x1 < x2 then East
    else if x1 > x2 then West
    else if y1 < y2 then North
    else South
  }

  /** (x2, y2) lies strictly beyond (x1, y1) along d, on the same column for
      North/South and on the same row for East/West: the enrichment test. */
  predicate Aligned(d: Direction, x1: int, y1: int, x2: int, y2: int): (b: bool)
    ensures b <==> (x1 == x2 || y1 == y2) && (x1, y1) != (x2, y2) && d == SpanDirection(x1, y1, x2, y2)
  {
    match d
    case North => x1 == x2 && y1 < y2
    case South => x1 == x2 && y1 > y2
    case East => y1 == y2 && x1 < x2
    case West => y1 == y2 && x1 > x2
  }

  /** On a shared row or column the spanning direction is the aligned one, and
      seen from the other end the pair is aligned along the opposite
      direction; for equal positions the spanning direction is South although
      no direction is aligned. */
  lemma SpanDirectionMatchesAlignment(x1: int, y1: int, x2: int, y2: int)
    ensures (x1 == x2 || y1 == y2) && (x1, y1) != (x2, y2) ==>
              Aligned(SpanDirection(x1, y1, x2, y2), x1, y1, x2, y2) &&
              Aligned(Opposite(SpanDirection(x1, y1, x2, y2)), x2, y2, x1, y1)
    ensures (x1, y1) == (x2, y2) ==>
              SpanDirection(x1, y1, x2, y2) == South &&
              forall d :: !Aligned(d, x1, y1, x2, y2)
  {
  }
}
