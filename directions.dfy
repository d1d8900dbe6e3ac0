/**
 * The six faces of a grid cell or tile. The source keeps two copies of this
 * enumeration (Side3D in Tile3D.cs and Cell3D.Direction in Cell3D.cs) with the
 * same members in the same order; both are this one datatype here.
 *
 * Axis convention of the generator: Forward is +z, Back is -z, Right is +x,
 * Left is -x, Up is +y, Down is -y.
 */
module Directions {

  datatype Direction = Forward | Right | Back | Left | Up | Down
  {
    /** The face a neighbour in this direction presents to us. */
    function Opposite(): (r: Direction)
      ensures r != this
      ensures r.Dx() == -Dx() && r.Dy() == -Dy() && r.Dz() == -Dz()
    {
      match this
      case Forward => Back
      case Right => Left
      case Back => Forward
      case Left => Right
      case Up => Down
      case Down => Up
    }

    /** Position of the direction in the enumeration (Forward = 0 ... Down = 5). */
    function Index(): (r: nat)
      ensures r < 6
    {
      match this
      case Forward => 0
      case Right => 1
      case Back => 2
      case Left => 3
      case Up => 4
      case Down => 5
    }

    /** The unit offset of the neighbouring cell in this direction. */
    function Dx(): int
    {
      match this
      case Right => 1
      case Left => -1
      case _ => 0
    }

    function Dy(): int
    {
      match this
      case Up => 1
      case Down => -1
      case _ => 0
    }

    function Dz(): int
    {
      match this
      case Forward => 1
      case Back => -1
      case _ => 0
    }
  }

  /** The enumeration in declaration order, which is also the order in which
      the propagation sweep looks at the neighbours of a cell. */
  const AllDirections: seq<Direction> := [Forward, Right, Back, Left, Up, Down]

  /** Opposite is an involution and Index is a bijection onto 0..5. */
  lemma DirectionFacts()
    ensures forall d: Direction :: d.Opposite().Opposite() == d
    ensures forall d: Direction, e: Direction :: d.Index() == e.Index() ==> d == e
    ensures forall d: Direction :: d in AllDirections && AllDirections[d.Index()] == d
    ensures forall d: Direction :: d.Opposite().Dx() == -d.Dx() && d.Opposite().Dy() == -d.Dy() && d.Opposite().Dz() == -d.Dz()
  {
    forall d: Direction
      ensures d in AllDirections && AllDirections[d.Index()] == d
    {
      match d
      case Forward =>
      case Right =>
      case Back =>
      case Left =>
      case Up =>
      case Down =>
    }
  }
}
