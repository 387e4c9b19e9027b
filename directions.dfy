/** The four facings of a robot and the rotations between them. */
module Directions {

  datatype Direction = North | East | South | West

  /** Clockwise position of a facing on the cycle North, East, South, West:
      the reference against which the rotations are specified. */
  function Quarter(d: Direction): (q: nat)
    ensures q < 4
  {
    match d
    case North => 0
    case East => 1
    case South => 2
    case West => 3
  }

  /** A quarter turn counter-clockwise. */
  function Left(d: Direction): (r: Direction)
    ensures Quarter(r) == (Quarter(d) + 3) % 4
  {
    match d
    case North => West
    case East => North
    case South => East
    case West => South
  }

  /** A quarter turn clockwise. */
  function Right(d: Direction): (r: Direction)
    ensures Quarter(r) == (Quarter(d) + 1) % 4
  {
    match d
    case North => East
    case East => South
    case South => West
    case West => North
  }

  /** A half turn. */
  function Opposite(d: Direction): (r: Direction)
    ensures Quarter(r) == (Quarter(d) + 2) % 4
  {
    match d
    case North => South
    case East => West
    case South => North
    case West => East
  }

  /** Heading in whole degrees about the vertical axis; the source returns
      these as floats, all of them integral. */
  function Rotation(d: Direction): (deg: int)
    ensures -180 < deg <= 180
    ensures (deg - 90 * Quarter(d)) % 360 == 0
  {
    match d
    case North => 0
    case East => 90
    case South => 180
    case West => -90
  }

  lemma LeftRightInverse(d: Direction)
    ensures Left(Right(d)) == d && Right(Left(d)) == d
  {
  }

  lemma OppositeInvolution(d: Direction)
    ensures Opposite(Opposite(d)) == d
    ensures Opposite(d) != d
  {
  }

  lemma FourQuarterTurns(d: Direction)
    ensures Left(Left(Left(Left(d)))) == d
    ensures Right(Right(Right(Right(d)))) == d
    ensures Left(Left(d)) == Opposite(d) == Right(Right(d))
  {
  }

  lemma TurnsDistinct(d: Direction)
    ensures Left(d) != d && Right(d) != d && Opposite(d) != d
    ensures Left(d) != Right(d) && Left(d) != Opposite(d) && Right(d) != Opposite(d)
  {
  }

  lemma RotationQuarterTurns(d: Direction)
    ensures (Rotation(Right(d)) - Rotation(d) - 90) % 360 == 0
    ensures (Rotation(Left(d)) - Rotation(d) + 90) % 360 == 0
    ensures (Rotation(Opposite(d)) - Rotation(d) - 180) % 360 == 0
  {
  }

  /** One cell along a facing: North is +y and East is +x. */
  function DeltaX(d: Direction): int
  {
    match d
    case East => 1
    case West => -1
    case _ => 0
  }

  function DeltaY(d: Direction): int
  {
    match d
    case North => 1
    case South => -1
    case _ => 0
  }

  /** A step moves exactly one coordinate by one, a clockwise quarter turn
      rotates the step vector clockwise, and a half turn reverses it. */
  lemma UnitSteps(d: Direction)
    ensures (DeltaX(d) == 0) != (DeltaY(d) == 0)
    ensures -1 <= DeltaX(d) <= 1 && -1 <= DeltaY(d) <= 1
    ensures DeltaX(Right(d)) == DeltaY(d) && DeltaY(Right(d)) == -DeltaX(d)
    ensures DeltaX(Opposite(d)) == -DeltaX(d) && DeltaY(Opposite(d)) == -DeltaY(d)
  {
  }
}
