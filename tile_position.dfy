/** A cell address on a given board, and its translation along a facing. */
module TilePositions {
  import opened Wrappers
  import opened Directions
  import opened TileMaps

  datatype TilePosition = TilePosition(tileMap: TileMap, x: int, y: int)

  predicate OnBoard(p: TilePosition)
  {
    InRange(p.x, p.y)
  }

  /** The tile under a position, as the board's lookup reports it. */
  function GetTile(p: TilePosition): (r: Result<Option<Tile>, Exception>)
    reads p.tileMap
    ensures !OnBoard(p) ==> r == Success(None)
    ensures OnBoard(p) ==> (r.Success? <==> Key(p.x, p.y) in p.tileMap.tiles)
    ensures r.Success? && r.value.Some? ==> r.value.value == p.tileMap.tiles[Key(p.x, p.y)]
  {
    p.tileMap.GetTileAt(p.x, p.y)
  }

  /** The position `distance` cells along `d`, wherever that lands. */
  function Shift(p: TilePosition, d: Direction, distance: int): (q: TilePosition)
    ensures q.tileMap == p.tileMap
    ensures q.x == p.x + distance * DeltaX(d) && q.y == p.y + distance * DeltaY(d)
  {
    match d
    case North => p.(y := p.y + distance)
    case East => p.(x := p.x + distance)
    case South => p.(y := p.y - distance)
    case West => p.(x := p.x - distance)
  }

  /** Offset as written: null when the position is on the last row or column
      in the direction of travel; otherwise the shifted position, whatever the
      distance. The guard looks one cell ahead only. The distance is one
      cell unless given. */
  function Offset(p: TilePosition, d: Direction, distance: int := 1): (r: Option<TilePosition>)
    ensures d == North ==> (r.None? <==> p.y >= Size - 1)
    ensures d == East ==> (r.None? <==> p.x >= Size - 1)
    ensures d == South ==> (r.None? <==> p.y <= 0)
    ensures d == West ==> (r.None? <==> p.x <= 0)
    ensures r.Some? ==> r.value == Shift(p, d, distance)
  {
    match d
    case North => if p.y < Size - 1 then Some(TilePosition(p.tileMap, p.x, p.y + distance)) else None
    case East => if p.x < Size - 1 then Some(TilePosition(p.tileMap, p.x + distance, p.y)) else None
    case South => if p.y > 0 then Some(TilePosition(p.tileMap, p.x, p.y - distance)) else None
    case West => if p.x > 0 then Some(TilePosition(p.tileMap, p.x - distance, p.y)) else None
  }

  /** A shift leaves the board and one coordinate alone and moves the other by
      exactly the distance. */
  lemma ShiftMovesOneCoordinate(p: TilePosition, d: Direction, distance: int)
    ensures var q := Shift(p, d, distance);
      q.tileMap == p.tileMap &&
      ((q.x == p.x && (q.y - p.y == distance || p.y - q.y == distance)) ||
       (q.y == p.y && (q.x - p.x == distance || p.x - q.x == distance)))
  {
  }

  /** For one cell from a position on the board, Offset answers null exactly
      when the step would leave the board, so a non-null answer is on it. */
  lemma OffsetUnitStep(p: TilePosition, d: Direction)
    requires OnBoard(p)
    ensures Offset(p, d).None? <==> !OnBoard(Shift(p, d, 1))
    ensures Offset(p, d).Some? ==> OnBoard(Offset(p, d).value)
  {
  }

  /** Two cells north from row Size - 2: the guard passes and the answer is
      row Size, off the board. */
  lemma OffsetOverrunsBoard(m: TileMap)
    ensures OnBoard(TilePosition(m, 0, Size - 2))
    ensures Offset(TilePosition(m, 0, Size - 2), North, 2) == Some(TilePosition(m, 0, Size))
    ensures !OnBoard(TilePosition(m, 0, Size))
  {
  }

  /** Offset with the bounds check the board calls for: null exactly when the
      destination is off the board, for every distance. */
  function OffsetWithinBoard(p: TilePosition, d: Direction, distance: int): (r: Option<TilePosition>)
    ensures r.Some? <==> OnBoard(Shift(p, d, distance))
    ensures r.Some? ==> r.value == Shift(p, d, distance) && OnBoard(r.value)
  {
    var q := Shift(p, d, distance);
    if InRange(q.x, q.y) then Some(q) else None
  }

  /** The two agree on every single-cell step that starts on the board. */
  lemma OffsetWithinBoardAgrees(p: TilePosition, d: Direction)
    requires OnBoard(p)
    ensures OffsetWithinBoard(p, d, 1) == Offset(p, d)
  {
    OffsetUnitStep(p, d);
  }
}
