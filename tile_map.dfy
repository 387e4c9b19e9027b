/** The board: a square of Size x Size cells stored in a dictionary keyed by
    the linear index y * Size + x. */
module TileMaps {
  import opened Wrappers

  /** Side of the board. */
  const Size: int := 12

  /** Terrain kinds. Only floor and hole matter to the modelled code; the other
      kinds are told apart by a code. */
  datatype TileEnum = TileFloor | TileHole | TileOther(code: nat)

  /** A placed tile: the terrain kind it stands for, and the asset it was
      instantiated from (opaque here). */
  datatype Tile = Tile(tileIndex: TileEnum, asset: nat)

  predicate InRange(x: int, y: int)
  {
    0 <= x < Size && 0 <= y < Size
  }

  /** The dictionary key of cell (x, y); on the board it is a bijection onto
      [0, Size * Size) whose inverse is (k % Size, k / Size). */
  function Key(x: int, y: int): (k: int)
    ensures InRange(x, y) ==> 0 <= k < Size * Size
    ensures InRange(x, y) ==> k % Size == x && k / Size == y
  {
    y * Size + x
  }

  lemma KeyInjective(x1: int, y1: int, x2: int, y2: int)
    requires InRange(x1, y1) && InRange(x2, y2)
    ensures Key(x1, y1) == Key(x2, y2) ==> x1 == x2 && y1 == y2
  {
  }

  lemma KeyOfCell(k: int)
    requires 0 <= k < Size * Size
    ensures InRange(k % Size, k / Size) && Key(k % Size, k / Size) == k
  {
  }

  class TileMap {
    /** Network identity the movement messages refer to. */
    const netId: nat
    var tiles: map<int, Tile>

    constructor (netId: nat)
      ensures this.netId == netId && tiles == map[]
    {
      this.netId := netId;
      tiles := map[];
    }

    /** The tile at (x, y): null off the board; on the board the dictionary
        indexer, which throws when the key is absent. */
    function GetTileAt(x: int, y: int): (r: Result<Option<Tile>, Exception>)
      reads this
      ensures !InRange(x, y) ==> r == Success(None)
      ensures InRange(x, y) && Key(x, y) in tiles ==> r == Success(Some(tiles[Key(x, y)]))
      ensures InRange(x, y) && Key(x, y) !in tiles ==> r == Failure(KeyNotFound)
    {
      if x >= 0 && x < Size && y >= 0 && y < Size then
        var k := y * Size + x;
        if k in tiles then Success(Some(tiles[k])) else Failure(KeyNotFound)
      else
        Success(None)
    }
  }
}
