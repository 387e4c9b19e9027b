/** The editor-side builder that fills a tile map from an array of terrain
    kinds and a list of tile prefabs. */
module MapBuilders {
  import opened Wrappers
  import opened TileMaps

  /** How many of the first j prefabs stand for terrain `cell`. */
  function MatchCount(prefabs: seq<Tile>, cell: TileEnum, j: nat): nat
    requires j <= |prefabs|
  {
    if j == 0 then 0
    else MatchCount(prefabs, cell, j - 1) + (if prefabs[j - 1].tileIndex == cell then 1 else 0)
  }

  /** The prefab loop for cell i over prefabs 0 .. j-1: every matching prefab
      is added under key i; a second one finds the key taken and throws. */
  function PlaceCell(m: map<int, Tile>, i: int, cell: TileEnum, prefabs: seq<Tile>, j: nat): (r: Partial<map<int, Tile>>)
    requires j <= |prefabs|
    ensures forall k :: k in r.value ==> k in m || k == i
    ensures forall k :: k in m ==> k in r.value && r.value[k] == m[k]
  {
    if j == 0 then Partial(m, true)
    else
      var r := PlaceCell(m, i, cell, prefabs, j - 1);
      if !r.ok || prefabs[j - 1].tileIndex != cell then r
      else if i in r.value then Partial(r.value, false)
      else Partial(r.value[i := prefabs[j - 1]], true)
  }

  /** The dictionary BuildTileMap leaves after cells 0 .. n-1, starting from
      an empty one; holes are skipped. `!ok`: a duplicate key threw. */
  function Build(cells: seq<TileEnum>, prefabs: seq<Tile>, n: nat): (r: Partial<map<int, Tile>>)
    requires n <= |cells|
    ensures forall k :: k in r.value ==> 0 <= k < n && cells[k] != TileHole
  {
    if n == 0 then Partial(map[], true)
    else
      var r := Build(cells, prefabs, n - 1);
      if !r.ok || cells[n - 1] == TileHole then r
      else PlaceCell(r.value, n - 1, cells[n - 1], prefabs, |prefabs|)
  }

  /** One cell: it throws exactly when two or more prefabs match; it gains
      key i exactly when one or more match, bound to a matching prefab, and
      keeps every other entry. */
  lemma {:induction false} PlaceCellMeaning(m: map<int, Tile>, i: int, cell: TileEnum, prefabs: seq<Tile>, j: nat)
    requires j <= |prefabs| && i !in m
    ensures var r := PlaceCell(m, i, cell, prefabs, j);
      && (r.ok <==> MatchCount(prefabs, cell, j) <= 1)
      && r.value.Keys == (if MatchCount(prefabs, cell, j) == 0 then m.Keys else m.Keys + {i})
      && (forall k :: k in m ==> r.value[k] == m[k])
      && (i in r.value ==> r.value[i].tileIndex == cell && r.value[i] in prefabs)
  {
    if j > 0 {
      PlaceCellMeaning(m, i, cell, prefabs, j - 1);
    }
  }

  /** Once a prefab has thrown, the later prefabs change nothing. */
  lemma {:induction false} PlaceCellStop(m: map<int, Tile>, i: int, cell: TileEnum, prefabs: seq<Tile>, a: nat, b: nat)
    requires a <= b <= |prefabs| && !PlaceCell(m, i, cell, prefabs, a).ok
    ensures PlaceCell(m, i, cell, prefabs, b) == PlaceCell(m, i, cell, prefabs, a)
  {
    if b > a {
      PlaceCellStop(m, i, cell, prefabs, a, b - 1);
    }
  }

  /** Once a cell has thrown, the later cells change nothing. */
  lemma {:induction false} BuildStop(cells: seq<TileEnum>, prefabs: seq<Tile>, a: nat, b: nat)
    requires a <= b <= |cells| && !Build(cells, prefabs, a).ok
    ensures Build(cells, prefabs, b) == Build(cells, prefabs, a)
  {
    if b > a {
      BuildStop(cells, prefabs, a, b - 1);
    }
  }

  /** Every key of the built dictionary is a placed cell: inside [0, n), not
      a hole, and bound to a prefab of that cell's terrain. */
  lemma {:induction false} BuildKeys(cells: seq<TileEnum>, prefabs: seq<Tile>, n: nat)
    requires n <= |cells|
    ensures var r := Build(cells, prefabs, n);
      forall k :: k in r.value ==>
        0 <= k < n && cells[k] != TileHole && r.value[k].tileIndex == cells[k] && r.value[k] in prefabs
  {
    if n > 0 {
      BuildKeys(cells, prefabs, n - 1);
      var r := Build(cells, prefabs, n - 1);
      if r.ok && cells[n - 1] != TileHole {
        PlaceCellMeaning(r.value, n - 1, cells[n - 1], prefabs, |prefabs|);
      }
    }
  }

  /** The build throws exactly when some non-hole cell has two or more
      matching prefabs; when it does not throw, a cell has a key exactly when
      it is not a hole and some prefab matches it. */
  lemma {:induction false} BuildOutcome(cells: seq<TileEnum>, prefabs: seq<Tile>, n: nat)
    requires n <= |cells|
    ensures var r := Build(cells, prefabs, n);
      r.ok <==> forall k :: 0 <= k < n && cells[k] != TileHole ==> MatchCount(prefabs, cells[k], |prefabs|) <= 1
    ensures var r := Build(cells, prefabs, n);
      r.ok ==> forall k :: 0 <= k < n ==>
        (k in r.value <==> cells[k] != TileHole && MatchCount(prefabs, cells[k], |prefabs|) >= 1)
  {
    if n > 0 {
      BuildOutcome(cells, prefabs, n - 1);
      var r := Build(cells, prefabs, n - 1);
      if r.ok && cells[n - 1] != TileHole {
        PlaceCellMeaning(r.value, n - 1, cells[n - 1], prefabs, |prefabs|);
      }
    }
  }

  /** Two prefabs of the same terrain make every build of a board that uses
      that terrain throw: the prefab loop does not stop at the first match. */
  lemma SharedTerrainThrows(cells: seq<TileEnum>, prefabs: seq<Tile>, k: nat)
    requires |cells| == Size * Size && k < |cells| && cells[k] != TileHole
    requires MatchCount(prefabs, cells[k], |prefabs|) >= 2
    ensures !Build(cells, prefabs, Size * Size).ok
  {
    BuildOutcome(cells, prefabs, Size * Size);
  }

  /** After a build that did not throw, looking up a cell on the board throws
      KeyNotFound exactly for holes and for terrain no prefab provides;
      otherwise it finds a tile of the cell's terrain. */
  lemma BuiltLookup(m: TileMap, cells: seq<TileEnum>, prefabs: seq<Tile>, x: int, y: int)
    requires |cells| == Size * Size && InRange(x, y)
    requires Build(cells, prefabs, Size * Size).ok && m.tiles == Build(cells, prefabs, Size * Size).value
    ensures var cell := cells[Key(x, y)];
      m.GetTileAt(x, y) == Failure(KeyNotFound) <==> cell == TileHole || MatchCount(prefabs, cell, |prefabs|) == 0
    ensures m.GetTileAt(x, y).Success? ==>
      m.GetTileAt(x, y).value.Some? && m.GetTileAt(x, y).value.value.tileIndex == cells[Key(x, y)]
  {
    BuildOutcome(cells, prefabs, Size * Size);
    BuildKeys(cells, prefabs, Size * Size);
  }

  class TileMapBuilder {
    var resetMap: bool
    var buildMap: bool
    var tilePrefabs: seq<Tile>
    /** Terrain of each cell, indexed by Key(x, y). */
    const tiles: array<TileEnum>
    const tileMap: TileMap

    ghost predicate Valid()
      reads this
    {
      tiles.Length == Size * Size
    }

    /** A builder over `tileMap` with no pending request and an all-floor board. */
    constructor (tileMap: TileMap, prefabs: seq<Tile>)
      ensures Valid() && fresh(tiles) && this.tileMap == tileMap && tilePrefabs == prefabs
      ensures !resetMap && !buildMap
      ensures forall i :: 0 <= i < tiles.Length ==> tiles[i] == TileFloor
    {
      this.tileMap := tileMap;
      tilePrefabs := prefabs;
      resetMap := false;
      buildMap := false;
      tiles := new TileEnum[Size * Size](_ => TileFloor);
    }

    /** Sets every cell of the board to floor. */
    method ResetTileMap()
      requires Valid()
      modifies tiles
      ensures forall i :: 0 <= i < tiles.Length ==> tiles[i] == TileFloor
    {
      for i := 0 to Size * Size
        invariant forall k :: 0 <= k < i ==> tiles[k] == TileFloor
      {
        tiles[i] := TileFloor;
      }
    }

    /** Empties the map's dictionary and adds one entry per non-hole cell and
        matching prefab, in cell order; a second matching prefab for a cell
        throws DuplicateKey and leaves the entries added so far. */
    method BuildTileMap() returns (r: Outcome<Exception>)
      requires Valid()
      modifies tileMap`tiles
      ensures var b := Build(tiles[..], tilePrefabs, Size * Size);
        tileMap.tiles == b.value && r == (if b.ok then Pass else Fail(DuplicateKey))
    {
      ghost var cells := tiles[..];
      tileMap.tiles := map[];
      for i := 0 to Size * Size
        invariant Build(cells, tilePrefabs, i).ok
        invariant tileMap.tiles == Build(cells, tilePrefabs, i).value
      {
        if tiles[i] != TileHole {
          r := PlacePrefabs(cells, i);
          if r.Fail? {
            BuildStop(cells, tilePrefabs, i + 1, Size * Size);
            return;
          }
        }
      }
      r := Pass;
    }

    /** The prefab loop of BuildTileMap for cell i. */
    method PlacePrefabs(ghost cells: seq<TileEnum>, i: nat) returns (r: Outcome<Exception>)
      requires Valid() && cells == tiles[..] && i < Size * Size && tiles[i] != TileHole
      requires Build(cells, tilePrefabs, i).ok && tileMap.tiles == Build(cells, tilePrefabs, i).value
      modifies tileMap`tiles
      ensures var b := Build(cells, tilePrefabs, i + 1);
        tileMap.tiles == b.value && r == (if b.ok then Pass else Fail(DuplicateKey))
    {
      ghost var m := tileMap.tiles;
      for j := 0 to |tilePrefabs|
        invariant PlaceCell(m, i, tiles[i], tilePrefabs, j).ok
        invariant tileMap.tiles == PlaceCell(m, i, tiles[i], tilePrefabs, j).value
      {
        if tilePrefabs[j].tileIndex == tiles[i] {
          if i in tileMap.tiles {
            PlaceCellStop(m, i, tiles[i], tilePrefabs, j + 1, |tilePrefabs|);
            return Fail(DuplicateKey);
          }
          tileMap.tiles := tileMap.tiles[i := tilePrefabs[j]];
        }
      }
      r := Pass;
    }

    /** One editor frame: a reset request resets the board and rebuilds; a
        build request rebuilds. Each flag is cleared only after its build
        returns; an exception leaves it set and skips the rest. */
    method Update() returns (r: Outcome<Exception>)
      requires Valid()
      modifies this`resetMap, this`buildMap, tiles, tileMap`tiles
      ensures old(resetMap) ==> forall i :: 0 <= i < tiles.Length ==> tiles[i] == TileFloor
      ensures !old(resetMap) ==> tiles[..] == old(tiles[..])
      ensures !old(resetMap) && !old(buildMap) ==> tileMap.tiles == old(tileMap.tiles) && r == Pass
      ensures old(resetMap) || old(buildMap) ==>
        var b := Build(tiles[..], tilePrefabs, Size * Size);
        tileMap.tiles == b.value && r == (if b.ok then Pass else Fail(DuplicateKey))
      ensures r == Pass ==> !resetMap && !buildMap
      ensures r != Pass ==> buildMap == old(buildMap) && resetMap == old(resetMap)
    {
      r := Pass;
      if resetMap {
        ResetTileMap();
        r := BuildTileMap();
        if r.Fail? {
          return;
        }
        resetMap := false;
      }
      if buildMap {
        r := BuildTileMap();
        if r.Fail? {
          return;
        }
        buildMap := false;
      }
    }
  }
}
