/** The tile map: a flat, row-major sequence of tiles, the coordinate-to-index
    mapping with its hard-coded row width, and map generation (border walls
    followed by 400 random wall trials that spare the spawn cell).
    The random number generator is replaced by an injected sequence of rolls. */
module TileMap {

  /** The two kinds of map cell. */
  datatype TileType = Wall | Floor

  /** The row width that the index mapping multiplies by, whatever width the
      caller builds the map with. */
  const RowWidth: nat := 80

  /** Number of random wall trials. */
  const Trials: nat := 400

  /** Largest value of a signed 32-bit integer (the source's coordinate type). */
  const I32Max: int := 0x7fff_ffff

  /** One random wall trial: the two dice rolls for its column and row. */
  datatype Roll = Roll(x: nat, y: nat)

  /** Linear index of cell (x, y); decoding it with % and / by the row width
      gives the coordinates back whenever x fits in a row. */
  function XyIdx(x: nat, y: nat): (idx: nat)
    ensures x < RowWidth ==> idx % RowWidth == x && idx / RowWidth == y
  {
    y * RowWidth + x
  }

  /** Every index is the index of exactly one cell whose column fits in a row. */
  lemma XyIdxDecode(idx: nat)
    ensures XyIdx(idx % RowWidth, idx / RowWidth) == idx
  {
  }

  /** Two cells whose columns fit in a row share an index only if they are the same cell. */
  lemma XyIdxInjective(x: nat, y: nat, x': nat, y': nat)
    requires x < RowWidth && x' < RowWidth
    ensures XyIdx(x, y) == XyIdx(x', y') <==> x == x' && y == y'
  {
  }

  /** With a map at least as wide as the hard-coded row width, every cell of
      the width-by-height rectangle indexes inside the map. */
  lemma CellInBounds(x: nat, y: nat, width: nat, height: nat)
    requires RowWidth <= width && x < width && y < height
    ensures XyIdx(x, y) < width * height
  {
    assert y * RowWidth <= y * width by {
      assert y * width - y * RowWidth == y * (width - RowWidth);
    }
    assert (y + 1) * width <= height * width by {
      assert height * width - (y + 1) * width == (height - (y + 1)) * width;
    }
  }

  /** The cell an in-place trial with this roll would write, were it not the spawn cell. */
  function RollIdx(r: Roll): nat
  {
    XyIdx(r.x, r.y)
  }

  /** The player's spawn cell, which random placement never walls. */
  function SpawnIdx(width: nat, height: nat): nat
  {
    XyIdx(width / 2, height / 2)
  }

  /** Each roll lies in the range the dice are asked for: [1, width-1] by [1, height-1]. */
  predicate RollsInRange(rolls: seq<Roll>, width: int, height: int)
  {
    forall k :: 0 <= k < |rolls| ==> 1 <= rolls[k].x <= width - 1 && 1 <= rolls[k].y <= height - 1
  }

  /** Is the cell (x, y) on the border of a width-by-height rectangle? */
  predicate IsBorder(x: nat, y: nat, width: nat, height: nat)
  {
    x == 0 || x == width - 1 || y == 0 || y == height - 1
  }

  // ---------------------------------------------------------------------------
  // Random wall placement
  // ---------------------------------------------------------------------------

  /** The set of indices the rolls point at; there are at most as many as rolls. */
  function HitCells(rolls: seq<Roll>): (cells: set<nat>)
    ensures |cells| <= |rolls|
    ensures forall k :: 0 <= k < |rolls| ==> RollIdx(rolls[k]) in cells
    ensures forall i :: i in cells ==> exists k :: 0 <= k < |rolls| && RollIdx(rolls[k]) == i
    decreases |rolls|
  {
    if rolls == [] then {}
    else
      var init := rolls[..|rolls| - 1];
      var cells := HitCells(init) + {RollIdx(rolls[|rolls| - 1])};
      assert forall k :: 0 <= k < |init| ==> init[k] == rolls[k];
      cells
  }

  /** One trial: wall the rolled cell unless it is the spawn cell. */
  function PlaceWall(m: seq<TileType>, width: nat, height: nat, r: Roll): seq<TileType>
    requires RollIdx(r) < |m|
  {
    var idx := RollIdx(r);
    if idx != SpawnIdx(width, height) then m[idx := Wall] else m
  }

  /** The map after the trials of `rolls`, made in order; it keeps its length. */
  function PlaceWalls(m: seq<TileType>, width: nat, height: nat, rolls: seq<Roll>): (m': seq<TileType>)
    requires RowWidth <= width && |m| == width * height
    requires RollsInRange(rolls, width, height)
    ensures |m'| == |m|
    decreases |rolls|
  {
    if rolls == [] then m
    else
      var last := rolls[|rolls| - 1];
      CellInBounds(last.x, last.y, width, height);
      PlaceWall(PlaceWalls(m, width, height, rolls[..|rolls| - 1]), width, height, last)
  }

  /** Cell by cell, random placement walls exactly the rolled cells other than
      the spawn cell and leaves every other cell as it was. */
  lemma {:induction false} PlaceWallsAt(m: seq<TileType>, width: nat, height: nat, rolls: seq<Roll>, i: nat)
    requires RowWidth <= width && |m| == width * height
    requires RollsInRange(rolls, width, height)
    requires i < |m|
    ensures PlaceWalls(m, width, height, rolls)[i]
         == if i in HitCells(rolls) && i != SpawnIdx(width, height) then Wall else m[i]
    decreases |rolls|
  {
    if rolls != [] {
      var init := rolls[..|rolls| - 1];
      PlaceWallsAt(m, width, height, init, i);
      assert HitCells(rolls) == HitCells(init) + {RollIdx(rolls[|rolls| - 1])};
    }
  }

  /** Random placement never writes Floor: a Wall stays a Wall, and a cell that
      changed became a Wall. */
  lemma PlaceWallsOnlyWalls(m: seq<TileType>, width: nat, height: nat, rolls: seq<Roll>, i: nat)
    requires RowWidth <= width && |m| == width * height
    requires RollsInRange(rolls, width, height)
    requires i < |m|
    ensures m[i] == Wall ==> PlaceWalls(m, width, height, rolls)[i] == Wall
    ensures PlaceWalls(m, width, height, rolls)[i] != m[i] ==> PlaceWalls(m, width, height, rolls)[i] == Wall
  {
    PlaceWallsAt(m, width, height, rolls, i);
  }

  /** Random placement leaves the spawn cell as it was. */
  lemma PlaceWallsKeepsSpawn(m: seq<TileType>, width: nat, height: nat, rolls: seq<Roll>)
    requires RowWidth <= width && |m| == width * height
    requires RollsInRange(rolls, width, height)
    requires SpawnIdx(width, height) < |m|
    ensures PlaceWalls(m, width, height, rolls)[SpawnIdx(width, height)] == m[SpawnIdx(width, height)]
  {
    PlaceWallsAt(m, width, height, rolls, SpawnIdx(width, height));
  }

  /** A cell that no roll points at keeps its value. */
  lemma PlaceWallsKeepsUnhit(m: seq<TileType>, width: nat, height: nat, rolls: seq<Roll>, i: nat)
    requires RowWidth <= width && |m| == width * height
    requires RollsInRange(rolls, width, height)
    requires i < |m|
    requires forall k :: 0 <= k < |rolls| ==> RollIdx(rolls[k]) != i
    ensures PlaceWalls(m, width, height, rolls)[i] == m[i]
  {
    PlaceWallsAt(m, width, height, rolls, i);
  }

  /** The indices at which two maps of equal length differ. */
  function ChangedCells(m: seq<TileType>, m': seq<TileType>): set<nat>
    requires |m| == |m'|
  {
    set i: nat | i < |m| && m[i] != m'[i]
  }

  /** Random placement changes at most one cell per trial. */
  lemma PlaceWallsChangesAtMost(m: seq<TileType>, width: nat, height: nat, rolls: seq<Roll>)
    requires RowWidth <= width && |m| == width * height
    requires RollsInRange(rolls, width, height)
    ensures |ChangedCells(m, PlaceWalls(m, width, height, rolls))| <= |rolls|
  {
    var m' := PlaceWalls(m, width, height, rolls);
    forall i | i in ChangedCells(m, m')
      ensures i in HitCells(rolls)
    {
      PlaceWallsAt(m, width, height, rolls, i);
    }
    SubsetCardinality(ChangedCells(m, m'), HitCells(rolls));
  }

  lemma SubsetCardinality(a: set<nat>, b: set<nat>)
    requires a <= b
    ensures |a| <= |b|
  {
    assert b == a + (b - a);
  }

  /** generate_random_walls: the 400 trials, made in place on the map. */
  method GenerateRandomWalls(tiles: array<TileType>, width: nat, height: nat, rolls: seq<Roll>)
    requires RowWidth <= width && tiles.Length == width * height
    requires |rolls| == Trials && RollsInRange(rolls, width, height)
    modifies tiles
    ensures tiles[..] == PlaceWalls(old(tiles[..]), width, height, rolls)
  {
    for t := 0 to Trials
      invariant tiles[..] == PlaceWalls(old(tiles[..]), width, height, rolls[..t])
    {
      var r := rolls[t];
      CellInBounds(r.x, r.y, width, height);
      var idx := XyIdx(r.x, r.y);
      if idx != XyIdx(width / 2, height / 2) {
        tiles[idx] := Wall;
      }
      assert rolls[..t + 1][..t] == rolls[..t];
    }
    assert rolls[..Trials] == rolls;
  }

  // ---------------------------------------------------------------------------
  // Border walls and the whole map
  // ---------------------------------------------------------------------------

  /** Index i is written by the first `n` rounds of the loop over columns,
      which walls row 0 and row `bottom` (height-1). */
  ghost predicate RowLoopWrote(bottom: nat, n: nat, i: int)
  {
    (exists x: nat :: x < n && i == XyIdx(x, 0))
    || (exists x: nat :: x < n && i == XyIdx(x, bottom))
  }

  /** Index i is written by the first `n` rounds of the loop over rows, which
      walls column 0 and column `right` (width-1). */
  ghost predicate ColLoopWrote(right: nat, n: nat, i: int)
  {
    (exists y: nat :: y < n && i == XyIdx(0, y))
    || (exists y: nat :: y < n && i == XyIdx(right, y))
  }

  /** The map after the two border loops: Wall exactly where they write. */
  ghost function Bordered(width: nat, height: nat): seq<TileType>
    requires 1 <= width && 1 <= height
  {
    seq(width * height, i =>
      if RowLoopWrote(height - 1, width, i) || ColLoopWrote(width - 1, height, i) then Wall else Floor)
  }

  /** The map new_map returns for these dimensions and rolls. */
  ghost function Generated(width: nat, height: nat, rolls: seq<Roll>): seq<TileType>
    requires RowWidth <= width && 1 <= height && RollsInRange(rolls, width, height)
  {
    PlaceWalls(Bordered(width, height), width, height, rolls)
  }

  /** new_map: a width*height map of Floor, its border rows and columns walled,
      then the random wall trials. */
  method NewMap(width: nat, height: nat, rolls: seq<Roll>) returns (tiles: array<TileType>)
    requires RowWidth <= width && 2 <= height && width * height <= I32Max
    requires |rolls| == Trials && RollsInRange(rolls, width, height)
    ensures fresh(tiles)
    ensures tiles.Length == width * height
    ensures tiles[..] == Generated(width, height, rolls)
  {
    tiles := new TileType[width * height](_ => Floor);
    for x := 0 to width
      invariant forall i :: 0 <= i < tiles.Length ==>
        tiles[i] == if RowLoopWrote(height - 1, x, i) then Wall else Floor
    {
      CellInBounds(x, 0, width, height);
      CellInBounds(x, height - 1, width, height);
      tiles[XyIdx(x, 0)] := Wall;
      tiles[XyIdx(x, height - 1)] := Wall;
    }
    for y := 0 to height
      invariant forall i :: 0 <= i < tiles.Length ==>
        tiles[i] == if RowLoopWrote(height - 1, width, i) || ColLoopWrote(width - 1, y, i) then Wall else Floor
    {
      CellInBounds(0, y, width, height);
      CellInBounds(width - 1, y, width, height);
      tiles[XyIdx(0, y)] := Wall;
      tiles[XyIdx(width - 1, y)] := Wall;
    }
    assert tiles[..] == Bordered(width, height);
    GenerateRandomWalls(tiles, width, height, rolls);
  }

  /** With the hard-coded row width, the border loops wall exactly the border
      cells. */
  lemma BorderedAt(height: nat, x: nat, y: nat)
    requires 1 <= height && x < RowWidth && y < height
    ensures Bordered(RowWidth, height)[XyIdx(x, y)] == Wall <==> IsBorder(x, y, RowWidth, height)
  {
    CellInBounds(x, y, RowWidth, height);
    var i := XyIdx(x, y);
    if IsBorder(x, y, RowWidth, height) {
      if y == 0 {
        assert i == XyIdx(x, 0);
        assert RowLoopWrote(height - 1, RowWidth, i);
      } else if y == height - 1 {
        assert i == XyIdx(x, height - 1);
        assert RowLoopWrote(height - 1, RowWidth, i);
      } else if x == 0 {
        assert i == XyIdx(0, y);
        assert ColLoopWrote(RowWidth - 1, height, i);
      } else {
        assert i == XyIdx(RowWidth - 1, y);
        assert ColLoopWrote(RowWidth - 1, height, i);
      }
    }
  }

  /** A generated 80-wide map, cell by cell: Wall exactly on the border and at
      the rolled cells other than the spawn cell. */
  lemma GeneratedAt(height: nat, rolls: seq<Roll>, x: nat, y: nat)
    requires 1 <= height && RollsInRange(rolls, RowWidth, height)
    requires x < RowWidth && y < height
    ensures Generated(RowWidth, height, rolls)[XyIdx(x, y)] == Wall
        <==> IsBorder(x, y, RowWidth, height)
             || (XyIdx(x, y) in HitCells(rolls) && XyIdx(x, y) != SpawnIdx(RowWidth, height))
  {
    CellInBounds(x, y, RowWidth, height);
    BorderedAt(height, x, y);
    PlaceWallsAt(Bordered(RowWidth, height), RowWidth, height, rolls, XyIdx(x, y));
  }

  /** A generated 80-wide map is enclosed: every border cell is a Wall. */
  lemma GeneratedBorderIsWall(height: nat, rolls: seq<Roll>, x: nat, y: nat)
    requires 1 <= height && RollsInRange(rolls, RowWidth, height)
    requires x < RowWidth && y < height && IsBorder(x, y, RowWidth, height)
    ensures Generated(RowWidth, height, rolls)[XyIdx(x, y)] == Wall
  {
    GeneratedAt(height, rolls, x, y);
  }

  /** In a generated 80-wide map at least three rows high, the spawn cell is
      Floor whatever the rolls. */
  lemma GeneratedSpawnIsFloor(height: nat, rolls: seq<Roll>)
    requires 3 <= height && RollsInRange(rolls, RowWidth, height)
    ensures Generated(RowWidth, height, rolls)[SpawnIdx(RowWidth, height)] == Floor
  {
    GeneratedAt(height, rolls, RowWidth / 2, height / 2);
  }

  /** The 80-by-50 game map: the spawn cell (40, 25) is Floor and the corners
      (0, 0) and (79, 49) are Wall. */
  lemma GameMapCells(rolls: seq<Roll>)
    requires RollsInRange(rolls, 80, 50)
    ensures Generated(80, 50, rolls)[XyIdx(40, 25)] == Floor
    ensures Generated(80, 50, rolls)[XyIdx(0, 0)] == Wall
    ensures Generated(80, 50, rolls)[XyIdx(79, 49)] == Wall
  {
    GeneratedSpawnIsFloor(50, rolls);
    GeneratedBorderIsWall(50, rolls, 0, 0);
    GeneratedBorderIsWall(50, rolls, 79, 49);
  }

  /** The row width does not follow the width argument: in an 81-by-2 map,
      the bottom-right border cell (80, 1) sits at row-major index 161, which
      neither the border loops nor any roll writes, so it stays Floor. */
  lemma WiderMapLeavesCornerFloor(rolls: seq<Roll>)
    requires RollsInRange(rolls, 81, 2)
    ensures IsBorder(80, 1, 81, 2)
    ensures Generated(81, 2, rolls)[1 * 81 + 80] == Floor
  {
    var i := 1 * 81 + 80;
    assert !RowLoopWrote(1, 81, i);
    assert !ColLoopWrote(80, 2, i);
    assert i !in HitCells(rolls);
    PlaceWallsAt(Bordered(81, 2), 81, 2, rolls, i);
  }
}
