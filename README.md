# Roguelike tile map and player movement, in Dafny

This project models the two pieces of logic in a small roguelike built on the
`rltk` engine and the `specs` entity-component system:

- **The tile map** (`src/map/tile.rs`, module `TileMap` in `tile.dfy`). A map
  is a flat, row-major sequence of `TileType` values (`Wall` or `Floor`).
  `xy_idx` turns a cell (x, y) into the index `y * 80 + x`; the row width 80
  is hard-coded and does not follow the width the map is built with.
  `new_map` fills a `width * height` map with Floor. It then walls row 0 and
  row height-1 in one loop over columns, and column 0 and column width-1 in a
  loop over rows. Finally `generate_random_walls` makes exactly 400 trials.
  Each trial rolls a column in [1, width-1] and a row in [1, height-1] and
  walls that cell, unless the cell is the spawn cell `xy_idx(width/2, height/2)`.
  The random number generator is replaced by an injected sequence of 400
  `Roll`s. Their range precondition states what `roll_dice(1, n)` yields.
  The map is an `array` that the methods `NewMap` and `GenerateRandomWalls`
  update in place. Each method's result is tied to a specification function
  (`Bordered`, `PlaceWalls`, `Generated`), and the lemmas state what those
  functions guarantee.
- **Player movement** (`src/player_handler.rs`, module `PlayerHandler` in
  `player_handler.dfy`). `try_move_player` adds a step to the position of
  every entity carrying the player marker. Each axis is clamped on its own,
  x to [0, 79] and y to [0, 49]. `get_player_input` maps twelve keys to four
  unit steps; no key, or any other key, does nothing. The entity store is a
  `positions` array plus a parallel `isPlayer` array, both indexed by entity
  id. `TryMovePlayer` updates `positions` in place and is proved against the
  specification predicate `Stepped`.

Three points where the model follows the code rather than what one might expect of a roguelike:

- The code's movement has no wall check. A player may walk onto a Wall cell;
  only the screen clamp applies. The movement model therefore never reads the
  map.
- The code rolls interior walls in [1, width-1] by [1, height-1], inclusive.
  Such rolls can land on the right and bottom border, which is already Wall.
  So the border stays enclosed.
- The index mapping uses the fixed row width 80, not the map's width. The
  border and spawn results are proved for width 80, the width of the game's
  80-by-50 window. `WiderMapLeavesCornerFloor` shows what goes wrong for a
  wider map: in an 81-by-2 map the bottom-right border cell stays Floor.

## Model

| member | source | states |
|---|---|---|
| `TileMap.XyIdx` | src/map/tile.rs:19-21 | for a column below 80, decoding the index with `% 80` and `/ 80` gives back the column and the row |
| `TileMap.XyIdxDecode` | src/map/tile.rs:19-21 | every index is the index of the cell (idx % 80, idx / 80) |
| `TileMap.XyIdxInjective` | src/map/tile.rs:19-21 | two cells with columns below 80 share an index if and only if they are the same cell |
| `TileMap.CellInBounds` | src/map/tile.rs:38-44 | for a map at least 80 wide, every cell of the width-by-height rectangle indexes below width*height, so neither the border writes nor the rolled writes go out of bounds |
| `TileMap.HitCells` | src/map/tile.rs:37-40 | the set of cells the rolls point at contains every rolled cell, only rolled cells, and at most one cell per roll |
| `TileMap.PlaceWalls` | src/map/tile.rs:37-46 | the trials, in order, keep the map's length |
| `TileMap.PlaceWallsAt` | src/map/tile.rs:37-46 | after the trials a cell is Wall if it was rolled and is not the spawn cell; otherwise it keeps its old value |
| `TileMap.PlaceWallsOnlyWalls` | src/map/tile.rs:44 | random placement never writes Floor: a Wall stays Wall, and a changed cell became Wall |
| `TileMap.PlaceWallsKeepsSpawn` | src/map/tile.rs:43-45 | the spawn cell keeps its value through all trials |
| `TileMap.PlaceWallsKeepsUnhit` | src/map/tile.rs:37-46 | a cell no roll points at keeps its value |
| `TileMap.PlaceWallsChangesAtMost` | src/map/tile.rs:37-46 | at most one cell changes per trial, so at most 400 cells change |
| `TileMap.GenerateRandomWalls` | src/map/tile.rs:34-49 | the 400 in-place trials leave the map equal to `PlaceWalls` of the old map and the rolls |
| `TileMap.NewMap` | src/map/tile.rs:56-74 | returns a fresh map of length width*height equal to `Generated`: Floor walled by the border loops, then the random trials |
| `TileMap.BorderedAt` | src/map/tile.rs:59-68 | with row width 80, the border loops wall a cell if and only if it lies on the border |
| `TileMap.GeneratedAt` | src/map/tile.rs:56-74 | in a generated 80-wide map a cell is Wall if and only if it is on the border, or it was rolled and is not the spawn cell |
| `TileMap.GeneratedBorderIsWall` | src/map/tile.rs:59-71 | every border cell of a generated 80-wide map is Wall |
| `TileMap.GeneratedSpawnIsFloor` | src/map/tile.rs:41-45 | in a generated 80-wide map at least 3 rows high, the spawn cell (40, height/2) is Floor whatever the rolls |
| `TileMap.GameMapCells` | src/map/tile.rs:56-74 | in the 80-by-50 map, (40, 25) is Floor and (0, 0) and (79, 49) are Wall |
| `TileMap.WiderMapLeavesCornerFloor` | src/map/tile.rs:56-74 | in an 81-by-2 map the border cell (80, 1), at row-major index 161, stays Floor because the index mapping uses 80 |
| `PlayerHandler.Clamp` | src/player_handler.rs:11-12 | `min(hi, max(0, v))` lies in [0, hi], equals v inside the range, 0 below it and hi above it |
| `PlayerHandler.Moved` | src/player_handler.rs:11-12 | a moved player is on the screen ([0, 79] by [0, 49]), and lands exactly on the target on each axis where the target is on the screen |
| `PlayerHandler.MovedAxesIndependent` | src/player_handler.rs:11-12 | the new x depends only on the old x and dx, and the new y only on the old y and dy |
| `PlayerHandler.MovedBlockedAtEdges` | src/player_handler.rs:11-12 | stepping left from x = 0, or down from y = 49, leaves an on-screen player where it is |
| `PlayerHandler.SteppedPlayersOnScreen` | src/player_handler.rs:10-13 | after a step every player is on the screen and every non-player keeps its position |
| `PlayerHandler.TryMovePlayer` | src/player_handler.rs:6-14 | each player entity's position becomes its clamped moved position, and every other entity's position is unchanged |
| `PlayerHandler.KeyDelta` | src/player_handler.rs:17-33 | no key or an unbound key gives no step, and each bound key gives a unit step along exactly one axis |
| `PlayerHandler.KeyBindings` | src/player_handler.rs:20-31 | A, Left and H step (-1, 0); D, Right and L step (1, 0); W, Up and K step (0, -1); S, Down and J step (0, 1) |
| `PlayerHandler.GetPlayerInput` | src/player_handler.rs:16-35 | no key, or an unbound key, leaves every position unchanged; a bound key moves the players by its step as `TryMovePlayer` does |

## Left out

- `draw_map` in `src/map/tile.rs`: it only draws, through engine calls with floating-point colours and glyphs.
- `src/main.rs` and `src/components/renderable.rs`: window setup, component registration, entity builders and the render loop are glue over the engine and the entity-component system.
- The random number generator: it is a foreign, nondeterministic library call. The rolls are a parameter, and `RollsInRange` states the range assumed of `roll_dice(1, n)`.
- The entity-component storage and its join: entities are array indices, and an entity that has the player marker but no position is not represented (the join skips it anyway).
- `generate_random_walls` returns a reference to the same map it changed; that returned reference is not modelled, since `new_map` ignores it.
- XyIdx: takes non-negative coordinates; the source's `as usize` cast of a negative `i32` is not modelled, since every caller passes non-negative coordinates.
- NewMap: requires width >= 80 and height >= 2 and does not model the failures outside that range. A narrower map panics with an out-of-bounds write on the last row. A map one row high asks the dice for the empty range [1, 0]. Also requires width * height to fit in an `i32`.
- Moved: coordinates are unbounded integers, so the `i32` overflow of `pos.x + d_x` at the extremes of the `i32` range is not modelled.
- TryMovePlayer: the code has no wall collision, so a wall-aware movement resolver is not modelled.
- A "drift left with wrap-around" movement for non-player entities is not part of these source files and is not modelled.
