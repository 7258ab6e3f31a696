# Minesweeper board engine, in Dafny

This project models the board engine of a browser Minesweeper game
(`app.js`). The board is a grid of tiles. Each tile may hold a mine, be
exposed and carry a mark (a flag). The engine does five things:

- it places the mines by rejection sampling;
- it counts the mines around a tile;
- it toggles marks and keeps a running `markerCount`;
- it exposes tiles, recursively exposing the neighbours of every tile that
  has no mine around it;
- it checks for a win once as many marks are down as there are mines.

After a loss or a win the board stops taking input.

The model has three modules.

- `Grid` (`grid.dfy`) holds the geometry, stated over a set of mined
  positions:
  - bounds and the Moore neighbourhood;
  - the neighbour mine count, defined as `|Neighbours(c) * mines|`;
  - the counting loop's own order, as `PrefixCount`, with a proof that it
    gives the same count;
  - zero paths and zero-closed regions, which describe exactly which tiles a
    cascade may expose.
- `Placement` (`placement.dfy`) defines rejection sampling as a function of
  the draw sequence and proves how many mines it places and where.
- `Minesweeper` (`board.dfy`) holds the class `Board`:
  - `array2<bool>` fields `hasMine`, `exposed` and `marked`, indexed `[x, y]`
    like `tiles[x][y]`;
  - `markerCount`;
  - a `disabled` flag that stands for the removal of the mouse-down
    listeners.

  The source's operations are methods of `Board`, with the source's
  branches and recursion and with the loops of mine placement, the
  neighbour count, the cascade and the win check. Two loops are not kept
  as loops:
  - the tile-creation loop of `populateBoard` (app.js:105-109) becomes the
    initialisation of the three arrays;
  - the per-tile listener removal of `disableBoard` (app.js:174-179)
    becomes one assignment to `disabled`.

  Each method is proved against the functions of `Grid` and `Placement`.
  The invariant `Consistent()` holds at every step, even in the middle of a
  cascade. It states three things:
  - there are exactly `mineCount` mines;
  - `markerCount` is the number of marked tiles;
  - while the board takes input, no exposed tile holds a mine.

  Between clicks the board is also `Settled()`: every exposed tile with no
  mine around it has all its neighbours exposed. `Valid()` is the two
  together. Every click keeps `Valid()`.

The board size and the mine count are the constants `columnCount`,
`rowCount` and `mineCount` in the source (20, 20 and 40). Here they are the
parameters `width`, `height` and `mineCount` of the constructor.

Where the code differs from the obvious design, the model follows the code:
- A left click exposes the tile whatever its state: marked, or already
  exposed.
- The cascade also exposes marked neighbours, and exposing never clears a
  mark.
- A mined tile with no mine around it still cascades after the game is lost.
- `checkForWin` runs only when `markerCount == mineCount`.
- It reports a win when no mine-free tile is marked.
- There is no error for bad dimensions or for coordinates off the board.
  Clicks come with in-bounds coordinates. Placement requires draws that
  hold `mineCount` distinct tiles, which forces `mineCount <= width * height`.
- The cascade is the recursive call of `exposeTile`, not a work queue.
- A click on a board that has not been disabled is always processed.
  Exposing an exposed tile, or marking an exposed tile, simply changes
  nothing.

## Model

| member | source | states |
|---|---|---|
| Minesweeper.Board.AdjacentCount | app.js:86-101 | The counting loop over row offsets -1..1 and column offsets -1..1, skipping rows and columns off the board and the tile itself, returns exactly the number of mined neighbours `MinesAround(MineSet(), width, height, (x, y))`. |
| Minesweeper.Board.CountStep | app.js:92-97 | One pass of the inner counting loop adds one exactly when the tile at that offset is on the board, is not the centre and holds a mine. |
| Grid.PrefixCount | app.js:89-98 | The count after the first k of the nine block positions is at most k, and at most k - 1 once the centre has been passed. |
| Grid.PrefixCountStep | app.js:92-97 | Visiting row offset i, column offset j adds one to the running count exactly when that tile is an in-bounds mined tile other than the centre. |
| Grid.PrefixCountSkipRow | app.js:90 | A block row that lies off the board adds nothing to the count. |
| Grid.PrefixCountIsPrefixMines | app.js:89-98 | The running count equals the number of distinct mined tiles visited so far. |
| Grid.BlockIsNeighbourhood | app.js:89-98 | The in-bounds, non-centre mined positions of the 3x3 block are exactly the mined Moore neighbours (Chebyshev distance 1). |
| Grid.BlockCountIsMinesAround | app.js:86-101 | Counting over the whole block in loop order gives the set-based neighbour mine count. |
| Grid.MinesAroundAtMostEight | app.js:86-101 | A neighbour mine count is at most 8. |
| Grid.NeighbourAtOffset | app.js:203-208 | The tile at offsets (j, i) in -1..1 is a neighbour exactly when it is on the board and is not the centre: the cascade's skips visit the neighbourhood exactly. |
| Grid.NeighbourOffsets | app.js:203-208 | Every neighbour is on the board, differs from the centre and lies at offsets in -1..1, so the cascade loop visits it. |
| Grid.ZeroCountMeansNoMinedNeighbour | app.js:202-212 | Every neighbour of a zero-count tile is mine-free, so the cascade never exposes a mine. |
| Grid.AllCellsSize | app.js:105-109 | The board has width * height tiles. |
| Placement.PlaceFrom | app.js:112-122 | Rejection sampling over the draws from position k on: a draw on a tile that already holds a mine is skipped, and drawing stops at mineCount mines. Its contract states that sampling from at most mineCount mines never ends with more than mineCount. |
| Placement.Place | app.js:112-122 | The mines sampled on an empty board number at most mineCount. |
| Placement.PlaceFromStep | app.js:114-121 | While mines are missing, one draw leaves the drawn tile mined: a new mine, or a tile that already held one. |
| Placement.PlaceFromWithinDraws | app.js:114-122 | Sampling keeps the mines already placed and adds only drawn tiles. |
| Placement.PlaceFromSize | app.js:112-122 | When the remaining draws hold enough distinct tiles, sampling stops at exactly mineCount mines. |
| Placement.PlaceExact | app.js:112-122 | On an empty board, draws holding at least mineCount distinct tiles give exactly mineCount mines, every one a drawn tile. |
| Placement.EnoughDrawsFitBoard | app.js:114-116 | In-bounds draws with mineCount distinct tiles exist only when mineCount <= width * height. |
| Minesweeper.Board.PlaceMines | app.js:111-122 | The loop mines a drawn tile only when it is not yet mined and stops at mineCount mines; the mines are exactly `Place(draws, mineCount)`. |
| Minesweeper.Board.LayMine | app.js:118-120 | Putting a mine on a mine-free tile adds exactly that tile to the mines, so the mine count grows by one. |
| Minesweeper.Board.Populate | app.js:104-122 | A fresh board is `Valid()`. It has exactly the sampled mines, so exactly mineCount of them. It has no exposed tile and no mark, markerCount is 0, and it takes input. |
| Minesweeper.Board.Mark | app.js:65-80 | On an exposed tile the marks and markerCount stay the same. Otherwise the tile's mark flips, and markerCount moves by +1 or -1 accordingly. The invariant markerCount == number of marks is kept. |
| Minesweeper.Board.Expose | app.js:43-44 | The tile becomes exposed and nothing else changes; marks are untouched. |
| Minesweeper.Board.DisableBoard | app.js:173-180 | Afterwards the board takes no input. |
| Minesweeper.Board.ExposeTile | app.js:197-216 | Terminates, because the number of unexposed tiles strictly drops. Afterwards: the tile is exposed; no tile is ever unexposed again; the board is disabled iff it was or the tile holds a mine; every zero-count tile among those newly exposed has all its neighbours exposed; the new tiles lie within what zero paths from the tile reach and within every zero-closed region holding it; re-exposing an exposed tile with nothing left to cascade changes neither the exposed tiles nor the disabled flag. |
| Minesweeper.Board.Cascade | app.js:202-215 | After the double loop around a zero-count tile, all its neighbours are exposed, the cascade facts hold for everything exposed since the start, and nothing beyond the tile itself is exposed when all its neighbours were exposed before the call. |
| Minesweeper.Board.VisitNeighbour | app.js:206-212 | One pass of the inner cascade loop skips off-board tiles and the centre, exposes an unexposed neighbour, and keeps the cascade facts and the scan invariant. |
| Minesweeper.Board.ExposeNeighbour | app.js:210-212 | The recursive call on an unexposed neighbour of a zero-count tile leaves the disabled flag and the mines unchanged, exposes that neighbour, and keeps the cascade facts. |
| Grid.ExposeOutcome | app.js:197-216 | From what the cascade did, the newly exposed tiles are closed under the cascade rule and lie in every zero-closed region holding the start; re-exposing a finished tile adds nothing. |
| Grid.NumberedOutcome | app.js:198-202 | A tile with mines around it exposes only itself. |
| Grid.CascadedOutcome | app.js:202-214 | A zero-count tile whose neighbours are all exposed closes the cascade over itself and what it exposed. |
| Grid.CascadeClosedCompose | app.js:210-212 | Cascade closure survives a nested recursive call. |
| Grid.InEveryZeroRegionCompose | app.js:210-212 | A nested cascade from a neighbour of a zero-count tile stays inside every zero-closed region holding that tile. |
| Grid.ZeroPathStaysInRegion | app.js:202-212 | The end of a zero path lies in every zero-closed region that holds its start. |
| Grid.ZeroReachableIsClosed | app.js:202-212 | The tiles reachable through zero-count tiles form a zero-closed region holding the start. |
| Grid.ZeroReachableIsLeast | app.js:202-212 | The reachable tiles lie in every zero-closed region holding the start; they are the least such region. |
| Grid.ZeroRegionWithinReach | app.js:202-212 | Tiles in every zero-closed region holding s are reachable from s through zero-count tiles. |
| Grid.SettledOutcome | app.js:197-216 | Exposing a tile on a settled board leaves it settled, and the exposed tiles are then exactly the old ones plus the tile's whole zero region. |
| Minesweeper.Board.SettledTile | app.js:202-212 | On a settled board an exposed tile has nothing left to cascade: it has mines around it, or all its neighbours are exposed. |
| Minesweeper.Board.CheckForWin | app.js:156-171 | Reports a win iff no mine-free tile is marked; a win disables the board; otherwise whether the board is disabled is unchanged. |
| Minesweeper.Board.WinMarksExactlyTheMines | app.js:190-194 | With markerCount == mineCount (the guard before checkForWin) and a win, the marked tiles are exactly the mines. |
| Minesweeper.Board.TileClicked | app.js:182-195 | A disabled board, or a button other than left or right, changes nothing. A left click exposes the tile. The marks stay. The exposed tiles become exactly the old ones plus the tile's whole zero region. The board is disabled iff the tile holds a mine. A left click on a tile that is already exposed changes neither the exposed tiles nor the disabled flag. A right click leaves exposure alone, toggles the mark unless the tile is exposed, and disables the board iff the marks are then exactly the mines. |

## Left out

- Tile construction in the DOM, its attributes, pixel layout and event binding (app.js:25-40): browser plumbing. Only the listener removal is kept, as `disabled`.
- Display text and colours: `innerHTML`, `divText`, the per-digit colour switch in `expose`, the `'#'` and `'@'` markers and the count display loop (app.js:45-62, 70-71, 76-77, 82-84, 124-136). They are presentation only.
- The unused `text` field (app.js:21).
- The recolouring of the mines in `showGameOver` (app.js:143-153): presentation only. Its disabling of the board is modelled.
- `alert("You Win!")` (app.js:169): user interface.
- `Math.random` and `Math.floor` (app.js:115-116) are replaced by an explicit sequence of in-bounds draws. The JS loop ends only with probability 1; the model requires draws that hold at least `mineCount` distinct tiles.
- Reading the coordinates from the `data-x`/`data-y` attributes, and `preventDefault` (app.js:183-185): input arrives as integer coordinates on the board.
- The global constants and the global `tiles` array (app.js:1-10) are generalised to the board's `width`, `height` and `mineCount`, and to its fields.
