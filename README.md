# Game of Life on a bounded grid

This project models the simulation core of a small interactive Game of Life
program (`main.c`) and proves properties of it. The program keeps a
rectangular grid of cells. Each cell is alive or dead. The grid advances by
the B3/S23 rule: a dead cell with exactly three live neighbours is born, and
a live cell with two or three live neighbours survives. Only the eight Moore
neighbours count. There is no wrap-around: cells off the grid count as dead.

The grid (`LifeGrid.Grid`) is a class with two flat row-major buffers:

- `state` holds the current generation.
- `stateBuffer` receives the next generation, which is computed from a
  snapshot of `state` only.
- After a step the two buffers trade places.
- The counter `alive` is recomputed by every step.

The methods keep the source's nested raster loops. Each is proved against
pure specification functions in `Life`:

- `Index` is the row-major position, or -1 off the grid.
- `CellAt` reads a cell, treating off-grid cells as dead.
- `NeighbourCount` is the eight-offset scan.
- `Rule` is the birth/survival rule.
- `NextGeneration` is the whole next grid.
- `WithCell` is a single-cell edit.

The neighbour scan is also tied to a set-based reference definition: the set
of live cells in the 3x3 box, minus the centre.

The main loop's control logic lives in `Controller`:

- Space toggles the animation and H the help text.
- R re-seeds the grid and C clears it.
- A frame counter paces one generation every `MAX_FPS / 4` frames.
- The left or right mouse button sets or clears the cell under the pointer.

`Pointer` maps a world position to a cell coordinate. `FrameLoop.RunFrame`
applies one frame to a `Grid` in the loop's order: random init, clear,
generation, edit. `Patterns` proves the textbook behaviours of the rule on
this grid:

- the blinker has period 2;
- the block is a still life;
- the glider moves one cell diagonally every four generations;
- the empty grid and any grid with at most two live cells die out.

## Where the model follows the code rather than the usual description

- Clearing the grid (`initEmpty`, `main.c:75-84`) does not reset `alive`.
  Editing a cell (`setCell`, `main.c:158-162`) does not update it either.
  Only `updateGrid` recomputes it. `alive` is therefore exact only right
  after a generation (`LifeGrid.Grid.UpdateGrid` states this).
- Within one frame the generation step (`main.c:237-240`) runs before the
  mouse edit (`main.c:253-257`). An edit made in a stepping frame therefore
  shows in the next generation, not this one.
- When both mouse buttons are held, the left one wins (`else if`).
- The frame counter is reset to 0 by a step and then advanced by the same
  frame (`main.c:279`). After a stepping frame it is 1, and the next step
  comes exactly `ANIMATION_FRAME_DELAY` idle frames later.
- `getCell` (`main.c:153-156`) does not check its coordinates. It is modelled
  with an on-grid precondition.

## Model

| member | source | states |
|---|---|---|
| Life.Index | main.c:60-64 | the result is -1 exactly when (x, y) is off the grid, and otherwise a position inside the buffer |
| Life.IndexInverse | main.c:60-64 | the row-major position determines the cell: position mod width is x and position div width is y |
| Life.IndexInjective | main.c:60-64 | two different on-grid cells never share a buffer position |
| Life.FlatToGrid | main.c:66-73 | every buffer position is the position of some on-grid cell, so a raster scan over all (x, y) covers the whole buffer |
| Life.LiveNeighboursUpTo | main.c:100-108 | after scanning k offsets the count is at most k |
| Life.NeighbourCount | main.c:100-108 | a cell has at most eight live neighbours |
| Life.OffsetPosition | main.c:25-29 | each of the eight non-zero offsets of the 3x3 box appears in the neighbour table |
| Life.ScannedLiveIsBox | main.c:25-29 | the cells reached through the eight table offsets are exactly the live cells of the 3x3 box around the cell, centre excluded |
| Life.NeighbourCountIsLiveNeighbours | main.c:100-108 | the scan's count equals the size of the set of live Moore neighbours; off-grid neighbours count as dead |
| Life.Rule | main.c:110-121 | a cell is alive next exactly when it has three live neighbours, or it is alive and has two |
| Life.NextGenerationAt | main.c:123-136 | every cell of the next generation follows the rule applied to the current generation only, never to cells already updated |
| Life.NextGeneration | main.c:123-136 | the next generation has one cell per buffer position |
| Life.AllDeadCountsZero | main.c:124-131 | the live-cell count of a generation is zero exactly when every cell is dead |
| Life.Quiescence | main.c:114-120 | an all-dead grid stays all dead for one generation (no birth from nothing) |
| Life.QuiescenceForever | main.c:123-136 | an all-dead grid stays all dead for any number of generations |
| Life.WithCell | main.c:158-162 | an edit sets exactly the named on-grid cell and keeps all others; an off-grid edit changes nothing |
| Life.WithCellIdempotent | main.c:158-162 | setting a cell twice to the same value equals setting it once |
| Life.WithCellLastWins | main.c:158-162 | of two edits to the same cell the later one wins, so writing back a cell's old value restores the grid |
| LifeGrid.Grid.constructor | main.c:39-47 | both buffers are allocated, distinct and one cell per grid position |
| LifeGrid.Grid.SwapBuffers | main.c:54-58 | the two buffers exchange roles without copying; the counter is untouched |
| LifeGrid.Grid.CopyBuffer | main.c:66-73 | afterwards the scratch buffer equals the current generation |
| LifeGrid.Grid.InitEmpty | main.c:75-84 | afterwards both buffers are all dead, whatever they held before (so clearing twice equals clearing once) |
| LifeGrid.Grid.InitRandom | main.c:86-98 | afterwards both buffers hold the drawn cell values |
| LifeGrid.Grid.CountCellNeighbours | main.c:100-108 | returns the neighbour count of the specification, reading only inside the buffer |
| LifeGrid.Grid.NextCellState | main.c:110-121 | returns the rule applied to the cell and its neighbour count |
| LifeGrid.Grid.UpdateGrid | main.c:123-136 | afterwards the current generation is the next generation of the old one, the buffers have traded places, the scratch buffer holds the old generation, and the counter equals the number of live cells |
| LifeGrid.Grid.UpdateRow | main.c:127-132 | one pass of the inner loop writes one row of the next generation and adds its live cells to the counter |
| LifeGrid.Grid.GetCell | main.c:153-156 | returns the state of the on-grid cell |
| LifeGrid.Grid.SetCell | main.c:158-162 | the current generation becomes the edit of the old one; the scratch buffer is untouched |
| Controller.Frame | main.c:221-279 | Space and H toggle their flags; a generation is computed exactly when animating with the counter at least at the delay; the counter is then 1, otherwise it advances while animating and freezes while paused |
| Controller.EditPriority | main.c:253-257 | the left button sets the cell under the pointer, the right button clears it, the left one wins, and no button means no edit |
| Controller.EditOnGrid | main.c:251-257 | on a non-empty grid, an edit names an on-grid cell exactly when the pointer is over the grid or less than one cell left of or above it (that margin edits the first column or row, as the loop's truncating mapping does) |
| Controller.TimerBounded | main.c:237-279 | the counter stays within 0..ANIMATION_FRAME_DELAY, so it never overflows |
| Controller.Run | main.c:219-280 | over any sequence of frames at most one generation is computed per frame, a counter starting within 0..ANIMATION_FRAME_DELAY stays there whatever the input, and a paused loop that never sees Space computes no generation |
| Controller.RunIdle | main.c:219-280 | over n idle frames at most n generations are computed |
| Controller.RunIdleIsRun | main.c:219-280 | n idle frames are the general run over n inputs with no key and no button |
| Controller.PausedStaysPaused | main.c:237-279 | while paused and idle no generation is computed and nothing changes |
| Controller.CountsUpToDelay | main.c:237-279 | while animating and idle the counter rises by one per frame with no generation before the delay |
| Controller.Cadence | main.c:237-279 | after a generation the next one comes exactly ANIMATION_FRAME_DELAY idle frames later |
| Controller.FirstGeneration | main.c:213-240 | from the initial variables the first generation is computed in frame ANIMATION_FRAME_DELAY + 1 |
| Pointer.CellCoordinateAsWritten | main.c:192-196 | the coordinate as the loop computes it, cut toward zero, is never negative for a point on or right of the grid and never positive left of it |
| Pointer.MarginMapsToZero | main.c:192-196 | as written, a pointer less than one cell left of the grid maps to coordinate 0 |
| Pointer.CellCoordinate | main.c:192-196 | the corrected coordinate is the one cell whose square contains the world position |
| Pointer.CoordinateOnGrid | main.c:192-196 | the corrected coordinate is on a grid of n cells exactly when the position is over it |
| Pointer.AsWrittenAgreesOffMargin | main.c:192-196 | for positions not left of the grid the written and corrected mappings agree |
| Pointer.AsWrittenOnGrid | main.c:192-196 | for n > 0 cells, the loop's coordinate is in 0..n - 1 exactly when the position is over the n cells or less than one cell before them |
| FrameLoop.ApplyEffects | main.c:229-257 | a frame with no effects leaves the grid as it is, and a clear with no step and no edit leaves it all dead |
| FrameLoop.RunFrame | main.c:221-279 | one frame on the grid yields the controller's next variables and runs init, clear, generation and edit in the loop's order |
| FrameLoop.PausedIdleFrame | main.c:221-279 | a paused frame without input changes neither the grid nor the loop's variables, so edits made while paused persist |
| Patterns.PatternStep | main.c:123-136 | a grid holding a set of cells steps to a second set when every cell follows the rule by its count of adjacent cells in the first set |
| Patterns.PatternCell | main.c:123-136 | a grid built from a list of cells has exactly those cells alive |
| Patterns.PatternNeighbourCount | main.c:100-108 | in such a grid a cell's neighbour count is the number of listed cells adjacent to it |
| Patterns.BlinkerCell | main.c:110-121 | by the rule, each cell is in the vertical blinker's successor exactly when it is in the horizontal blinker, and the reverse |
| Patterns.BlinkerRowToColumn | main.c:123-136 | a row of three cells whose centre is at least one cell from every edge becomes a column of three with the same centre |
| Patterns.BlinkerColumnToRow | main.c:123-136 | under the same condition on the centre, the column of three becomes the row again |
| Patterns.BlinkerPeriod | main.c:123-136 | a blinker whose centre is at least one cell from every edge returns to itself after two generations |
| Patterns.BlockStill | main.c:123-136 | a 2x2 block anywhere on the grid, corners included, is unchanged by any number of generations |
| Patterns.GliderShape | main.c:123-136 | each glider phase lists five distinct cells inside its 4x4 box |
| Patterns.GliderCell | main.c:110-121 | by the rule, each cell is alive after glider phase k exactly when it belongs to the next phase (the first phase moved by one cell after the last) |
| Patterns.GliderPhase | main.c:123-136 | each glider phase becomes the next one in one generation, and the last becomes the first moved one cell right and one down |
| Patterns.GliderTranslates | main.c:123-136 | after four generations a glider whose 4x4 box lies on the grid is the same glider moved one cell right and one down |
| Patterns.SparseDiesOut | main.c:123-136 | a grid with at most two live cells is all dead one generation later |

## Findings

| source | as written | input that shows it | evidently intended | confidence | as-written member | corrected member |
|---|---|---|---|---|---|---|
| main.c:195 | the pointer's world position is cut to `int` and divided by the cell size, both rounding toward zero | world x = -10.0 (half a cell left of the grid) gives column 0, so a click there edits the cell at the grid's left edge; likewise for y above the top edge | round down (floor), so positions left of or above the grid give a negative coordinate, which `setCell` ignores | high (not executed) | Pointer.MarginMapsToZero | Pointer.CoordinateOnGrid |

The controller keeps the mapping as written
(`Pointer.CellCoordinateAsWritten`, through `Controller.PointedCell`), so
`Controller.EditOnGrid` includes the margin. The corrected mapping,
`Pointer.CellCoordinate`, agrees with it for every position not left of or
above the grid (`Pointer.AsWrittenAgreesOffMargin`). Further left or up they
differ except at exact multiples of the cell size: -25.0 gives -1 as written
and -2 corrected, while -20.0 gives -1 both ways. All of those are off the
grid. The two mappings disagree about
whether a position is on the grid only in the one-cell margin (-20, 0),
where the written one gives 0 (`Pointer.AsWrittenOnGrid` against
`Pointer.CoordinateOnGrid`).

## Left out

- Rendering (`drawGrid`, `drawLines`, the red cursor, the help text and the window title) is output only and changes no state.
- The camera is left out: panning (`handleMouseScroll`), zooming (`handleMouseZoom`) and the screen-to-world transform of `mouseScreenPositionToWorldPosition`. They are floating-point raylib calls. The model takes the pointer's world position as an exact real number in `Controller.Input`, so single-precision rounding is not modelled.
- The random source is left out. `srand(time(0))` and `rand() & 1` are replaced by a `bits` parameter of `LifeGrid.Grid.InitRandom` (and of `FrameLoop.RunFrame`) holding the drawn cell values.
- Memory management is left out. `malloc` failure and `deleteGrid` have no counterpart: Dafny arrays are allocated by `new` and are garbage collected.
- Window handling is left out: `WindowShouldClose`, `SetTargetFPS` and the real frame rate. A frame is one call of `Controller.Frame`.
- Integers are unbounded. The source's 32-bit `int` arithmetic in `getIndex` is not modelled: the program's grid is 192 x 108 cells, far from overflow. The frame counter is proved bounded (`Controller.TimerBounded`).
- LifeGrid.Grid.UpdateGrid: `alive` is exact right after a generation. The model does not claim it afterwards, because clear, random init and edits leave it stale, as in the source.
- LifeGrid.Grid.GetCell: requires an on-grid cell. The source reads outside the buffer for an off-grid cell, and no caller in the program does that.
- FrameLoop.RunFrame: states the grid's current generation and the loop's variables after a frame. It does not state the scratch buffer, which no later operation reads before overwriting it.
- Patterns.BlinkerPeriod: covers the cells of the grid. The live-cell counter staying at 3 over blinker generations follows from `LifeGrid.Grid.UpdateGrid` and is not stated separately.
