# Cellular automaton board: a verified model

This project models the simulation core of an interactive Game of Life
canvas component (`src/components/cellularAutomata.tsx`). The component keeps
a grid of numbers (0 dead, 1 alive), replaces it on every timer tick with the
next generation, lets the user paint cells with a square brush of random
draws, and offers two resets: randomize and erase.

Each operation of the component builds a fresh board with nested loops. The
model does the same: each operation is a method that allocates a fresh
`array2` and fills it with loops. Its postcondition ties the new board,
viewed as a value through `Board.Cells`, to a specification function of the
inputs. The properties the component promises are proved as lemmas about
those functions.

- `Board`: the previous grid as the script holds it (`Board.Grid`). A slot
  allocated but never written (`undefined`) is `None`. Rows may differ in
  length, and the grid need not match the current `rows` x `cols`. This
  module also holds `grid[i]?.[j] ?? 0` (`At`), the working copy of a
  generation step (`Resample`) and the shared random draw (`Draw`).
- `Life`: the Moore neighbourhood count with off-board positions dead
  (`Neighbours`), the two-state rule in its classic four-case form
  (`Survives`) and the synchronous step (`Step`). Still lifes, the blinker
  and no wrap-around are proved here.
- `Update`: `updateGrid` as loops: the resize copy, the neighbour-count
  loop with its `continue`, and the cell loop. The inner loop over a row is
  its own method (`FillRow`), which keeps each proof small.
- `Brush`: the grid part of `handleMouseMove`, which is the overlap copy
  followed by the brush square, plus `changeCellOnClick`.
- `Reset`: `RandomizeBoard` and `EraseBoard`.
- `Geometry`: the `Math.round` arithmetic for the column count, the cell
  size and the pointer-to-cell mapping.

`Math.random` is a caller-supplied oracle `rand: (int, int) -> real`, and
`rand(i, j)` is the number returned when the loop reaches cell (i, j). Every
on-board cell is drawn at most once per operation, so this is the same as
reading a stream of numbers in loop order. Its range [0, 1) is assumed only
by the lemmas that need it.

What the code does at its edges, and the model with it:
- The column count, the cell size and the pointer-to-cell mapping use
  `Math.round` (halves rounded up).
- `resizeHandler` only updates `cols` (:35); the grid keeps its old shape.
  It is cut or padded to `rows` x `cols` by the next generation step
  (`Update.ResizeCopy`), or by the overlap copy of the next paint.
- A paint stroke writes only the overlap
  `min(rows, grid.length)` x `min(cols, grid[0].length)` and the brush
  square. Every other slot of the new grid is never written and stays
  `undefined` (`Brush.OutsideBrush`, `Brush.PaintEmptyGrid`). Later reads
  treat these slots as 0.

## Model

| member | source | states |
|---|---|---|
| `Board.At` | src/components/cellularAutomata.tsx:57 | `grid[i]?.[j] ?? 0` is the stored number when row i, slot j and a value there all exist, and 0 when any of them is missing |
| `Board.Draw` | src/components/cellularAutomata.tsx:137 | a draw is 0 or 1, and it is 1 exactly when the generator's number is below the chance |
| `Board.Resample` | src/components/cellularAutomata.tsx:51-59 | the working copy is rows x cols and every cell is `grid[i]?.[j] ?? 0` of the previous grid |
| `Board.DrawExtremes` | src/components/cellularAutomata.tsx:136-138 | for a sample in [0, 1), a chance of at least 1 always draws 1 and a chance of at most 0 always draws 0 |
| `Board.ResampleEmpty` | src/components/cellularAutomata.tsx:51-59 | when the old grid is empty (before the first generation), the working copy is the all-dead `rows` x `cols` board |
| `Board.ResampleOverlap` | src/components/cellularAutomata.tsx:54-59 | when the dimensions change from r0 x c0 to rows x cols, cells inside the overlap keep their old value and every other cell is 0; nothing is stretched or shifted |
| `Board.ResampleSame` | src/components/cellularAutomata.tsx:54-59 | a board that already has the current dimensions and no missing slot is copied unchanged |
| `Board.ResampleBinary` | src/components/cellularAutomata.tsx:57 | resampling a board of zeros and ones gives a board of zeros and ones |
| `Life.Live` | src/components/cellularAutomata.tsx:69 | a position counts as live exactly when it is on the board and holds 1; off-board positions count as dead |
| `Life.Neighbours` | src/components/cellularAutomata.tsx:63-73 | the neighbour count is at most 8 |
| `Life.Survives` | src/components/cellularAutomata.tsx:74-78 | only 2 or 3 neighbours can give a live cell; 3 always does; with 2 the cell lives exactly when it was alive |
| `Life.NextCell` | src/components/cellularAutomata.tsx:74-78 | the next value is 0 or 1, and it is 1 exactly when the classic rule (survival with 2 or 3 neighbours, birth with 3) says the cell lives |
| `Life.Step` | src/components/cellularAutomata.tsx:61-80 | the next generation has exactly rows rows of cols entries, every entry is 0 or 1, and every cell is computed from the snapshot alone |
| `Life.SurvivesIff` | src/components/cellularAutomata.tsx:74-78 | the classic four-case rule equals the source's condition "alive and (3 or 2 neighbours), or dead and 3 neighbours" |
| `Life.NeighboursLocal` | src/components/cellularAutomata.tsx:64-72 | the count depends only on the on-board cells of the 3 x 3 window, excluding the cell itself |
| `Life.CornerNeighbours` | src/components/cellularAutomata.tsx:67-69 | the corner cell (0, 0) has only its three on-board neighbours counted, with no wrap-around to the far edges |
| `Life.BlankStays` | src/components/cellularAutomata.tsx:61-80 | an all-dead board stays all dead |
| `Life.BlockIsStill` | src/components/cellularAutomata.tsx:61-80 | an isolated 2 x 2 block is a fixed point of the step, anywhere on the board, including against an edge |
| `Life.BlinkerTurnsVertical` | src/components/cellularAutomata.tsx:61-80 | away from the edges, a horizontal line of three becomes the vertical line through its middle cell |
| `Life.BlinkerTurnsHorizontal` | src/components/cellularAutomata.tsx:61-80 | away from the edges, a vertical line of three becomes the horizontal line through its middle cell |
| `Life.BlinkerPeriodTwo` | src/components/cellularAutomata.tsx:61-80 | two steps bring the blinker back to where it started |
| `Update.ResizeCopy` | src/components/cellularAutomata.tsx:51-59 | the working buffer is rows x cols, and each cell holds the old grid's number where there is one and 0 otherwise |
| `Update.CountNeighbours` | src/components/cellularAutomata.tsx:63-73 | the loop over the nine offsets, which skips the centre and bounds-checks each position, returns exactly the Moore neighbour count of the buffer |
| `Update.NextValue` | src/components/cellularAutomata.tsx:63-78 | the value computed for one cell from the counting loop and the source's condition equals the classic rule applied to the buffer |
| `Update.FillRow` | src/components/cellularAutomata.tsx:62-79 | every cell of row i gets its next value from the buffer, and every other row of the new board is left as it was |
| `Update.UpdateGrid` | src/components/cellularAutomata.tsx:43-82 | the new board is rows x cols and equals the step applied to the resampled snapshot of the previous grid |
| `Update.StepOfStep` | src/components/cellularAutomata.tsx:43-82 | stepping a board that a previous step produced is the rule applied to that board itself, so repeated ticks iterate the step |
| `Brush.ChangeCellOnClick` | src/components/cellularAutomata.tsx:136-138 | the new value is 0 or 1, 1 exactly when the generator's number is below drawAddChance; the cell's old value plays no part |
| `Brush.MinRows` | src/components/cellularAutomata.tsx:162 | the rows copied are the smaller of rows and grid.length |
| `Brush.MinCols` | src/components/cellularAutomata.tsx:163 | the columns copied are 0 for an empty grid, and otherwise the smaller of cols and the length of the first row |
| `Brush.Painted` | src/components/cellularAutomata.tsx:156-178 | the painted grid is rows x cols; on the square a cell is a fresh draw, elsewhere it is the old number inside the overlap and undefined outside it |
| `Brush.PaintAt` | src/components/cellularAutomata.tsx:155-178 | the painted board is rows x cols and equals the overlap copy with every on-board cell of the square redrawn; off-board brush positions are never indexed |
| `Brush.BrushCellsDrawn` | src/components/cellularAutomata.tsx:136-138 | an on-board cell of the square becomes 1 exactly when its draw is below drawAddChance, whatever it held before |
| `Brush.BrushExtremes` | src/components/cellularAutomata.tsx:172-177 | with samples in [0, 1), a chance of at least 1 paints the whole clipped square live, and a chance of at most 0 paints it dead |
| `Brush.OutsideBrush` | src/components/cellularAutomata.tsx:162-169 | outside the square, a cell keeps the old number inside the overlap min(rows, grid.length) x min(cols, grid[0].length) and is left undefined beyond it |
| `Brush.PaintFrame` | src/components/cellularAutomata.tsx:165-178 | on a rows x cols board with no holes, every cell outside the square keeps its value, no slot is left undefined, and a board of zeros and ones stays one |
| `Brush.RadiusZero` | src/components/cellularAutomata.tsx:172-177 | on a rows x cols board with no holes, a radius-0 brush changes at most the pointer's own cell |
| `Brush.PaintEmptyGrid` | src/components/cellularAutomata.tsx:156-169 | painting an empty grid leaves a cell undefined exactly when it is outside the square |
| `Reset.Randomized` | src/components/cellularAutomata.tsx:186-193 | the randomized board is rows x cols and holds only 0 and 1; a cell is 1 exactly when its draw is below the chance |
| `Reset.RandomizeBoard` | src/components/cellularAutomata.tsx:184-195 | the new board is rows x cols, each cell is its own draw, and the previous grid plays no part |
| `Reset.RandomizedExtremes` | src/components/cellularAutomata.tsx:191 | with samples in [0, 1), a chance of at least 1 gives all ones, and a chance of at most 0 gives the erased board |
| `Reset.EraseBoard` | src/components/cellularAutomata.tsx:197-201 | the new board is the all-zero rows x cols board; it takes no grid, so erasing twice is the same as erasing once |
| `Reset.ErasedStaysErased` | src/components/cellularAutomata.tsx:197-201 | the generation computed from an erased board is the erased board again |
| `Geometry.Round` | src/components/cellularAutomata.tsx:35 | `(2a + b) / (2b)` is within one half of a / b, with halves rounded up as `Math.round` does |
| `Geometry.RoundUnique` | src/components/cellularAutomata.tsx:35 | exactly one integer satisfies those bounds, so they define the rounding completely |
| `Geometry.ColumnsFor` | src/components/cellularAutomata.tsx:35 | cols / rows is within half a column of the surface's width / height |
| `Geometry.CellSize` | src/components/cellularAutomata.tsx:151 | the cell side is height / rows rounded to the nearest pixel |
| `Geometry.PointerCell` | src/components/cellularAutomata.tsx:152-153 | as written: the index is the grid line nearest the pointer, within half a cell of it |
| `Geometry.PointerCellFloor` | src/components/cellularAutomata.tsx:152-153 | corrected: the index of the cell whose drawn square contains the pointer |
| `Geometry.PointerCellRoundsUp` | src/components/cellularAutomata.tsx:152-153 | the as-written index equals the corrected one on the left (or upper) half of a cell and is one more on the other half |
| `Geometry.PointerOffByHalf` | src/components/cellularAutomata.tsx:152-153 | with 10-pixel cells, pixel 6 lies in column 0 but the as-written index is 1 |

## Left out

- React state and effects (`useState`, `useEffect`). The grid is passed to each operation as a value, and the new board is returned.
- The auto-advance timer (`setTimeout` and its cancellation while the mouse is down), the 100 ms wait after a paint, and the mouse-down flag that gates painting. These are event and timer scheduling, not grid logic. The guarantee that no step runs while painting is therefore not modelled.
- Canvas drawing (`drawGrid`), DOM measurement and event listeners in `resizeHandler`, and extracting mouse coordinates from the event. `Geometry` takes the surface size and pointer offsets as non-negative integer pixels.
- The early returns when the canvas element is missing (`if (!canvas) return`). In that case no new board is produced.
- `Geometry.ColumnsFor`, `Geometry.CellSize`, `Geometry.PointerCell`: require a positive divisor, so the model does not capture what the source does with a zero one. `cellSize` at :151 is 0 whenever the surface is less than half a pixel tall per row (under 25 px with the default 50 rows). Then a positive pointer offset makes `row` (or `col`) `Infinity` at :152-153. The brush loop at :172 starts at `i = Infinity`; `i <= row + drawRadius` stays true and `i++` leaves `i` at `Infinity`, so `handleMouseMove` never returns and the page hangs. An offset of exactly 0 gives `NaN` instead, and the brush loops do not run. `Brush.PaintAt` takes integer positions and cannot express either case. Floating-point rounding of `rows * width / height` is not modelled either.
- `Math.random` itself, which is replaced by the oracle `rand` described above.
- The settings panel (`SettingsMenu.tsx`) and the unfinished rule-table class (`ruleGenerator.tsx`). Neither has grid logic: the rule table's `getChange` always returns 0.

## Findings

| source | as written | input that shows it | evidently intended | confidence | as-written member | corrected member |
|---|---|---|---|---|---|---|
| src/components/cellularAutomata.tsx:152-153 | the cell under the pointer is `Math.round(mouseX / cellSize)`, which is the nearest grid line | cellSize 10 and mouseX 6: pixel 6 is inside the square drawn for column 0 (:117), but the brush centres on column 1. In the right half of the last column the centre falls off the board, so a radius-0 brush paints nothing | `Math.floor(mouseX / cellSize)`, the cell whose square contains the pointer | medium; not executed | `Geometry.PointerCell`, `Geometry.PointerOffByHalf` | `Geometry.PointerCellFloor` |

`Brush.PaintAt` takes the brush centre as a grid position, so it is the same whichever mapping produces that position.
