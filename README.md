# GameOfLife grid, modelled in Dafny

`GameOfLife<ROWS, COLS>` (GameOfLife.hpp) is a fixed-size Conway's Life board on a torus. It uses
rule B3/S23: a dead cell with exactly three live neighbours is born, and a live cell with two or
three live neighbours survives. The board is kept in two flat row-major arrays:

- `_cells`: one `bool` per cell;
- `_accumulator`: one `byte` per cell, the scratch neighbour counts.

`update()` runs two phases:

1. `accumulateNeighbors()` zeroes the accumulator. Then, for every live cell, it increments the
   slots of its eight neighbours, wrapping at the edges.
2. `updateCells()` rewrites each cell in place from its own old state and its own count.

The project has four modules:

- `LifeRules` (life_rules.dfy) is the specification.
  - Wrapped neighbours (`WrapDec`, `WrapInc`, `Shift` over the offsets `Delta`).
  - Row-major indexing (`Index`).
  - The board as a value (`Board`).
  - The live-neighbour count (`LiveNeighbours`, one term per offset, so a neighbour reached
    through two offsets on a narrow board counts twice, as in the source).
  - The rule (`NextCell`) and the toroidal successor (`Step`).
- `Accumulation` (accumulation.dfy) describes the accumulation scan as values.
  - `Credited(b, row, col, r, c)` is what slot (r, c) holds once the row-major scan has reached
    cell (row, col).
  - The slot lists a live cell increments (`ColumnSlots`, `RowSlots`, `CellSlots`).
  - Lemmas carry the scan forward one cell at a time.
- `GameOfLifeGrid` (game_of_life.dfy) is the class itself.
  - It holds `rows`/`cols` as constant fields and the two arrays.
  - Its methods follow the C++ member functions branch for branch.
  - Each method is proved against the specification. `Update` turns the board into
    `Step(old board)`.
- `Patterns` (patterns.dfy) holds consequences of the rule that the grid therefore shows.
  - The empty board stays empty and a lone cell dies.
  - The 2x2 block is still and the blinker has period 2.
  - Repeated steps (`Generations`) keep those patterns forever.
  - Each pattern is the board that `setAlive` calls on a cleared grid produce (`SetAlive`
    yields `With`, and `Clear` yields `Dead`).

## Model

| member | source | states |
|---|---|---|
| LifeRules.WrapDecIsModular | GameOfLife.hpp:62-71 | the row (or column) chosen by the `row - 1 >= 0` test and its `ROWS - 1` fallback is `(row - 1) mod ROWS` |
| LifeRules.WrapIncIsModular | GameOfLife.hpp:73-82 | the row (or column) chosen by the `row + 1 < ROWS` test and its `0` fallback is `(row + 1) mod ROWS` |
| LifeRules.ShiftIsModular | GameOfLife.hpp:101-114 | moving an in-range coordinate by an offset in {-1, 0, 1} with the source's wrap lands on `(i + d) mod n` |
| LifeRules.ShiftInverse | GameOfLife.hpp:101-114 | moving i by d reaches j exactly when moving j by -d reaches i (a live cell credits slot s through d iff the cell is s moved by -d) |
| LifeRules.ShiftMoves | GameOfLife.hpp:101-116 | on an axis of at least two positions a shift stays put exactly for the zero offset |
| LifeRules.Index | GameOfLife.hpp:37 | an in-range (row, col) maps to a position inside the `ROWS * COLS` array |
| LifeRules.IndexIsRowMajor | GameOfLife.hpp:37 | that position is `row * COLS + col` |
| LifeRules.IndexInjective | GameOfLife.hpp:37 | two in-range coordinates share a position only when they are equal |
| LifeRules.IndexCoordinates | GameOfLife.hpp:7-8 | every array position is the row-major position of `(i / COLS, i % COLS)`, which is in range |
| LifeRules.Board.With | GameOfLife.hpp:40-43 | setting one cell changes that cell to the new state and no other cell, and keeps the dimensions |
| LifeRules.BoardsEqual | GameOfLife.hpp:7 | two boards of the same size that agree on every cell are equal |
| LifeRules.Dead | GameOfLife.hpp:23-27 | the all-dead board has every cell dead |
| LifeRules.LiveNeighbours | GameOfLife.hpp:56-117 | the number of live cells among the eight wrapped neighbours is at most 8 |
| LifeRules.NextCell | GameOfLife.hpp:126-133 | B3/S23: a count of 3 gives a live cell, a count of 2 keeps the state, and any other count gives a dead cell |
| LifeRules.NextCells | GameOfLife.hpp:121-135 | the first n cells of the next generation, each the rule applied at its own position |
| LifeRules.Step | GameOfLife.hpp:45-49 | the successor board has the same dimensions, and each cell is the rule applied to its old state and its live-neighbour count |
| LifeRules.StepIsCellwise | GameOfLife.hpp:45-49 | any board that agrees cell by cell with the rule applied to b is `Step(b)` |
| Accumulation.Credited | GameOfLife.hpp:56-97 | a slot holds at most 8 credits at any point of the scan |
| Accumulation.Hits | GameOfLife.hpp:62-94 | a live cell's increments touch one slot at most 8 times |
| Accumulation.ColumnSlots | GameOfLife.hpp:99-117 | `accumulateColumnNeighbors` increments three slots |
| Accumulation.RowSlots | GameOfLife.hpp:84-94 | the current-row step increments two slots |
| Accumulation.CellSlots | GameOfLife.hpp:62-94 | a live cell increments eight slots |
| Accumulation.SlotHit | GameOfLife.hpp:86-116 | incrementing slot (x, y) touches slot (r, c) once when they are the same cell and never otherwise |
| Accumulation.CellSlotsEntries | GameOfLife.hpp:62-94 | the eight slots in order: (row - 1, col - 1), (row - 1, col + 1), (row - 1, col), (row + 1, col - 1), (row + 1, col + 1), (row + 1, col), (row, col - 1), (row, col + 1), all wrapped |
| Accumulation.CellSlotsHits | GameOfLife.hpp:62-117 | a live cell increments slot (r, c) once per offset that takes it to (r, c) |
| Accumulation.ScanStart | GameOfLife.hpp:54-56 | before the scan nothing is credited |
| Accumulation.ScanCellThrough | GameOfLife.hpp:60-94 | scanning a cell credits a slot through an offset exactly when the cell is live and reaches the slot through that offset |
| Accumulation.ScanCell | GameOfLife.hpp:60-94 | scanning a cell adds its hits to a slot when it is live and nothing when it is dead (the `continue`) |
| Accumulation.ScanNextRow | GameOfLife.hpp:56-58 | the end of one row is the start of the next |
| Accumulation.ScanComplete | GameOfLife.hpp:52-97 | once every row has been scanned a slot's credits are the live-neighbour count of its cell |
| GameOfLifeGrid.Succ | GameOfLife.hpp:8 | `++` on a `byte` is `(x + 1) mod 256` |
| GameOfLifeGrid.IncrementAll | GameOfLife.hpp:86-116 | incrementing a list of slots keeps the length of the accumulator |
| GameOfLifeGrid.IncrementAllCounts | GameOfLife.hpp:86-116 | a slot that would not overflow ends up its old value plus the number of times it is listed |
| GameOfLifeGrid.IncrementAllWraps | GameOfLife.hpp:86-116 | in general each slot ends up its old value plus the number of times it is listed, mod 256 |
| GameOfLifeGrid.IncrementAllAppend | GameOfLife.hpp:62-94 | incrementing s and then t is incrementing the list s + t |
| GameOfLifeGrid.ScanLiveCell | GameOfLife.hpp:62-94 | a live cell's eight increments move a slot from its credits before the cell to its credits after it |
| GameOfLifeGrid.ScanStartsZeroed | GameOfLife.hpp:54 | the zeroed accumulator is where the scan starts |
| GameOfLifeGrid.ScanSkipsDead | GameOfLife.hpp:60 | skipping a dead cell leaves the scan invariant true one cell further on |
| GameOfLifeGrid.ScanCountsLive | GameOfLife.hpp:62-94 | a live cell's eight increments keep the scan invariant true one cell further on |
| GameOfLifeGrid.ScanWrapsRow | GameOfLife.hpp:56-58 | the invariant at the end of a row is the invariant at the start of the next |
| GameOfLifeGrid.ScanEndsCounted | GameOfLife.hpp:52-97 | after the last row every slot holds the live-neighbour count of its cell |
| GameOfLifeGrid.GameOfLife.Current | GameOfLife.hpp:7 | the cells read as a valid board of the grid's dimensions |
| GameOfLifeGrid.GameOfLife.constructor | GameOfLife.hpp:11-14 | a new grid has the given dimensions and every cell dead |
| GameOfLifeGrid.GameOfLife.Rows | GameOfLife.hpp:16-18 | the result is the fixed row count `rows`, positive, and the cell array holds rows * cols cells |
| GameOfLifeGrid.GameOfLife.Cols | GameOfLife.hpp:19-21 | the result is the fixed column count `cols`, positive, and the cell array holds rows * cols cells |
| GameOfLifeGrid.GameOfLife.Clear | GameOfLife.hpp:23-27 | every cell is dead afterwards, whatever the state before (so clearing twice is clearing once) |
| GameOfLifeGrid.GameOfLife.Randomize | GameOfLife.hpp:29-33 | each cell is live exactly when its drawn value is below 30 |
| GameOfLifeGrid.GameOfLife.IsAlive | GameOfLife.hpp:35-38 | the result is the state of cell (row, col) of the board |
| GameOfLifeGrid.GameOfLife.SetAlive | GameOfLife.hpp:40-43 | afterwards `IsAlive(row, col)` is the new state and every other cell is unchanged |
| GameOfLifeGrid.GameOfLife.Update | GameOfLife.hpp:45-49 | the new board is `Step` of the old board: the toroidal B3/S23 successor |
| GameOfLifeGrid.GameOfLife.Increment | GameOfLife.hpp:86 | one `++` on the slot of (row, col), as `IncrementAll` with that one slot |
| GameOfLifeGrid.GameOfLife.AccumulateColumnNeighbours | GameOfLife.hpp:99-117 | the accumulator is the old one with the left, right and own-column slots of the row incremented |
| GameOfLifeGrid.GameOfLife.AccumulateCellNeighbours | GameOfLife.hpp:62-94 | the accumulator is the old one with the eight wrapped neighbour slots of the cell incremented |
| GameOfLifeGrid.GameOfLife.AccumulateRowNeighbours | GameOfLife.hpp:84-94 | the accumulator is the old one with the left and right slots of the cell's own row incremented |
| GameOfLifeGrid.GameOfLife.AccumulateNeighbours | GameOfLife.hpp:52-97 | every slot holds the live-neighbour count of its cell (so at most 8, and the byte never wraps) |
| GameOfLifeGrid.GameOfLife.ZeroAccumulator | GameOfLife.hpp:54 | every accumulator slot is 0 |
| GameOfLifeGrid.GameOfLife.UpdateCells | GameOfLife.hpp:119-136 | every cell becomes the rule applied to its own old state and its own slot: rewriting in place is the same as a pointwise map over the old cells |
| Patterns.LoneCellBySetAlive | GameOfLife.hpp:40-43 | one `setAlive(r, c, true)` on a cleared grid gives the board whose only live cell is (r, c) |
| Patterns.BlockBySetAlive | GameOfLife.hpp:40-43 | `setAlive` of (1, 1), (1, 2), (2, 1), (2, 2) on a cleared grid gives the 2 x 2 block that BlockIsStill is about |
| Patterns.BlinkerBySetAlive | GameOfLife.hpp:40-43 | `setAlive` of (2, 1), (2, 2), (2, 3) on a cleared grid gives the horizontal blinker that BlinkerForever is about |
| Patterns.AxisHits | GameOfLife.hpp:62-94 | along one axis a position reaches at most three members of a set |
| Patterns.RectNeighbourLive | GameOfLife.hpp:62-94 | a neighbour of a rectangle board is live when its row offset lands in the rows and its column offset lands in the columns |
| Patterns.RectNeighbours | GameOfLife.hpp:52-117 | a rectangle board's neighbour count is the product of the two axis counts less the cell itself |
| Patterns.RectSteps | GameOfLife.hpp:45-49 | when the rule turns rectangle R x C into R' x C' cell by cell, `Step` does so for the whole board |
| Patterns.Generations | GameOfLife.hpp:45-49 | k updates keep the dimensions |
| Patterns.StillForever | GameOfLife.hpp:45-49 | a board that one update leaves unchanged stays unchanged through any number of updates |
| Patterns.AlternateForever | GameOfLife.hpp:45-49 | two boards that update into each other alternate forever |
| Patterns.EmptyStaysEmpty | GameOfLife.hpp:45-49 | an all-dead board stays all dead |
| Patterns.SingleAxis | GameOfLife.hpp:62-94 | on an axis of at least two positions a single position is reached at most twice, and once from itself |
| Patterns.LoneCellDies | GameOfLife.hpp:126-129 | on a board of at least 2 x 2, a single live cell dies and leaves an empty board |
| Patterns.BandOfTwo | GameOfLife.hpp:62-94 | how often each position reaches the band {1, 2} on an axis of at least 4 |
| Patterns.BlockIsStill | GameOfLife.hpp:45-49 | on a board of at least 4 x 4, the 2 x 2 block is unchanged by an update |
| Patterns.BandOfOne | GameOfLife.hpp:62-94 | how often each position reaches {2} on an axis of at least 5 |
| Patterns.BandOfThree | GameOfLife.hpp:62-94 | how often each position reaches {1, 2, 3} on an axis of at least 5 |
| Patterns.BlinkerTurnsVertical | GameOfLife.hpp:45-49 | on a board of at least 5 x 5, a horizontal blinker becomes vertical |
| Patterns.BlinkerTurnsHorizontal | GameOfLife.hpp:45-49 | on a board of at least 5 x 5, a vertical blinker becomes horizontal |
| Patterns.BlockForever | GameOfLife.hpp:45-49 | the block is unchanged by any number of updates |
| Patterns.BlinkerForever | GameOfLife.hpp:45-49 | the blinker is horizontal after an even number of updates and vertical after an odd one |

## Left out

- Randomize: `random(100)` is Arduino's ambient random source. Its values become the parameter
  `draws`, one per cell. That roughly 30% of cells end up live is a statistical claim and is not stated.
- `memset` is modelled by the zeroing loop `ZeroAccumulator` and not as a library call.
- The Arduino `byte` is the newtype `byte` (0..255), and `++` wraps modulo 256. The proof shows the
  wrap never happens, since every count stays at most 8.
- The template parameters `ROWS` and `COLS` are constructor arguments held in constant fields.
  The dimensions therefore never change after construction.
- IsAlive and SetAlive: a coordinate outside the grid violates their contract, so in-range
  coordinates are a precondition rather than a modelled failure. The C++ does not check bounds.
  A coordinate whose flat index `row * COLS + col` stays inside the array silently reads or
  writes another cell: on a 3 x 3 grid, (0, 3) is cell (1, 0). Any other coordinate indexes
  outside the array, which is undefined behaviour. The precondition excludes both.
- Two parts of `accumulateNeighbors` are split into helper methods that keep the source's
  branches unchanged: `AccumulateCellNeighbours` is the live-cell loop body (lines 62-94), and
  `AccumulateRowNeighbours` holds the current-row increments (lines 84-94).
- `row * COLS + col` is written `Index(rows, cols, row, col)`, built from a running row offset
  `RowStart`. `IndexIsRowMajor` proves it equal to the product.
- The source is single-threaded, so the model has no concurrency.
