# Game of Life engine — a verified Dafny model

This project models the simulation engine of a bounded Conway's Game of Life
on a 5 × 5 grid: the `GameOfLife` class, which holds a grid of cells and an
`int` generation counter, and the mutable `Cell` it stores at each position.
The engine counts the live cells of the 8-cell Moore neighbourhood without
wraparound, applies the B3/S23 rule to build a fresh grid for the next
generation, and offers bounds-checked edits (set one cell, apply the preset
pattern, randomise, reset) and accessors (emptiness, live count, generation,
a copy of the grid).

Files:

- `rules.dfy`, module `Rules`. The board as a value (`seq<seq<bool>>`) and
  the functions that specify the engine: `LiveNeighbours`, `Step`,
  `SetCell`, `WithPreset`, `FromBits` and `LiveCount`. It also holds
  independent reference definitions (`NeighbourSet`, `AliveCells`) and the
  lemmas connecting them.
- `game_of_life.dfy`, module `Engine`. The class `GameOfLife` with an
  `array2<bool>` grid and an `int` generation, updated in place by its
  methods. A ghost field `board` mirrors the grid, and every method is
  proved against the functions of `Rules`. `nextGeneration` allocates a
  fresh grid and swaps it in, as the engine does.
- `cell.dfy`, module `Cells`. The class `Cell` with its mutable `alive`
  flag, value equality, hash code and glyph.

The grid stores one cell per position. Each cell is created by the engine
and never shared, and the engine reads and writes only the cell's flag. The
grid is therefore modelled by those flags (`array2<bool>`), while `Cell` is
modelled on its own.

## Model

| member | source | states |
|---|---|---|
| Engine.GameOfLife.constructor | src/main/java/com/gamelife/GameOfLife.java:14-18 | a new engine has generation 0 and a fresh grid with all 25 cells dead |
| Engine.GameOfLife.InitializeGrid | src/main/java/com/gamelife/GameOfLife.java:23-29 | every cell of the current grid becomes dead, whatever it held; grid object and generation kept |
| Engine.GameOfLife.RandomizeGrid | src/main/java/com/gamelife/GameOfLife.java:34-41 | each cell takes its bit of the injected row-major bit sequence; grid object and generation kept |
| Engine.GameOfLife.SetInitialPattern | src/main/java/com/gamelife/GameOfLife.java:46-55 | the five cells (2,1), (2,2), (2,3), (1,2), (3,2) become alive; every other cell and the generation are kept |
| Engine.GameOfLife.CountLiveNeighbors | src/main/java/com/gamelife/GameOfLife.java:60-82 | the result is the number of live on-grid cells at Chebyshev distance 1 from (row, col), the cell itself excluded |
| Engine.GameOfLife.NextGeneration | src/main/java/com/gamelife/GameOfLife.java:87-116 | the new grid is a fresh array equal to one B3/S23 step of the old grid, computed from the old grid only; generation is incremented as a Java `int` |
| Engine.GameOfLife.IsEmpty | src/main/java/com/gamelife/GameOfLife.java:138-147 | true iff every cell is dead, and iff the live count is 0 |
| Engine.GameOfLife.GetLiveCellCount | src/main/java/com/gamelife/GameOfLife.java:152-162 | the result is the number of live positions, between 0 and 25 |
| Engine.GameOfLife.GetGeneration | src/main/java/com/gamelife/GameOfLife.java:167-169 | returns the generation, always within the Java `int` range |
| Engine.GameOfLife.GetGridState | src/main/java/com/gamelife/GameOfLife.java:174-182 | returns a fresh 5 × 5 matrix equal cell by cell to the grid |
| Engine.GameOfLife.SetCellState | src/main/java/com/gamelife/GameOfLife.java:187-191 | in range, exactly that cell becomes `alive`; out of range nothing changes; the generation is kept |
| Engine.GameOfLife.Reset | src/main/java/com/gamelife/GameOfLife.java:196-199 | generation 0 and every cell dead, on the same grid object |
| Engine.PresetScenario | src/main/java/com/gamelife/GameOfLife.java:46-116 | reset, preset, one generation: the eight cells around (2,2) alive, (2,2) dead, live count 8, not empty, generation 1 |
| Rules.Int32Succ | src/main/java/com/gamelife/GameOfLife.java:115 | `generation++` stays an `int`: one more below the maximum, wrapping below it at the maximum |
| Rules.LiveNeighbours | src/main/java/com/gamelife/GameOfLife.java:60-82 | the neighbour count never exceeds 8 |
| Rules.LiveNeighboursIsNeighbourSetSize | src/main/java/com/gamelife/GameOfLife.java:60-82 | the 8-term count in visiting order equals the size of the set of live cells adjacent to (r, c) |
| Rules.NeighboursBeforeStep | src/main/java/com/gamelife/GameOfLife.java:64-79 | visiting one offset of the 3 × 3 window adds one exactly when it is a live on-grid neighbour, nothing for the centre |
| Rules.NeighbourCountBounds | src/main/java/com/gamelife/GameOfLife.java:60-82 | at most 8 neighbours, at most 5 on a border, at most 3 in a corner (no wraparound) |
| Rules.FullBoardNeighbours | src/main/java/com/gamelife/GameOfLife.java:60-82 | these bounds are reached: 3, 5 and 8 neighbours on a full board |
| Rules.NextAlive | src/main/java/com/gamelife/GameOfLife.java:99-109 | B3/S23: a cell lives on only with 2 or 3 live neighbours, always with exactly 3, and with 2 only if it was alive |
| Rules.NextAliveAt | src/main/java/com/gamelife/GameOfLife.java:93-109 | the next state of (i, j) is the rule applied to its own state and to the number of live cells adjacent to it on the current board |
| Rules.Step | src/main/java/com/gamelife/GameOfLife.java:87-116 | the next generation is again a 5 × 5 board |
| Rules.StepCell | src/main/java/com/gamelife/GameOfLife.java:93-109 | a cell of the next generation is alive iff it was alive with 2 or 3 live neighbours or dead with exactly 3, counted on the old board |
| Rules.StepKeepsAllDead | src/main/java/com/gamelife/GameOfLife.java:99-109 | an all-dead board stays all dead |
| Rules.IsolatedCellDies | src/main/java/com/gamelife/GameOfLife.java:99-103 | a live cell with no live neighbour dies |
| Rules.EmptyBoard | src/main/java/com/gamelife/GameOfLife.java:23-29 | the freshly initialised board has every cell dead |
| Rules.SetCell | src/main/java/com/gamelife/GameOfLife.java:187-191 | only the addressed cell can change, and it takes the new value when on the board |
| Rules.SetCellOutOfRange | src/main/java/com/gamelife/GameOfLife.java:188 | an off-board edit leaves the board and its live count unchanged |
| Rules.IsPresetCell | src/main/java/com/gamelife/GameOfLife.java:48-54 | the preset cells are exactly (2,1), (2,2), (2,3), (1,2) and (3,2) |
| Rules.WithPreset | src/main/java/com/gamelife/GameOfLife.java:46-55 | a cell is alive after the preset iff it is one of the five preset cells or was alive before |
| Rules.WithPresetIdempotent | src/main/java/com/gamelife/GameOfLife.java:46-55 | applying the preset twice is applying it once |
| Rules.FromBits | src/main/java/com/gamelife/GameOfLife.java:36-40 | the bits are drawn row by row: cell (i, j) takes bit i · 5 + j, giving a 5 × 5 board |
| Rules.FromBitsPlacesEveryBit | src/main/java/com/gamelife/GameOfLife.java:36-40 | bit k lands in row k / 5, column k % 5, so distinct bit sequences give distinct boards |
| Rules.RowCount | src/main/java/com/gamelife/GameOfLife.java:155-159 | a row has at most as many live cells as it has cells |
| Rules.LiveCount | src/main/java/com/gamelife/GameOfLife.java:152-162 | the live count is at most 25 |
| Rules.LiveCountIsAliveCellsSize | src/main/java/com/gamelife/GameOfLife.java:152-162 | the row-by-row count equals the number of live positions |
| Rules.LiveCountZeroIffAllDead | src/main/java/com/gamelife/GameOfLife.java:138-162 | the live count is 0 iff every cell is dead |
| Rules.PresetOnEmptyBoard | src/main/java/com/gamelife/GameOfLife.java:46-55 | the preset on an empty board is the plus of five cells centred on (2,2) |
| Rules.PresetThenStep | src/main/java/com/gamelife/GameOfLife.java:87-116 | one step of the plus is the ring of the eight cells around (2,2), live count 8 |
| Rules.BlockIsStillLife | src/main/java/com/gamelife/GameOfLife.java:99-109 | the 2 × 2 block is unchanged by a step |
| Cells.Cell.constructor | src/main/java/com/gamelife/Cell.java:9-11 | `new Cell(b)` is alive iff b |
| Cells.Cell.Dead | src/main/java/com/gamelife/Cell.java:13-15 | `new Cell()` is dead |
| Cells.Cell.IsAlive | src/main/java/com/gamelife/Cell.java:17-19 | reports the liveness flag |
| Cells.Cell.SetAlive | src/main/java/com/gamelife/Cell.java:21-23 | afterwards the cell is alive iff the argument is true |
| Cells.Cell.Kill | src/main/java/com/gamelife/Cell.java:25-27 | the cell is dead afterwards; killing a dead cell changes nothing |
| Cells.Cell.Revive | src/main/java/com/gamelife/Cell.java:29-31 | the cell is alive afterwards; reviving a live cell changes nothing |
| Cells.Cell.ToString | src/main/java/com/gamelife/Cell.java:33-36 | one glyph: "█" exactly for a live cell, "░" exactly for a dead one |
| Cells.Cell.Equals | src/main/java/com/gamelife/Cell.java:38-44 | reflexive; false for null and for objects of another class; for a cell, true iff both have the same liveness |
| Cells.Cell.HashCode | src/main/java/com/gamelife/Cell.java:46-49 | 1231 exactly for a live cell, 1237 exactly for a dead one (`Boolean.hashCode`) |
| Cells.EqualsSymmetric | src/main/java/com/gamelife/Cell.java:38-44 | cell equality is symmetric |
| Cells.EqualsTransitive | src/main/java/com/gamelife/Cell.java:38-44 | cell equality is transitive |
| Cells.EqualCellsHashAlike | src/main/java/com/gamelife/Cell.java:38-49 | equal cells have equal hash codes |

## Left out

- `display()` prints the grid to the console. It is output only and is not modelled.
- `java.util.Random` in `randomizeGrid` is not modelled. `RandomizeGrid` takes the 25 booleans the generator would draw, as a row-major sequence.
- `GameOfLifeWebServer.java` is not part of this model. It covers HTTP serving and JSON building, integer and boolean parsing, and a thread pool that shares one unsynchronised engine. Concurrent access to the engine is therefore not modelled.
- `GameOfLifeConsole.java`, `Main.java` and the browser script `web/js/game.js` are not part of this model. They are I/O glue around the engine calls; the console's live-cell percentage is floating point.
- `Engine.GameOfLife.NextGeneration`: the grid holds liveness flags rather than `Cell` objects. The new grid's fresh `Cell` per position (`new Cell()` followed by `setAlive(true)`) is modelled as writing the resulting flag. Object identity of cells, and any aliasing between them, are not modelled. The engine never shares a cell between positions.
- `Engine.GameOfLife.InitializeGrid`: the source installs a new dead `Cell` at each position, whereas the model sets each flag to false in the same grid. The difference is object identity only, which is not modelled.
- `Engine.GameOfLife.SetInitialPattern` does not clear the grid. It sets the five cells and keeps every other cell (src/main/java/com/gamelife/GameOfLife.java:46-55); the callers reset first, as `Engine.PresetScenario` does.
- `Rules.Int32Succ`: the generation counter is a Java `int`, and the model keeps its wrap. After 2^31 - 1 steps, the next step takes the counter to -2^31, so the counter is not always non-negative or non-decreasing.
- The grid size is the constant 5 (`GRID_SIZE`) and is not generalised.
