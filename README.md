# Conway's Game of Life (SFML front end) — a Dafny model

This project models the engine of a small interactive Game of Life
program: a 125×125 board of boolean cells drawn in a 750×750 window
(6 pixels per cell), a double-buffered generation step under the B3/S23
rule, and the main loop's event handling. In the main loop, a left click
toggles a cell while the simulation is paused. Space starts and pauses
the simulation. The Left and Right arrow keys lower and raise the speed
value `ticks`, which is the frame-rate limit while running. Each loop
iteration first handles the polled events and then computes one
generation if the simulation is running.

Layout:

- `life_rules.dfy`, module `LifeRules`: the board constants, the bounds
  test, the neighbour count, the rule, one synchronous generation `Step`
  and a cell flip `Toggle`, all as pure functions over `Grid` values
  (`seq<seq<bool>>` of 125×125), with lemmas about them.
- `life_control.dfy`, module `LifeControl`: events, the program's global
  state as a `State` value, the dispatch of one event (`Apply`), the
  frame-rate choice of `updateTicks` (`FrameLimit`), one loop iteration
  (`Iteration`) and a run of iterations (`Run`), with lemmas about them.
- `life_engine.dfy`, module `LifeEngine`: class `GameOfLife`, which holds
  the program's globals. `cells` and `oldCells` are two 125×125
  `array2<bool>`. The fields `running`, `ticks`, `frameLimit` and `open`
  sit beside them. The methods are the source's functions, with the same
  nested loops, updating the arrays in place. Each method is proved
  against the pure functions through `Snapshot` (an array's contents as a
  `Grid`) and `Model()` (the whole state as a `State`).

Two quirks of the program are modelled as written:

- The bounds test compares `x > MIN && y > MIN` with `MIN = 0`. So column
  0 and row 0 never count as anybody's neighbours, although every
  generation still updates them. `EdgeNeverCounted`,
  `CornerDiesEveryStep`, `BlockIsStill` and `EdgeBlockDecays` state the
  consequences: a 2×2 block is still exactly when all four of its cells
  pass the bounds test, and decays whenever it touches column 0 or row 0.
- `ticks--` has no floor. `ticks` can reach 0 or go negative. The window
  receives it as an `unsigned int`, so 0 disables the frame-rate limit
  and a negative value wraps around to a huge limit (`FrameLimit`,
  `TicksGoNegative`).

Facts about the code that the model follows:

- There is no speed floor: `ticks` may reach 0 and go below.
- There is no bounds check on clicks: an off-board click indexes
  outside the arrays, so the model requires the clicked cell to be on
  the board.
- `ticks` is a frame rate: higher is faster. It is not a step interval.
- There is no overlay, clear, random blob or preset layout feature.

## Model

| member | source | states |
|---|---|---|
| `LifeRules.IsInRange` | main.cpp:26-28 | in range exactly when the cell is on the grid and lies in neither column 0 nor row 0 |
| `LifeRules.Count` | main.cpp:34-53 | the neighbour count (eight Moore offsets that pass the bounds test and are alive in the previous generation) is at most 8 |
| `LifeEngine.GameOfLife.GetAliveNeighbors` | main.cpp:34-53 | the double loop over the nine offsets, skipping the centre and out-of-range cells, returns `Count` of the previous generation, in [0, 8], reading `oldCells` only and changing nothing |
| `LifeEngine.LoopCountsNeighbours` | main.cpp:37-50 | the partial sums of the nested loops add up to the eight-offset `Count` |
| `LifeRules.Rule` | main.cpp:70-78 | B3/S23: a live cell stays alive exactly with 2 or 3 neighbours, a dead one is born exactly with 3 |
| `LifeRules.CellUpdate` | main.cpp:70-78 | `simulateCell` writes the rule's value exactly when the rule changes the cell's previous-generation state (death with fewer than 2 or more than 3 neighbours, birth with 3) and leaves the current value in every other case |
| `LifeEngine.GameOfLife.SimulateCell` | main.cpp:70-78 | the cell becomes `CellUpdate` of its previous-generation state, its current state and the count; no other cell changes |
| `LifeEngine.GameOfLife.CopyCells` | main.cpp:62-68 | afterwards the previous generation equals the current one, and the current one is unchanged |
| `LifeEngine.GameOfLife.Simulate` | main.cpp:80-89 | afterwards the previous generation is the pre-step grid and the current one is `Step` of it: every cell is the rule applied to the pre-step snapshot, so the visiting order does not matter |
| `LifeRules.StepIsLocal` | main.cpp:80-89 | a cell's next state depends only on the snapshot's 3×3 block around it |
| `LifeRules.StepDead` | main.cpp:80-89 | an all-dead grid stays all-dead |
| `LifeRules.SingleCellDies` | main.cpp:80-89 | a lone live cell dies and leaves an all-dead grid |
| `LifeRules.BlinkerTurns` | main.cpp:80-89 | away from the edges a vertical blinker becomes horizontal and back |
| `LifeRules.BlinkerOscillates` | main.cpp:80-89 | a blinker differs after one generation and returns after two (period 2) |
| `LifeRules.BlockIsStill` | main.cpp:80-89 | a 2×2 block whose cells pass the bounds test is a still life |
| `LifeRules.EdgeNeverCounted` | main.cpp:26-28 | grids that differ only in column 0 or row 0 have the same neighbour counts everywhere |
| `LifeRules.CornerDiesEveryStep` | main.cpp:26-53 | cell (0, 0) only sees (1, 1), so it is dead after every generation |
| `LifeRules.EdgeBlockDecays` | main.cpp:26-89 | a 2×2 block touching column 0 or row 0 is not still (the converse of `BlockIsStill`) |
| `LifeRules.Toggle` | main.cpp:59 | exactly the given cell is flipped; every other cell is unchanged |
| `LifeRules.ToggleTwice` | main.cpp:55-60 | flipping the same cell twice restores the grid |
| `LifeEngine.GameOfLife.ToggleCellAt` | main.cpp:55-60 | the current grid becomes `Toggle` of itself at the cell given by the coordinates, divided with truncation by the ratio 6 when they are pixels and used as they are otherwise |
| `LifeControl.ClickOnSurfaceHitsGrid` | main.cpp:14-18 | a click anywhere on the 750×750 surface lands on the grid, in the cell whose 6×6 pixel block contains it |
| `LifeControl.NearEdgeClickHitsEdgeCell` | main.cpp:56-57 | division truncates toward zero, so pixels -5 to 5 map to cell 0 where floored division would give -1 |
| `LifeControl.FrameLimit` | main.cpp:30-32 | the limit is 30 when paused and `ticks` when running, wrapped to 32 unsigned bits when `ticks` is negative |
| `LifeEngine.GameOfLife.UpdateTicks` | main.cpp:30-32 | the window's limit becomes `FrameLimit` of `running` and `ticks` |
| `LifeControl.Apply` | main.cpp:112-132 | the grid changes exactly on a left press while paused, and then becomes `Toggle` at the clicked cell; `running` changes exactly on a Space release; Left and Right releases move `ticks` by exactly -1 and +1, and no other event moves it; every handled key release sets the limit to `FrameLimit`; only Closed closes the window; the previous generation is never touched |
| `LifeEngine.GameOfLife.HandleEvent` | main.cpp:113-131 | the new state is `Apply` of the old state and the event |
| `LifeControl.TicksAfterEvents` | main.cpp:124-129 | after any events `ticks` is the old value plus the Right releases minus the Left releases, with no clamping |
| `LifeControl.TicksGoNegative` | main.cpp:124-126 | from start-up, two Left releases and a Space give `ticks` = -1 and a wrapped-around limit |
| `LifeControl.RunningAfterEvents` | main.cpp:120-123 | `running` ends up flipped exactly when Space was released an odd number of times |
| `LifeControl.RunningIgnoresClicks` | main.cpp:115-118 | while running and without Space releases, clicks never change the grid |
| `LifeControl.NoClicksKeepGrid` | main.cpp:112-132 | events without mouse presses leave the grid unchanged |
| `LifeControl.ClickTwiceRestores` | main.cpp:115-118 | two left clicks on the same pixel while paused restore the whole state |
| `LifeControl.IterationStepsIffRunning` | main.cpp:120-138 | in terms of the state before the iteration: the grid becomes `Step` of the grid the events left exactly when `running` held and Space was released an even number of times, or `running` did not hold and Space was released an odd number of times; otherwise it is the grid the events left |
| `LifeEngine.GameOfLife.RunIteration` | main.cpp:110-138 | the new state is `Iteration` of the old state and the polled events |
| `LifeEngine.GameOfLife.RunLoop` | main.cpp:109-147 | the new state is `Run` of the old state and the polled events of each iteration, stopping once the window is closed |
| `LifeControl.DeadBoardStaysDead` | main.cpp:109-147 | with no mouse presses an all-dead board stays all-dead through a whole run |
| `LifeControl.ClosedStaysClosed` | main.cpp:113-114 | after events that include Closed, or from a closed window, the window is closed |
| `LifeControl.ClosedWindowStops` | main.cpp:109-114 | an iteration whose events include Closed is the last: the run ends in the state that iteration leaves |
| `LifeEngine.GameOfLife.constructor` | main.cpp:20-24 | start-up state: both grids dead, paused, `ticks` = 1, no frame-rate limit, window open |

## Left out

- Rendering: `draw`, the image, texture and sprite, `window.clear`, `display` (main.cpp:91-97, 101-107, 134, 140-146). These are I/O on a graphics library.
- Event polling and window creation are SFML calls. Each loop iteration takes as a parameter the sequence of events the window delivered. The real loop runs until the window closes; `RunLoop` is bounded by the number of iterations it is given.
- The frame-rate limiting itself is timing inside SFML. The model only records the limit last handed to the window (`frameLimit`, 0 meaning no limit).
- `ticks` is an unbounded integer: incrementing a C++ `int` past 2^31 - 1 or decrementing it below -2^31 is undefined behaviour, and this model does not capture it. `LifeControl.FrameLimit` states the wrap-around for `ticks` down to -2^32, a range that includes every value of a 32-bit `int`.
- SFML delivers no more events after `window.close()`, so events that follow Closed in the same iteration are never handled. `ApplyAll` still handles them; the window stays closed (`ClosedStaysClosed`), but such trailing events may change `running`, `ticks` or the grid and trigger one more generation.
- `LifeEngine.GameOfLife.ToggleCellAt`, `LifeControl.Apply`: the model requires the clicked cell to lie on the grid, because the source indexes the arrays without a check. An off-board click is undefined behaviour in C++ and has no model.
- qt/main.cpp is an empty Qt window with no logic; it is not part of this model.
- Overlay messages, clear-all, random-blob and preset-layout stamping, a speed floor, and font or layout loading do not exist in the code and are not modelled.
