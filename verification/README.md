# Game of Life on a 40 x 30 torus — a Dafny model

This project models the core of a small pygame Game of Life program (`main.py`).

- **`next_generation`** computes one generation of Conway's automaton on a fixed 40 x 30 grid of 0/1 cells.
  - Each cell's eight neighbours are counted with toroidal wraparound: both indices are taken modulo the grid size.
  - Every count is read from the old grid.
  - Results are written into a copy of the old grid. Only two kinds of write happen: a live cell with fewer than 2 or more than 3 neighbours gets 0, and a dead cell with exactly 3 gets 1.
- **The main loop's event handling**:
  - a mouse click inside the "Next Generation" button advances one generation;
  - a click anywhere else toggles the cell under the pointer;
  - the space key pauses and resumes;
  - `s` saves the grid and `l` loads it;
  - a quit event ends the loop;
  - when not paused, a timer advances a generation once more than 300 ms have passed since the last automatic advance, or since start-up.

The grid keeps the source's orientation: `g[x][y]`, column first, as the NumPy array of shape `(n_cells_x, n_cells_y)`.

Modules:

- `Board` (board.dfy): the grid type, its dimensions, the 0/1 invariant, single-cell writes.
- `Life` (life.dfy): the toroidal neighbour count, the survival/birth rule, and `Step`, one generation. It also gives a reference count over the Moore neighbourhood and proves `Step` is the B3/S23 automaton.
- `Sweep` (sweep.dfy): the cell-by-cell walk of `next_generation`. It reads from a snapshot and writes into a copy. The module proves that visiting the cells in any order gives `Step`. It also has an imperative loop in the source's order (rows outer, columns inner), proved equal to `Step`.
- `Patterns` (patterns.dfy): rectangles of live cells placed anywhere on the torus. The 2 x 2 block is a still life. The three-cell blinker has period 2. A lone cell dies.
- `Controls` (controls.dfy): the loop state `(grid, paused, lastTick, running, saveFile)` and the pure transitions for clicks, keys, the timer, frames and whole runs. The clock reading and the events are parameters.

Python's `%` floors and Dafny's `%` is Euclidean. For the positive divisors used here (40 and 30), both give a result in `[0, divisor)`, so `At` uses Dafny's `%` directly. Pixel-to-cell mapping divides non-negative positions, so `//` and `/` agree there too.

Details of the code the model keeps:

- Loading does not check the stored grid's dimensions or contents: the code installs whatever the file holds, and `Load` does the same. The 0/1 invariant `Valid` therefore includes "the save file, if present, holds a well-formed grid". That holds whenever the file was written by `Save`.
- The button hit test uses `<=` on all four edges. It accepts 201 x 51 pixels: x from 300 to 500 and y from 540 to 590. Clicks at x = 500 or y = 590 count as button presses.
- A quit event does not stop the current frame. The remaining events of the batch and the timer check still run; only the next frame is skipped (`QuitEndsRun`).

## Model

| member | source | states |
|---|---|---|
| Board.Set | main.py:94-97 | writing one cell of the copy sets exactly that cell and leaves every other cell and the dimensions unchanged |
| Life.NeighbourCount | main.py:85-92 | on a 0/1 grid the toroidal neighbour count lies in [0, 8] |
| Life.MooreOffsetsAreTheNeighbourhood | main.py:85-92 | the eight offsets used are exactly {-1,0,1}² without (0,0), each offset once |
| Life.NeighbourCountIsMooreSum | main.py:85-92 | the source's eight-term sum equals the sum of the cells at the Moore offsets, indices taken modulo 40 and 30 |
| Life.LiveAmongBounds | main.py:85-92 | on a 0/1 grid, the count over any list of offsets lies between 0 and the list's length |
| Life.Rule | main.py:94-97 | the rule only ever writes 0 or 1, and only a value different from the cell's current value |
| Life.NextCell | main.py:94-97 | a 0/1 cell stays a 0/1 cell in the next generation |
| Life.Step | main.py:79-99 | dimensions are kept and a 0/1 grid stays 0/1. A live cell with fewer than 2 or more than 3 neighbours dies, and a dead cell with exactly 3 is born. A live cell with 2 or 3 neighbours survives, and a dead cell with any count but 3 stays dead. A cell holding neither 0 nor 1 keeps its value |
| Life.StepIsB3S23 | main.py:85-97 | a cell is alive in the next generation exactly when its Moore-neighbourhood count is 3, or it is alive and the count is 2; that count lies in [0, 8] |
| Life.AllDeadStaysDead | main.py:85-97 | an all-dead grid maps to itself: no count can reach 3 |
| Sweep.Visit | main.py:94-97 | a visit changes only the visited cell. If that cell of the copy still holds its old value (or already its new one), it ends with its next-generation value |
| Sweep.VisitAllFromCopy | main.py:80-97 | starting from the copy, after any sequence of visits, each visited cell holds its next-generation value and each unvisited cell its old value, whatever the order and however often cells repeat |
| Sweep.AnyOrderGivesStep | main.py:80-99 | visiting every cell at least once, in any order, produces exactly Step |
| Sweep.ScanOrder | main.py:83-84 | the loop order visits 1200 positions, all on the board, with cell (x, y) at position 40·y + x |
| Sweep.ScanOrderGivesStep | main.py:83-99 | the source's row-major loop order produces exactly Step |
| Sweep.NextGeneration | main.py:79-99 | the copy-then-loop implementation, which reads counts only from the snapshot, returns Step of its input |
| Patterns.BlockIsStill | main.py:79-99 | a 2 x 2 block anywhere on the torus is unchanged by a generation |
| Patterns.BlinkerHasPeriodTwo | main.py:79-99 | a three-cell blinker returns after two generations and differs after one |
| Patterns.HorizontalBecomesVertical | main.py:79-99 | a horizontal blinker becomes the vertical blinker with the same centre |
| Patterns.VerticalBecomesHorizontal | main.py:79-99 | a vertical blinker becomes the horizontal blinker with the same centre |
| Patterns.LoneCellDies | main.py:79-99 | a single live cell dies and nothing is born around it |
| Controls.Start | main.py:51-54 | the initial state is running, not paused, and satisfies the loop invariant |
| Controls.CellSizes | main.py:37-38 | each cell is 20 x 20 pixels |
| Controls.CellOf | main.py:139 | a window pixel maps to a cell on the board whose 20 x 20 rectangle contains it, and to no other cell |
| Controls.Toggle | main.py:140-142 | the chosen cell becomes 1 if it was 0 and 0 otherwise; every other cell is unchanged and a 0/1 grid stays 0/1 |
| Controls.ToggleTwiceRestores | main.py:141 | on a 0/1 grid, toggling the same cell twice gives the grid back |
| Controls.HandleEvent | main.py:131-149 | handling any event keeps the grid shape and the 0/1 invariant |
| Controls.ClickOutsideButtonTogglesOneCell | main.py:134-142 | a click outside the button flips exactly cell (px / 20, py / 20) and changes nothing else in the state |
| Controls.ClickInButtonAdvances | main.py:134-137 | a click inside the inclusive button rectangle runs one generation and toggles nothing |
| Controls.CellsUnderButtonCannotBeToggled | main.py:135-139 | every pixel of the cells in columns 15-24, rows 27-28 lies in the button, so a click can never toggle them |
| Controls.SpaceTogglesPause | main.py:144-145 | the space key flips `paused` and leaves everything else unchanged |
| Controls.LoadMissingKeepsState | main.py:117-121 | loading with no save file leaves the state unchanged |
| Controls.HandleEventsKeepFile | main.py:143-149 | a batch without the save key leaves the save file unchanged |
| Controls.SaveThenLoadRestores | main.py:112-121 | save, then any events without another save, then load: the grid is the one saved |
| Controls.HandleEventsAppend | main.py:131 | handling a batch in two parts equals handling it at once |
| Controls.HandleEventsPreservesValid | main.py:131-149 | a whole batch of events keeps the 0/1 invariant |
| Controls.Tick | main.py:151-155 | the timer keeps the loop invariant and never touches `paused`, `running` or the save file; `lastTick` either stays or becomes the current reading, and the grid either stays or advances by exactly one generation |
| Controls.HandleEventsKeepLastTick | main.py:131-149 | no event moves the timer: only the timer check sets `lastTick` |
| Controls.TickOnceAtAReading | main.py:151-155 | checking the timer twice at the same clock reading advances at most once |
| Controls.FrameFiresIffDue | main.py:151-155 | for a clock reading other than the previous `lastTick`, a frame sets `lastTick` to that reading exactly when, after its events, the game is not paused and more than 300 ms have passed; a frame that fires advances the grid one generation |
| Controls.Frame | main.py:124-155 | one iteration of the loop, events then timer, keeps the grid's shape and the 0/1 invariant |
| Controls.FrameAdvancesOnlyWhenDue | main.py:151-155 | at any clock reading, a frame that is not due (paused after its events, or at most 300 ms since the last stamp) leaves the state exactly as its events left it, grid and `lastTick` included; a frame that is due adds exactly one generation and stamps the reading |
| Controls.FramesSpaced | main.py:151-155 | of two consecutive frames that both advance on the timer, the second's clock reading is more than 300 ms after the first's |
| Controls.PausedFrameKeepsGrid | main.py:151-155 | while paused, a frame with no click, no load and no space key leaves the grid and `lastTick` unchanged |
| Controls.RunPreservesValid | main.py:124-155 | every frame of the loop keeps the grid a well-formed 0/1 grid |
| Controls.HandleEventsNeverRestart | main.py:132-133 | once `running` is cleared, no event sets it again |
| Controls.QuitEndsRun | main.py:124-133 | a quit in a frame's batch ends the loop after that frame, with `running` false |

## Left out

- Rendering and window set-up (`draw_button`, `draw_grid`, `draw_cells`, `screen.fill`, `display.flip`, `pygame.init`). They are output side effects with no state.
- The pickle encoding of the save file and the `os.path.exists` call. The file is modelled as its contents: `Missing`, or `Present(grid)`. Serialisation is taken to round-trip exactly.
- A save file that was not written by this program: `Load` installs its contents unchecked, as the code does. The loop invariant is only proved for files written by `Save`.
- The random initial population (`np.random.choice` with p = 0.2). `Start` takes any well-formed 40 x 30 0/1 grid.
- The singleton mechanics of `GameStateManager`. The state is one explicit value passed through pure functions.
- Reading the clock (`pygame.time.get_ticks`) and polling events. Both arrive as parameters: `now`, and a batch of events per frame.
- Which mouse button was pressed. Every `MOUSEBUTTONDOWN` is handled the same way in the code, so the model carries only the position.
- Clicks outside the window. pygame delivers positions inside the 800 x 600 window, so handlers require `InWindow`. For other positions the code behaves differently: Python's `//` floors, so x from -800 to -1 (or y from -600 to -1) gives a negative index, which NumPy counts from the far end (x = -5 toggles column 39); x >= 800, y >= 600, x < -800 or y < -600 raise `IndexError`.
- The integer type of the NumPy array. Cells only hold 0 or 1 and counts are at most 8, so there is no overflow to model.
