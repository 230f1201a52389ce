# lifegame-ts in Dafny

A model of the `LifeGame` class of lifegame-ts, a browser version of Conway's
game of life. The board is a fixed `row` x `col` grid of cells, each alive or
dead. Positions off the board count as dead: there is no wrap-around.

- **Mouse.** The user paints cells with the mouse. Left button: alive. Right
  button: dead.
- **Buttons.** The step button advances one generation. The clear button kills
  every cell. The run/stop button flips a `running` flag.

The project has three modules.

- `LifeRule` (`rule.dfy`) is the transition rule on boards as values.
  - A board is a `Grid`: a sequence of rows of `bool`.
  - `Around` is the Moore neighbour count. `LiveNeighbours` is an independent
    set-based reference for it.
  - `NextState` and `NextBoard` give one generation. `Dead` is the cleared
    board. `Paint` sets one cell. `Generation` runs `n` generations.
- `Game` (`game.dfy`) is the `LifeGame` object itself.
  - The board is an `array2<bool>`, updated in place by `Clear` and `Put`.
    `Step` replaces it with a freshly filled array, as the source does.
  - The methods run the source's nested loops. Each one is proved against the
    functions of `LifeRule` through a ghost `cells` field. `Valid()` keeps that
    field equal to the array.
  - The pointer flags `leftClick` and `rightClick` and the `running` flag are
    fields, changed by the mouse handlers and by `ToggleRun`.
- `Patterns` (`patterns.dfy`) runs known patterns through `NextBoard`.
  - A pattern is a set of live positions; `Shows(g, s)` says the live cells of
    board `g` are exactly `s`.
  - It proves the behaviour the game of life is known for: the block is a
    still life, the blinker has period 2, and the glider keeps five cells and
    moves by (1, 1) every four generations. These hold on any board large
    enough to hold the pattern.

## Model

| member | source | states |
|---|---|---|
| `LifeRule.Around` | src/index.ts:149-170 | the neighbour count of any position, on or off the board, is at most 8 |
| `LifeRule.CountToAround` | src/index.ts:155-168 | counting the offsets in the loops' order (dx outer, dy inner, each -1..1, skipping (0, 0)) gives `Around` |
| `LifeRule.AroundCountsLiveNeighbours` | src/index.ts:149-170 | `Around` is the number of distinct positions among the eight neighbours that are on the board and alive; off-board positions and the cell itself are never counted |
| `LifeRule.AroundLocal` | src/index.ts:153-170 | two boards that agree on the eight neighbours give the same count, whatever the cell itself and the rest of the board hold |
| `LifeRule.ConwayRule` | src/index.ts:113-122 | a live cell survives exactly when it has 2 or 3 live neighbours; a dead cell is born exactly when it has 3 |
| `LifeRule.NextBoardLocal` | src/index.ts:105-126 | the next state of a cell depends only on that cell and its eight neighbours on the old board, never on cells already computed |
| `LifeRule.NextBoard` | src/index.ts:105-126 | the next generation has the old board's shape: the same number of rows, each of the same length |
| `LifeRule.Generation` | src/index.ts:131-138 | any number of generations keeps the board's shape |
| `LifeRule.Dead` | src/index.ts:140-145 | the cleared board has the board's shape and every cell dead |
| `LifeRule.DeadIsQuiet` | src/index.ts:140-147 | on a cleared board every position has count 0, and the next generation is the cleared board again |
| `LifeRule.Paint` | src/index.ts:48-51 | painting sets the chosen cell to the given state, keeps the shape and changes no other cell |
| `LifeRule.PaintKeepsOwnCount` | src/index.ts:48-51 | painting a cell never changes that cell's own neighbour count |
| `LifeRule.GenerationAdd` | src/index.ts:131-138 | running `m` generations and then `n` more is running `m + n` |
| `Game.CellOf` | src/index.ts:49-50 | the cell index of a pixel position is the floor of position / cell size: the cell's span of pixels holds the position |
| `Game.LifeGame.constructor` | src/index.ts:17-31 | a new game has the given size, cell size 20, interval 100, every cell dead, no button held and `running` false |
| `Game.LifeGame.Around` | src/index.ts:153-170 | the method's nested loops return `LifeRule.Around` of the current board |
| `Game.LifeGame.Step` | src/index.ts:105-129 | the board afterwards is a fresh array equal to `NextBoard` of the board before; cell by cell, by the switch on the old board's count: 2 keeps the old state, 3 makes the cell alive, any other count leaves it dead |
| `Game.LifeGame.StepRow` | src/index.ts:111-124 | one pass of the inner loop fills row `y` of the fresh board with that row of `NextBoard` and touches no other row |
| `Game.LifeGame.Clear` | src/index.ts:140-147 | afterwards every cell is dead and the board keeps its size |
| `Game.LifeGame.Put` | src/index.ts:48-53 | exactly the cell (floor(posX / 20), floor(posY / 20)) takes the new state; every other cell keeps its state |
| `Game.LifeGame.MouseDown` | src/index.ts:55-61 | button 0 sets `leftClick` and paints the cell alive; button 2 sets `rightClick` and paints it dead; any other button changes nothing. The flag listener of src/index.ts:34-37 runs before the painting one |
| `Game.LifeGame.MouseUp` | src/index.ts:38-41 | button 0 clears `leftClick`, button 2 clears `rightClick`; any other button changes no flag |
| `Game.LifeGame.MouseOut` | src/index.ts:42 | leaving the canvas clears `leftClick` and nothing else; `rightClick` stays as it was |
| `Game.LifeGame.MouseMove` | src/index.ts:63-69 | a held left button paints the cell alive, taking priority over the right button; otherwise a held right button paints it dead; otherwise the board is unchanged |
| `Game.LifeGame.ToggleRun` | src/index.ts:186-192 | the run/stop button flips `running` |
| `Game.ToggleTwice` | src/index.ts:186-192 | pressing the run/stop button twice restores `running` |
| `Patterns.AroundShown` | src/index.ts:149-170 | on a board whose live cells are the set `s`, the count of any position is the number of its neighbours in `s` |
| `Patterns.StepShows` | src/index.ts:105-129 | a board showing `s` steps to a board showing `t` when the rule applied to `s` at every position of the plane gives `t` and `t` fits on the board |
| `Patterns.EvolvesByWindow` | src/index.ts:153-170 | positions more than one cell away from a pattern have count 0, so the rule needs checking only in the window one cell around it |
| `Patterns.StillForever` | src/index.ts:131-138 | a pattern the rule maps to itself is shown by every generation |
| `Patterns.AlternateForever` | src/index.ts:131-138 | two patterns the rule maps to each other alternate: even generations show the first, odd generations the second |
| `Patterns.BlockIsStill` | src/index.ts:105-129 | a 2x2 block with every other cell dead is unchanged by any number of generations |
| `Patterns.BlinkerOscillates` | src/index.ts:105-129 | three cells in a row turn into three in a column and back: generation `n` shows the row for even `n` and the column for odd `n` |
| `Patterns.GliderFirstStep` | src/index.ts:105-129 | one generation after a glider there are still exactly five live cells |
| `Patterns.GliderPeriod` | src/index.ts:105-129 | four generations after a glider at (a, b), the same glider is shown at (a + 1, b + 1) |
| `Patterns.GliderGlides` | src/index.ts:105-129 | a glider on a board with room for a 5x5 square shows the glider moved by (1, 1) after four generations |
| `Patterns.GliderTravels` | src/index.ts:131-138 | after `4k` generations the glider has moved by (k, k), as long as the board has room for it all the way |

## Left out

- `draw` (src/index.ts:72-102) renders the board on a canvas. It changes no
  state of the model and is not modelled. The redraws at the end of `put`,
  `step` and `clear` are left out with it.
- `run` (src/index.ts:131-138) schedules `step` again after `intervalTime`
  milliseconds for as long as `running` holds. Timers are not modelled. The
  effect of `k` timer ticks is `Generation(g, k)`, which the `Patterns` lemmas
  are about.
- Game.LifeGame.ToggleRun: flips the flag only. The source also starts `run`
  when the flag becomes true, which belongs to the timer. The button label text
  is not modelled either.
- The DOM wiring is not modelled: event listener registration, `canvas`,
  `ctx`, the `oncontextmenu` override and the page set-up at
  src/index.ts:173-200. Mouse events become method calls with the button
  number and the pixel offsets as parameters.
- Game.LifeGame.Put: pixel offsets are natural numbers. The browser's
  `offsetX` and `offsetY` can be fractional, and `Math.floor` of a fraction
  is not modelled.
- Game.LifeGame.Put: requires the mapped cell to be on the board (`OnBoard`).
  The source writes `board[y][x]` without a guard. Below the board that write
  throws, and past the right edge it adds a stray property to the row. Neither
  effect is modelled; the model follows the code and leaves the case to the
  caller. MouseDown and MouseMove carry the same requirement when they paint.
- The source's board is an array of row arrays whose new cells start
  `undefined`. The model uses one two-dimensional array initialised to `false`.
  `undefined` and `false` are both falsy in every test the source makes, so the
  two agree. `Step` leaves a cell with any count other than 2 or 3 as
  allocated, like the source's `default: break`.
- Game.LifeGame.constructor: the canvas, the 2D context and the listeners it
  registers are not modelled; only the fields are.
