# Game of Life simulation engine, in Dafny

This project models the core of `gui_game_of_life`, a user program of a small
teaching operating system that runs Conway's Game of Life on a framebuffer.

- `life.dfy` (module `Life`) holds the pure rules. It defines the two cell
  states `Alive` and `Died` and the B3/S23 transition `Next`. It defines the
  neighbour count over the clamped (non-wrapping) row and column ranges, and
  proves it equal to a reference Moore count `MooreCount`. `NextGrid` gives
  the next generation of a whole board. `SeedGrid` fills the initial board
  from random draws.
- `engine.dfy` (module `Engine`) is the `GameOfLife` object. It is a class with
  two `array2<State>` buffers, `board` and `temp`. Its constructor seeds
  `board`. `Update` runs the program's nested loops: it fills `temp` from the
  untouched `board`, then copies `temp` back cell by cell. Its postcondition
  is `Board() == NextGrid(old(Board()))`.
- `frames.dfy` (module `Frames`) is the frame loop of `main`. It models the key
  dispatch and the `stop` flag, and advances the game only when not paused.
  `Run` is the specification of the loop over a finite sequence of polled keys.
  `MainLoop` is the imperative loop, proved against `Run`.
- `render.dfy` (module `Render`) gives the pixel geometry of `draw`: where each
  cell's square lies and which pixels the border loops paint.
- `patterns.dfy` (module `Patterns`) checks known patterns against the model:
  a full 3 x 3 square, the block (still life) and the blinker (period 2).

The random generator is replaced by a given sequence of `u32` draws. Cell
(i, j) takes draw number `i * width + j`, which is the order the seeding loops
consume them in. A key press is an `Option<u8>` per iteration, with `None`
meaning no key was pending.

The seeding test is `draw % 100 <= rate`, so even at rate 0 a cell is Alive
when its draw is a multiple of 100 (`Life.ZeroRateNotAllDead`).

## Model

| member | source | states |
|---|---|---|
| `Life.Next` | user/src/bin/gui_game_of_life.rs:70-74 | the next state is Alive exactly when there are 3 live neighbours, or the cell is Alive with 2; every other combination gives Died |
| `Life.RangeStart` | user/src/bin/gui_game_of_life.rs:49 | the first row (or column) of the clamped range is i - 1, or i itself only when i is 0 |
| `Life.RangeEnd` | user/src/bin/gui_game_of_life.rs:50-54 | the last row (or column) of the clamped range is i + 1, or i itself only on the last index; it never leaves the board |
| `Life.RowLive` | user/src/bin/gui_game_of_life.rs:63-67 | the live count of one row's column range is at most the number of columns it visits |
| `Life.BlockLiveBound` | user/src/bin/gui_game_of_life.rs:62-68 | `BlockLive`, the sum the double counting loop accumulates row by row, is at most the number of cells of the row and column ranges |
| `Life.MooreCount` | user/src/bin/gui_game_of_life.rs:62-68 | the reference count of the eight Moore offsets, with off-board cells empty, is at most 8 |
| `Life.ClampedRowIsMoore` | user/src/bin/gui_game_of_life.rs:63-67 | one row of the clamped range counts that row's three Moore columns, skipping the centre only in the centre row |
| `Life.ClampedCountIsMoore` | user/src/bin/gui_game_of_life.rs:49-68 | the clamped double loop counts exactly the Moore neighbourhood: each neighbour once, the centre excluded, no wrap-around, also on boards of height or width 1 |
| `Life.LiveCount` | user/src/bin/gui_game_of_life.rs:46-68 | the program's neighbour count equals the reference Moore count and is at most 8 |
| `Life.NextGrid` | user/src/bin/gui_game_of_life.rs:44-76 | the next generation keeps the board's shape and gives every cell the rule applied to its old state and its old Moore count |
| `Life.Generations` | user/src/bin/gui_game_of_life.rs:161-163 | repeated updates keep the board's height and width |
| `Life.BoundaryCounts` | user/src/bin/gui_game_of_life.rs:49-68 | a corner cell has at most 3 live neighbours, an edge cell at most 5 |
| `Life.SingleCellDies` | user/src/bin/gui_game_of_life.rs:49-74 | on a 1 x 1 board one generation always gives Died |
| `Life.NextIsLocal` | user/src/bin/gui_game_of_life.rs:62-74 | a cell's next state depends only on the old board in its 3 x 3 neighbourhood |
| `Life.Seed` | user/src/bin/gui_game_of_life.rs:31-35 | a fresh cell is Alive exactly when its draw modulo 100 is at most the rate |
| `Life.DrawIndex` | user/src/bin/gui_game_of_life.rs:29-31 | the row-major position of a cell's draw lies inside the first height * width draws |
| `Life.SeedGrid` | user/src/bin/gui_game_of_life.rs:27-37 | the initial board has height rows of width cells, each Alive exactly when its own draw modulo 100 is at most the rate |
| `Life.FullRateAllAlive` | user/src/bin/gui_game_of_life.rs:26-36 | with rate 100 every cell of the initial board is Alive, whatever the draws |
| `Life.ZeroRateNotAllDead` | user/src/bin/gui_game_of_life.rs:31 | with rate 0, any cell of any board whose draw is a multiple of 100 is seeded Alive |
| `Engine.GameOfLife.constructor` | user/src/bin/gui_game_of_life.rs:25-42 | requires rate <= 100 (the assert); builds two distinct height x width buffers, `board` seeded as `SeedGrid` says and `temp` all Died |
| `Engine.GameOfLife.CountRow` | user/src/bin/gui_game_of_life.rs:63-67 | the inner counting loop returns the live cells of one row's column range, the centre skipped |
| `Engine.GameOfLife.CountBlock` | user/src/bin/gui_game_of_life.rs:62-68 | the double counting loop returns the live cells of the row and column ranges, the centre skipped |
| `Engine.GameOfLife.CountLive` | user/src/bin/gui_game_of_life.rs:46-68 | the clamped ranges and counting loops of one cell return its Moore count on the committed board |
| `Engine.GameOfLife.ComputeRow` | user/src/bin/gui_game_of_life.rs:45-75 | one pass of the inner loop writes the rule's result for every cell of row i into `temp`, reading only `board`, and leaves the other rows of `temp` alone |
| `Engine.GameOfLife.ComputeNext` | user/src/bin/gui_game_of_life.rs:44-76 | the first pair of loops writes into `temp` the rule applied to the committed board at every cell, and only `temp` is written |
| `Engine.GameOfLife.CopyBack` | user/src/bin/gui_game_of_life.rs:77-81 | the second pair of loops makes `board` equal to `temp` cell by cell, and only `board` is written |
| `Engine.GameOfLife.Update` | user/src/bin/gui_game_of_life.rs:43-82 | after one update `board` is `NextGrid` of the old board; both buffers keep their identity and shape, and `temp` equals `board` |
| `Frames.Dispatch` | user/src/bin/gui_game_of_life.rs:152-159 | space flips `stop`; `q`, LF and CR leave with exit code 0; any other key, or none, leaves `stop` as it was |
| `Frames.Run` | user/src/bin/gui_game_of_life.rs:150-168 | the loop keeps the board's shape and can only leave with exit code 0 |
| `Frames.MainLoop` | user/src/bin/gui_game_of_life.rs:148-168 | the loop, started unpaused, ends with the exit code and the board that `Run` gives for the same keys |
| `Frames.Setting` | user/src/bin/gui_game_of_life.rs:132-143 | an argument that parsed is used, a missing or unparsable one falls back to its default |
| `Frames.Launch` | user/src/bin/gui_game_of_life.rs:131-168 | requires the effective rate to be at most 100; the program's exit code is the one `Run` gives on the seeded board, so it is 0 or the keys ran out |
| `Frames.DoubleSpace` | user/src/bin/gui_game_of_life.rs:152-163 | two space presses in a row restore `stop`, and exactly one of the two iterations advances the board |
| `Frames.PausedHolds` | user/src/bin/gui_game_of_life.rs:152-163 | while paused, keys other than space and the quit keys change neither the board nor `stop` |
| `Frames.RunningAdvances` | user/src/bin/gui_game_of_life.rs:150-168 | while running, n iterations without a key advance the board exactly n generations |
| `Frames.QuitStops` | user/src/bin/gui_game_of_life.rs:156 | a quit key ends the loop at once with exit code 0, before any update of that iteration |
| `Render.CellOrigin` | user/src/bin/gui_game_of_life.rs:86-87 | cell (i, j) is drawn from a pixel whose coordinates are multiples of 4, at column j * 4 and row i * 4 |
| `Render.CellAt` | user/src/bin/gui_game_of_life.rs:84-98 | the inverse of the cell mapping: every pixel of non-negative coordinates lies in the square drawn for the cell it maps to |
| `Render.CellSquaresDisjoint` | user/src/bin/gui_game_of_life.rs:84-98 | a pixel of cell (i, j)'s square maps back to (i, j), so the squares of different cells never overlap |
| `Render.CellsInsideBox` | user/src/bin/gui_game_of_life.rs:84-98 | the cells of a height x width board are drawn inside the box of width * 4 by height * 4 pixels |
| `Render.BorderAsWritten` | user/src/bin/gui_game_of_life.rs:100-117 | the border loops as written paint only pixels with x >= 0 and 0 <= y <= height * 4, and paint the top line for x < height * 4 |
| `Render.Border` | user/src/bin/gui_game_of_life.rs:100-117 | the border loops with the first one running over the width paint only outline pixels, and paint the whole top line for x < width * 4 |
| `Render.BorderAsWrittenMissesTopEdge` | user/src/bin/gui_game_of_life.rs:100-108 | as written, on the default 150 x 200 board the outline pixel (600, 0) is never painted |
| `Render.BorderAsWrittenOverrunsTopEdge` | user/src/bin/gui_game_of_life.rs:100-108 | as written, on a board of 2 rows and 1 column the pixel (5, 0) outside the outline is painted |
| `Render.BorderAsWrittenSquare` | user/src/bin/gui_game_of_life.rs:100-117 | the border as written and the corrected border paint the same pixels if and only if the board is square |
| `Render.BorderIsOutline` | user/src/bin/gui_game_of_life.rs:100-117 | with the first border loop running over the width, the border is the outline of the board's box except its far corner |
| `Patterns.FullSquare` | user/src/bin/gui_game_of_life.rs:44-81 | a full 3 x 3 board keeps its corners Alive and kills the other five cells |
| `Patterns.BlockIsStill` | user/src/bin/gui_game_of_life.rs:44-81 | a 2 x 2 block away from the edges is unchanged by one generation |
| `Patterns.BlinkerOscillates` | user/src/bin/gui_game_of_life.rs:44-81 | a blinker turns from horizontal to vertical and back, so it has period 2 |

## Left out

- Display calls (`Display::new`, `clear`, `flush`) and the `Rectangle` and `Pixel` drawing calls are not modelled. Only the pixels they cover are, in `Render`. Drawing does not change the game.
- `sleep` and the frame pacing are not modelled. The clock read by `get_time` only seeds the generator, so it is not modelled either.
- `oorandom::Rand32` is replaced by a given sequence of draws, at least one per cell.
- `key_pressed` and `getchar` are replaced by one `Option<u8>` per iteration.
- `Frames.MainLoop`: the program's `loop` never ends without a quit key. The model runs over a finite sequence of keys and returns `None` when they run out.
- `Frames.Launch`: the `assert!` on the rate panics in the program. Here it is a precondition.
- `Frames.Setting`: `str::parse` is library code. Its result comes in as an `Option`.
- The board is a `Vec<Vec<State>>` in the program and an `array2` here. The program only ever builds rectangular boards, so nothing is lost.
- Indices and counters are unbounded integers. `usize` overflow cannot occur for boards that fit in memory.
- Pixel coordinates are computed in `i32` in the program and are unbounded here. Overflow would need a board wider than 500 million cells.
- `user/src/bin/test_allocate.rs` only allocates and prints a zero-filled vector from its arguments. It is not part of this model.

## Findings

| source | as written | input that shows it | evidently intended | confidence | as-written member | corrected member |
|---|---|---|---|---|---|---|
| user/src/bin/gui_game_of_life.rs:100-108 | the loop painting the top and bottom border lines runs x over `board.len() * PIXEL_SIZE`, which is the height in pixels | default board, 150 rows x 200 columns: the top line stops at x = 600 instead of 800; with 2 rows x 1 column it runs to x = 7, past the right edge at x = 4 | run x over `board[0].len() * PIXEL_SIZE`, the width in pixels, as the second loop does for the right edge | high; not executed | `Render.BorderAsWrittenMissesTopEdge` | `Render.BorderIsOutline` |
