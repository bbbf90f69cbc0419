# Game of Life simulation core, modelled in Dafny

This project models the simulation core of a Conway's Game of Life program
written in Rust: the `Board` (a fixed grid of booleans with `new`, `random`,
`from_bmp`, `get` and `set`) and the `GameOfLife` engine that owns a board, a
generation counter and the `paused`/`finished` flags, and advances the board
one generation at a time with the B3/S23 rule.

- `boards.dfy` (module `Boards`, `src/board.rs`): the class `Board` with the
  storage `data: seq<seq<bool>>`, built like the source as `height` rows of
  `width` cells and indexed `data[x][y]`. `src/game.rs:120-205` holds a second
  `Board` with the same method bodies; this one class models both.
- `life_rules.dfy` (module `LifeRules`, `src/game.rs`): what one generation
  computes, as functions. `Rule` is the per-cell branch of `update`. `Wrap` is
  the neighbour index. `CountFrom` and `LiveNeighbours` are `count_neighbours`.
  `Step` is the whole next board. The lemmas about them are here too.
- `game.dfy` (module `Game`, `src/game.rs`): the class `GameOfLife`. `Update`
  and `CountNeighbours` are loops proved against `Step` and `LiveNeighbours`.
  The flag methods and `Reset` state every field they change and every field
  they keep.

The model keeps two quirks of the code as written:

1. Storage is `height` rows of `width` cells, but it is indexed `[x][y]` with
   `x < width` and `y < height`. Every in-range coordinate is a valid index only
   when the board is square or has no cells. `FitsStorage(width, height)`
   (`width == height || width == 0 || height == 0`) is exactly that condition,
   and `IndexableIffFits` proves it. `Update` requires it, because it reads
   every cell `x < width, y < height`. `Board.Random`, `Board.FromBitmap` and
   `GameOfLife.Reset` write only the cells that become live, so they require
   only that each of those cells lies inside the storage (`LiveCellsFit`); a
   non-square board whose live cells all fit is built without a panic.
2. The neighbour index is `((x + dx) as u32) % width`. The sum is reduced
   modulo 2^32 first and only then modulo `width`. So `-1` becomes
   `(2^32 - 1) % width`, which is `width - 1` exactly when `width` divides 2^32
   (`WrapMinusOneIffDivides`). The board is a true torus for every offset when
   the width is a power of two. For other widths it is a true torus everywhere
   except to the left of column 0 and above row 0 (`NeighbourIndexIsTorus`). On
   a 3 x 3 board, a lone live cell in the corner counts itself three times and
   survives (`LoneCornerCellOnWidthThree`). A true torus would reduce with a
   signed modulo before the cast.

The read-only accessors are plain reads. `get_width` and `get_height` are the
fields `width` and `height`. `get` is `Board.Get`. `get_board`, `is_paused`,
`get_genereation` and `is_finished` are the functions `GameOfLife.GetBoard`,
`IsPaused`, `GetGeneration` and `IsFinished`, and the contracts of the flag
methods are written with them.

## Model

| member | source | states |
|---|---|---|
| `Boards.IndexableIffFits` | src/board.rs:85-91 | with storage of `height` rows of `width` cells (line 15), every `x < width, y < height` is a valid `data[x][y]` if and only if the board is square or has no cells |
| `Boards.FillCells` | src/board.rs:24-39 | the nested fill loop of `random` and `from_bmp`, which writes only the cells that become live: the result has the storage shape, a stored cell is live exactly when it is in range and the per-cell condition holds there, and on a square board every in-range cell equals the condition |
| `Boards.Board.constructor` | src/board.rs:14-21 | `new(w, h, d)`: the stored width and height are `w` and `h`, the storage has their shape, and every cell reads `d` |
| `Boards.Board.Random` | src/board.rs:23-46 | `random`: the requested width and height; it only needs the cells drawn live to lie inside the storage; a stored cell is live exactly when it is in range and its own draw says so |
| `Boards.Board.FromBitmap` | src/board.rs:48-75 | `from_bmp`: the bitmap's width and height; it only needs the black pixels to lie inside the storage; a stored cell `(x, y)` is live exactly when it is in range and pixel `(x, y)` has `r == g == b == 0`, and every other cell is dead |
| `Boards.Board.Get` | src/board.rs:85-87 | `get(x, y)` is the stored cell `data[x][y]`, defined when that index is inside the storage |
| `Boards.Board.Set` | src/board.rs:89-91 | after `set(x, y, v)`, `get(x, y) == v`; no other cell changes; width, height and storage shape stay the same |
| `LifeRules.Rule` | src/game.rs:43-53 | the per-cell branch is the B3/S23 rule: live next exactly when the count is 3, or when the cell is live and the count is 2 |
| `LifeRules.Wrap` | src/game.rs:71-72 | the neighbour index `((v) as u32) % n` is always below `n` |
| `LifeRules.CountFrom` | src/game.rs:69-77 | the loop over the first `k` directions counts at most `k` live neighbours |
| `LifeRules.LiveNeighbours` | src/game.rs:63-79 | `count_neighbours` returns a value between 0 and 8 |
| `LifeRules.Step` | src/game.rs:30-61 | the next board has the same width, height and storage shape as the old one |
| `LifeRules.StepIsLocal` | src/game.rs:40-41 | a new cell depends only on the old cell and its eight old neighbours: two boards that agree there agree on the new cell |
| `LifeRules.CountFromAgree` | src/game.rs:69-77 | the count depends only on the neighbours it looks up |
| `LifeRules.WrapOfNonNegative` | src/game.rs:71-72 | for `0 <= v < 2^32` the index is `v % n`; in particular `x = width - 1, dx = 1` gives column 0 (right and bottom edges wrap) |
| `LifeRules.WrapMinusOneIffDivides` | src/game.rs:71-72 | `x = 0, dx = -1` gives `width - 1` if and only if `width` divides 2^32 |
| `LifeRules.WrapMinusOneOnWidthThree` | src/game.rs:71-72 | on width 3 (which does not divide 2^32) the left neighbour of column 0 is column 0 |
| `LifeRules.NeighbourIndexIsTorus` | src/game.rs:71-72 | the index equals the torus index `(x + dx) mod width` when `x > 0`, when `dx >= 0`, or when `width` divides 2^32 |
| `LifeRules.CountOnDeadBoard` | src/game.rs:63-79 | on a board with no live cell every neighbour count is 0 |
| `LifeRules.StepOfDeadBoard` | src/game.rs:30-61 | a board with no live cell stays without live cells: no cell is born with 0 neighbours |
| `LifeRules.LoneCornerCellOnWidthThree` | src/game.rs:63-79 | on a 3 x 3 board a lone live cell at `(0, 0)` counts 3 live neighbours (itself, three times) and survives the next generation |
| `Game.GameOfLife.constructor` | src/game.rs:21-28 | `new` keeps the given board and starts at generation 0, not paused, not finished |
| `Game.GameOfLife.Update` | src/game.rs:30-61 | the new board is `Step` of the old board: each new cell is the rule applied to the old cell and its count on the old board, never on the board being filled. The board is freshly allocated with the same width and height, `generation` grows by exactly 1, and `paused`/`finished` are unchanged and not checked |
| `Game.GameOfLife.CountNeighbours` | src/game.rs:63-79 | the loop over `DIRECTIONS` returns `LiveNeighbours` of the current board, at most 8 |
| `Game.GameOfLife.Reset` | src/game.rs:82-85 | a fresh random board of the same width and height whose stored cells are live exactly where in range and drawn live, generation 0, flags unchanged |
| `Game.GameOfLife.GetBoard` | src/game.rs:87-89 | `get_board` returns the board the game currently holds |
| `Game.GameOfLife.IsPaused` | src/game.rs:91-93 | `is_paused` returns the `paused` flag |
| `Game.GameOfLife.GetGeneration` | src/game.rs:107-109 | `get_genereation` returns the generation counter |
| `Game.GameOfLife.IsFinished` | src/game.rs:115-117 | `is_finished` returns the `finished` flag |
| `Game.GameOfLife.Pause` | src/game.rs:95-97 | sets `paused`; board, generation and `finished` unchanged |
| `Game.GameOfLife.Unpause` | src/game.rs:99-101 | clears `paused`; board, generation and `finished` unchanged |
| `Game.GameOfLife.TogglePause` | src/game.rs:103-105 | negates `paused`; board, generation and `finished` unchanged |
| `Game.GameOfLife.Finish` | src/game.rs:111-113 | sets `finished`; board, generation and `paused` unchanged |
| `Game.ToggleTwice` | src/game.rs:103-105 | toggling the pause twice restores `paused` and leaves everything else as it was |

## Left out

- Window, drawing, text, event handling and frame timing (`src/main.rs`, `src/engine.rs`): presentation and I/O around the core.
- Randomness in `Board::random`: the thread RNG and the `f64` comparison against `prob` are foreign code and floating point. `Board.Random` and `GameOfLife.Reset` take instead a parameter `draw(i, j)`, the outcome of that comparison for cell `(i, j)`. The probability 0.5 used by `reset` is therefore not visible.
- `bmp::open` and file loading in `from_bmp`: foreign I/O. `Board.FromBitmap` takes an already decoded `Bitmap` (dimensions and a pixel function), and the `expect` on a failed load is not modelled.
- src/main.rs:88 and src/engine.rs:61,109 call `get_analyzed_cell_count` and `Cell::is_alive`, which src/game.rs does not define; there is no active-cell frontier to model.
- `generation` is a `nat`: the `u32` overflow of `generation += 1` after 2^32 - 1 generations is not modelled.
- `Game.GameOfLife.Update`: requires width and height of at most `i32::MAX`. Larger boards truncate in `i as i32` and `width as u32`, and `x + 1` could overflow `i32`; those cases are not modelled.
- `Game.GameOfLife.CountNeighbours`: requires a square board with cells, which is how `update` calls it. On a non-square board some single calls would stay inside the storage, and the model does not cover them.
- `Game.GameOfLife.constructor`: the board is shared by reference, not moved into the game as in the source. Moving also means that no caller keeps a handle to it afterwards, and the model does not capture that.
- `Game.GameOfLife.GetBoard`: returns the game's `Board` object itself, through which a caller could call `Set`; the source returns a read-only borrow `&Board`. The model does not capture that the caller cannot change the board.
- Still-life and oscillator examples (a block, a blinker) are not stated as lemmas. Only the empty board is proved to be a fixed point.
