# Game of Life transition engine

A Dafny model of the state-transition engine of a Game of Life program written
in Rust. Each step computes the next state of every cell from the number of
live cells among its eight neighbours on a toroidal board: indices wrap at
every edge. The program's rule is not Conway's B3/S23. A cell becomes `Alive`
when exactly two or three of its neighbours are alive. Its own state is never
consulted, so a dead cell with two live neighbours also comes to life. The
model keeps this rule and compares it with Conway's rule in a lemma.

Modules:

- `Rule` (`rule.dfy`): the cell `Status`, the eight-entry `Surroundings`, the
  live count and `AliveOrDead`.
- `Torus` (`torus.dfy`): the wrapped previous and next index on a ring of `n`
  positions.
- `Board` (`board.dfy`): a board is an `array2<Status>`. `Neighbours` gathers
  the eight wrapped neighbours in the program's order, `UpdateStatus` applies
  the rule to one cell, and the method `UpdateBoard` fills a freshly allocated
  board cell by cell in nested loops.
- `Scenarios` (`scenarios.dfy`): the 5 x 5 "block" board of the test suite and
  the cells the tests check.

The program fixes the board at 60 x 60 (`NO_ROWS`, `NO_COLS`). The model takes
the row and column counts to be the array's dimensions, so the same code covers
the 60 x 60 board and the 5 x 5 test boards. The source's `usize` index
arithmetic never leaves the range `0 .. n-1` (it subtracts only from a positive
index and adds only below the last one), so unbounded `nat`s model it exactly.
The source's tests pass 5 x 5 arrays to `update_status` and `update_board`,
whose parameter type is the 60 x 60 `Board`, so as written they do not
compile; the `Scenarios` module states what those tests intend once the board
size is a parameter.

## Model

| member | source | states |
|---|---|---|
| Rule.CountAlive | src/main.rs:56 | the number of live entries counted by the filter never exceeds the number of entries |
| Rule.CountAliveIsMultiplicity | src/main.rs:56 | the filtered count equals the multiplicity of `Alive` in the input, so it depends only on which states occur how often |
| Rule.AliveOrDead | src/main.rs:54-63 | the rule itself (count the live inputs; `Alive` for a count of 2 or 3, otherwise `Dead`); it has no contract of its own, and `AliveOrDeadRule` states its behaviour |
| Rule.AliveOrDeadRule | src/main.rs:54-63 | the rule gives `Alive` exactly when 2 or 3 of the eight inputs are alive, and `Dead` exactly when 0, 1, 4, 5, 6, 7 or 8 are |
| Rule.AliveOrDeadIgnoresOrder | src/main.rs:56-61 | any two inputs that are permutations of each other (equal multisets) give the same result |
| Rule.AliveOrDeadSwap | src/main.rs:56-61 | exchanging any two of the eight inputs leaves the result unchanged |
| Rule.AllDeadSurroundings | src/main.rs:58-60 | eight dead inputs give `Dead` |
| Rule.AliveOrDeadVersusConway | src/main.rs:54-63 | the rule differs from Conway's B3/S23 rule exactly for a dead cell with two live neighbours, where it answers `Alive` |
| Torus.WrapPrev | src/main.rs:69 | the index left of (above) `i` is in range and equals `(i - 1) mod n`; left of 0 is `n - 1` |
| Torus.WrapNext | src/main.rs:70 | the index right of (below) `i` is in range and equals `(i + 1) mod n`; right of `n - 1` is 0 |
| Torus.WrapInverse | src/main.rs:69-72 | stepping back then forward, or forward then back, returns to the start index |
| Torus.WrapMoves | src/main.rs:69-72 | on a ring of two or more positions neither wrapped neighbour is the index itself |
| Torus.WrapSingleton | src/main.rs:69-72 | on a ring of one position both wrapped neighbours are the index itself |
| Board.Shift | src/main.rs:69-72 | moving by -1, 0 or +1 with wraparound stays in range and equals `(i + d) mod n` |
| Board.Neighbours | src/main.rs:69-83 | entry k of the eight surroundings is the cell at `((row + dr_k) mod rows, (col + dc_k) mod cols)`, for the offsets above-left, above, above-right, left, right, below-left, below, below-right in that order |
| Board.UpdateStatus | src/main.rs:67-85 | the next status of one cell: the rule applied to its eight wrapped neighbours; it has no contract of its own, and `UpdateStatusRule` and `UpdateStatusReadsOnlyNeighbours` state its behaviour |
| Board.UpdateStatusRule | src/main.rs:67-85 | a cell becomes `Alive` exactly when two or three of its eight wrapped neighbour positions hold a live cell |
| Board.LivePositionsCount | src/main.rs:56-83 | the number of live neighbour positions equals the live count of the surroundings handed to the rule |
| Board.LivePrefixCount | src/main.rs:56 | counting live entries by index positions agrees with the multiset count, for every prefix |
| Board.UpdateStatusReadsOnlyNeighbours | src/main.rs:74-83 | two boards of the same size that agree on the eight neighbour cells give the same next status |
| Board.UpdateStatusIgnoresCentre | src/main.rs:74-83 | on boards of at least 2 x 2, changing only the cell itself never changes its next status |
| Board.OneColumnReadsCentre | src/main.rs:69-79 | on a board one column wide, the left and right neighbours are the cell itself |
| Board.IsolatedCellDies | src/main.rs:58-83 | a cell whose eight wrapped neighbours are all dead becomes `Dead` |
| Board.AllDeadBoardStaysDead | src/main.rs:88-100 | every cell of an all-dead board gets `Dead` |
| Board.UpdateBoard | src/main.rs:88-100 | returns a freshly allocated board of the same dimensions in which every cell is `UpdateStatus` of the input at that cell; the input is not modified |
| Scenarios.NotEnough | src/main.rs:190-207 | the eight cells around (4, 1) of the block board, listed by hand, give `Dead` |
| Scenarios.CheckAlive | src/main.rs:209-224 | on the block board cell (1, 0) becomes `Alive` through two block cells |
| Scenarios.CheckDead | src/main.rs:226-241 | on the block board cell (4, 4) stays `Dead` |
| Scenarios.BlockStep | src/main.rs:243-263 | after a step of the block board, (0, 1), (2, 2) and (2, 3) are `Alive` and (4, 2) is `Dead` |
| Scenarios.CheckBoardUpdate | src/main.rs:246-263 | building the block board and stepping it with `UpdateBoard` yields a 5 x 5 board with those four cells |

`UpdateBoard` fills the new board row by row. Its loop invariants say that the
visited cells hold their next status and the rest are still `Dead`. The new
array is fresh, so it is not the input board, and `UpdateStatus` reads only the
input. The result is therefore fixed cell by cell by the input alone, whatever
the filling order.

## Left out

- `random_status` and `random_board`: they draw from the `rand` crate's thread RNG. The model takes any board as input instead.
- `STATUS_RATIO`: it only feeds the random initialisation.
- `draw_board`, the window size and cell geometry constants: `f64` pixel arithmetic and `piston_window` drawing calls.
- `main`: the window event loop and the frame pacing (`FPS`) are I/O. Each tick calls `update_board` once, which `UpdateBoard` models.
- The fixed 60 x 60 size: the model uses the board array's own dimensions instead of `NO_ROWS` and `NO_COLS`.
- Board.UpdateStatusIgnoresCentre: requires at least two rows and two columns. On a board one row or one column wide the wrapped neighbour is the cell itself (`OneColumnReadsCentre`). The program's 60 x 60 board is never that narrow.
