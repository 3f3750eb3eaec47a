# Knight's tour search, modelled in Dafny

This project models `rust-knight-tour`. The program runs a naive backtracking
search for a knight's tour on an N×N board: a sequence of knight's moves from
a start square that visits every square exactly once. It has three parts:

- **The board** (`Chessboard.Board`): an N×N grid of visited flags. `New`
  builds it cleared, `Visit` sets one flag in place, and `Size` and `Visited`
  are queries. The derived `clone` is the constructor `Board.Clone`. The grid
  as a value (`Grid = seq<seq<bool>>`) and the functions `EmptyGrid` and
  `Mark` specify what the board holds.
- **Move generation** (`Moves`): `KnightMoves` lists the eight knight targets
  in the program's fixed order, ignoring the board's edges. `AllowedMoves`
  keeps, in that order, the targets that are on the board and not yet
  visited. The bounds tests come before the visited test (`Legal`), so the
  grid is only indexed in range. Dafny checks this when it checks that
  `Legal` is well formed.
- **The search** (`Tour`): `Run` is the recursive procedure. It tries every
  allowed move from the path's last square, each on its own clone of the
  board and its own extended copy of the path. It is proved to compute the
  function `Search`, which together with `TryCandidates` and `TryMove`
  states the search as recursion on values. `Solve` is `main` for any size
  and start square.

The program prints a found tour and exits with status 0, or prints
"No solutions" and exits with status 1 at the root. Here those side effects
are a returned `Outcome`:

- `Found(tour)`: a complete tour was found.
- `NoSolutions`: the root frame (one-square path) ran out of candidates.
- `Exhausted`: a deeper frame ran out of candidates and returns silently.

What is proved:

- **The state invariant.** `Consistent` says the path is a knight's path
  (distinct squares, all on the board, consecutive squares a knight's move
  apart) and the board's visited squares are exactly the path's squares. It
  holds at the start and after every step.
- **Termination.** The number of unvisited squares strictly decreases on
  every recursive call.
- **Outcome rules.** Success is declared only when the path holds
  `size*size` squares. The first success wins. Failure comes only after
  every candidate fails, and only the root declares it.
- **Soundness.** Every reported tour is a knight's tour of the whole board.
- **Completeness.** A failure verdict means that no tour extends the path.
  So `Solve` finds a tour from `start` exactly when one exists.

Facts about the code that shape the model:

- Candidates are tried in `knight_moves` order; there is no reordering.
- The completeness test is `path.len() >= size*size`. Under the invariant a
  path never exceeds size*size squares, so the test is met exactly at
  size*size (`PathFillsBoard`).
- Backtracking clones the board and the path for every candidate; nothing
  is undone after a failed candidate.
- From a corner of an empty board of any size ≥ 3, exactly two moves are
  open (`CornerMoves`).

## Model

| member | source | states |
|---|---|---|
| `Chessboard.EmptyGrid` | src/main.rs:9-13 | the grid `new` allocates is size×size, has no visited square, and leaves every square of the board open |
| `Chessboard.IsVisited` | src/main.rs:31-33 | the flag of an in-bounds square is set exactly when the square is in the grid's visited set |
| `Chessboard.Mark` | src/main.rs:14-16 | after visiting an in-bounds p: the size is unchanged, p is visited, every other square keeps its flag, the visited set grows by exactly p, and when p was open the count of open squares drops by one |
| `Chessboard.Board.New` | src/main.rs:9-13 | a new board of size n has `Size() == n` and no visited square |
| `Chessboard.Board.Clone` | src/main.rs:3-6 | the clone is a separate board holding the same cells |
| `Chessboard.Board.Visit` | src/main.rs:14-16 | in place: `Visited(p)` becomes true, every other in-bounds square keeps its flag, the size is unchanged, the visited set grows by exactly p |
| `Chessboard.Board.Size` | src/main.rs:28-30 | the number of rows is also the length of every row: the board is Size()×Size() |
| `Chessboard.Board.Visited` | src/main.rs:31-33 | for an in-bounds square, true exactly when the square is among the board's visited squares |
| `Moves.KnightMoves` | src/main.rs:62-73 | exactly 8 targets, pairwise distinct, each one knight's move from the origin, whatever the board |
| `Moves.KnightMovesComplete` | src/main.rs:62-73 | a square is in the list exactly when it is a knight's move away: no move is missing |
| `Moves.Legal` | src/main.rs:79-83 | a target passes the filter exactly when it is one of the board's unvisited squares; the bounds tests guard the visited lookup |
| `Moves.KeepLegal` | src/main.rs:76-85 | the result holds exactly the input's in-bounds, unvisited targets, in their original order (a subsequence of the input), and is no longer than the input |
| `Moves.KeepLegalCounts` | src/main.rs:76-85 | the filter keeps each legal target as many times as the input holds it and drops every other target |
| `Moves.KeepLegalNone` | src/main.rs:78-84 | a list with no legal target filters to the empty list |
| `Moves.AllowedMoves` | src/main.rs:75-86 | at most 8 moves, an order-preserving subsequence of `KnightMoves(from)`, holding exactly the knight's moves to in-bounds, unvisited squares |
| `Moves.CornerMoves` | src/main.rs:62-86 | on an empty board of size at least 3, the moves from (0, 0) are exactly [(1, 2), (2, 1)] in that order |
| `Moves.NoMovesWhenSurrounded` | src/main.rs:75-86 | when every on-board knight target is visited, no move is allowed |
| `Tour.GiveUp` | src/main.rs:56-59 | a frame that ran out of candidates never reports a tour, and reports NoSolutions exactly when its path is the one-square root path |
| `Tour.Search` | src/main.rs:43-60 | a found tour extends the path and holds at least size*size squares; any other outcome comes from an incomplete path and is that frame's own verdict (NoSolutions at the root, Exhausted elsewhere) |
| `Tour.TryCandidates` | src/main.rs:49-59 | the candidate loop returns either a tour that extends the path and fills the board, or the frame's give-up verdict after the last candidate |
| `Tour.TryMove` | src/main.rs:50-54 | one candidate searched from the unchanged board and path: a found tour extends the path plus that move; a child frame never reports NoSolutions |
| `Tour.Run` | src/main.rs:43-60 | the recursive procedure, which clones per candidate, returns exactly `Search` of its board and path; having no modifies clause, it leaves the caller's board unchanged, so every sibling starts from the same state |
| `Tour.Solve` | src/main.rs:36-41 | from a fresh board with the start visited, the outcome is Found or NoSolutions (never Exhausted); a found tour is a knight's tour starting at `start`; Found exactly when some tour from `start` exists |
| `Tour.StartConsistent` | src/main.rs:37-40 | the initial board (start visited) and the path [start] satisfy the search invariant |
| `Tour.PathExtend` | src/main.rs:52 | appending a fresh on-board knight's move keeps a knight's path a knight's path |
| `Tour.StepConsistent` | src/main.rs:49-54 | visiting an allowed move and appending it to the path keeps the invariant: distinct, in-bounds, knight-connected path whose squares are exactly the visited ones |
| `Tour.TryCandidatesFound` | src/main.rs:49-55 | a tour found by the loop comes from the first candidate whose search succeeds; every earlier candidate failed |
| `Tour.FirstSuccessWins` | src/main.rs:44-55 | if the search from an incomplete path succeeds, its tour is the one from the first allowed move (in `knight_moves` order) that succeeds |
| `Tour.FailureAfterExhaustion` | src/main.rs:49-59 | failure happens only for an incomplete path, after every allowed move has failed; it is NoSolutions exactly at the root and Exhausted exactly elsewhere |
| `Tour.PathFillsBoard` | src/main.rs:44 | a knight's path has at most size*size squares, and one of exactly that length covers the board, so the `>=` test is met only by equality |
| `Tour.TourCoversBoard` | src/main.rs:44-47 | a tour visits every square of the board, each once |
| `Tour.SearchSound` | src/main.rs:44-55 | from a consistent board and path, every found tour is a knight's tour of the whole board that begins with the path |
| `Tour.NextOfTour` | src/main.rs:49-52 | the square a tour takes next after the path is among the allowed moves |
| `Tour.SearchComplete` | src/main.rs:49-59 | from a consistent board and path, if any tour begins with the path, then the search finds a tour |

## Left out

- `Board::show_path` (src/main.rs:17-27) renders a found path as text on the console. It is output formatting, not search logic.
- `println!` and `std::process::exit` in `run` and `main` are replaced by the returned `Outcome`. Found stands for printing the tour and exiting with 0. NoSolutions stands for printing "No solutions" and exiting with 1. Exhausted stands for a silent return.
- `main` is modelled as `Solve(size, start)`, not only for the fixed 6×6 board from (0, 0). It requires `size > 0` and an in-bounds start, as `main` guarantees.
- `Chessboard.Point` uses unbounded integers. The i32 arithmetic of `knight_moves` could overflow only near the i32 limits, far from any board square. The `as usize` casts are applied only to squares that the bounds filter has already admitted.
- `Tour.Run`: `path.last().expect("empty path")` panics on an empty path. The model requires a non-empty path whenever the size*size test fails.
- Stack depth and allocation cost are not modelled. Cloning a board is modelled by value copying.
- No lemma states the absence of a tour on 3×3 boards or the existence of one on 6×6 boards. The program does not claim either.
