# Sudoku backtracking solver, modelled in Dafny

This project models the solving engine of a small Sudoku web service. A
9x9 grid holds 0 for an empty cell and a digit for a filled one. The engine
has three parts:

- the **cell scanner** (`find_empty`) returns the first empty cell in
  row-major order;
- the **placement validator** (`is_valid`) decides whether a digit may go at a
  cell, that is, whether no other cell of its row, column or 3x3 box holds it;
- the **solver** (`solve`) runs a depth-first backtracking search. It fills
  the board in place, tries digits 1..9 in ascending order, and resets a cell
  to 0 when a branch fails.

The project also models the input check (`validate_board`) and the handler's
validate / copy / solve decision.

Files:

- `grid.dfy` (module `Grid`) holds the grid as a value (`seq<seq<int>>`, 9x9)
  and as a board (`array2<int>`, read back by `Rows`), the peer relation
  (same row, same column or same box, and not the cell itself), and the set
  of empty cells, which is the termination measure.
- `scanner.dfy` (module `Scanner`) holds `FirstEmpty`, the scan as a
  function, and `FindEmpty`, the nested loops over the board, proved equal
  to it.
- `validator.dfy` (module `Validator`) holds `CanPlace` ("no peer holds the
  digit") and `IsValid`, the row, column and box loops, proved equal to it.
- `solver.dfy` (module `Solver`) holds `Search`/`TryDigits`, the search as
  functions with the source's exact order, and `Solve`, the recursive
  place/undo method on the board, proved to produce what `Search` produces.
  It also holds `Completion` and the soundness and completeness lemmas.
- `properties.dfy` (module `Properties`) covers full boards, consistent
  givens, and "each digit exactly once per row, column and box".
- `request.dfy` (module `Request`) holds `ValidateBoard` and `SolveRequest`.
- `scenarios.dfy` (module `Scenarios`) works one concrete puzzle: a solved
  grid with one cell emptied.

A *completion* of a grid `g` is a grid `h` with these properties. It keeps
every non-zero cell of `g`. Every cell that is empty in `g` holds a digit
1..9 in `h`, and no peer of that cell holds the same digit in `h`. The givens
are not checked against each other, because `solve` does not check them
either. `Solve` returns true exactly when a completion exists. On true the
board is a completion. On false the board is exactly what it was on entry.

## Model

| member | source | states |
|---|---|---|
| Scanner.ScanFrom | sudoku-solver/app.py:7-11 | the scan resumed at (i, j) returns the first zero cell at or after (i, j) in row-major order, every cell between holding non-zero; None exactly when no cell from (i, j) on is zero |
| Scanner.FirstEmpty | sudoku-solver/app.py:5-11 | returns a zero cell before which, in row-major order, every cell is non-zero; None if and only if no cell holds 0 |
| Scanner.FindEmpty | sudoku-solver/app.py:5-11 | the nested loops with early return compute exactly FirstEmpty of the board, reading it only |
| Validator.IsValid | sudoku-solver/app.py:13-32 | returns true iff no cell other than pos = (r, c) in row r, column c or the 3x3 box of rows 3*(r/3)..3*(r/3)+2 and columns 3*(c/3)..3*(c/3)+2 holds num; only reads the board |
| Grid.FillShrinks | sudoku-solver/app.py:36-44 | writing a non-zero digit into an empty cell removes exactly that cell from the empty cells, so their count, the measure `Solve` decreases on each recursive call, drops by one |
| Solver.Solve | sudoku-solver/app.py:34-48 | terminates (decreasing number of empty cells); returns true iff the board on entry has a completion; on true the board is the search's result, a completion: no 0 remains, every filled cell holds 1..9 and conflicts with no peer, givens are unchanged; on false the board equals its entry state |
| Solver.CompletionBeforePlace | sudoku-solver/app.py:41-45 | a digit accepted by is_valid at an empty cell, followed by a completion of the rest, completes the grid: the new digit conflicts neither with givens nor with later placements |
| Solver.CompletionDigitFits | sudoku-solver/app.py:41-42 | the digit a completion puts in an empty cell passes is_valid against the current grid, so the loop over 1..9 reaches a branch that can succeed |
| Solver.SearchSound | sudoku-solver/app.py:36-45 | whatever the search returns on success is a completion of its input |
| Solver.TryDigitsSound | sudoku-solver/app.py:41-48 | a success from the digit loop at an empty cell, from any digit on, is a completion of the grid |
| Solver.PlacedSound | sudoku-solver/app.py:42-45 | when the recursive call after placing num succeeds, the digit loop returns that result and it completes the grid |
| Solver.SearchComplete | sudoku-solver/app.py:36-48 | if any completion exists the search does not return failure |
| Solver.TryDigitsComplete | sudoku-solver/app.py:41-48 | if a completion puts digit d at the empty cell, the digit loop started at any num <= d succeeds |
| Solver.Search | sudoku-solver/app.py:34-48 | no contract of its own: the functional form of `solve`, first empty cell in row-major order, then TryDigits from 1; `Solve` is proved to compute it, and SearchSound, SearchComplete and SearchDecides state what it computes |
| Solver.TryDigits | sudoku-solver/app.py:41-48 | no contract of its own: the `for num in range(1, 10)` loop, digits in ascending order, each accepted digit placed and searched on, the next digit tried when that fails; its meaning is stated by TryDigitsSound and TryDigitsComplete |
| Solver.SearchDecides | sudoku-solver/app.py:34-48 | the search succeeds if and only if a completion exists, and then returns one |
| Properties.FullBoardAccepted | sudoku-solver/app.py:36-38 | a board without empty cells is returned at once and unchanged, whatever its digits, even conflicting ones, and counts as solvable |
| Properties.ConsistentCompletionSolved | sudoku-solver/app.py:13-45 | when the givens are digits that do not conflict with each other, every completion (so every board solve returns) is a fully valid Sudoku |
| Properties.SolvedRow | sudoku-solver/app.py:16-18 | in a fully valid grid each row holds each digit 1..9 exactly once |
| Properties.SolvedColumn | sudoku-solver/app.py:21-23 | in a fully valid grid each column holds each digit 1..9 exactly once |
| Properties.SolvedBox | sudoku-solver/app.py:26-30 | in a fully valid grid each 3x3 box holds each digit 1..9 exactly once |
| Properties.BoxCell | sudoku-solver/app.py:26-28 | the k-th cell of box b lies on the board in box row b/3 and box column b%3, the range the box loops scan |
| Request.ValidateBoard | sudoku-solver/app.py:50-60 | returns true iff there are exactly 9 rows, each of exactly 9 cells, each cell in 0..9 |
| Request.SolveRequest | sudoku-solver/app.py:72-81 | an invalid board is rejected; otherwise a fresh copy is solved, the caller's grid is untouched, and the reply is a solved board iff a completion exists, that board being the search's result and a completion, fully valid when the givens are consistent; so "No solution exists" is replied exactly for well-formed grids without a completion |
| Scenarios.OneHoleSolvable | sudoku-solver/app.py:34-48 | a real puzzle, a solved grid with its centre cell emptied, has a completion, so `solve` returns True on it |
| Scenarios.OneHoleUnique | sudoku-solver/app.py:13-32 | that puzzle's only completion is the solved grid: the hole can only take 9, the digit its row leaves free |
| Scenarios.OneHoleAnswer | sudoku-solver/app.py:34-48 | the board `solve` returns on that puzzle is the solved grid |

## Left out

- The Flask application, the `/` route, template rendering, `request.get_json`,
  `jsonify`, the HTTP status codes and the catch-all exception handler
  (sudoku-solver/app.py:1-3, 62-69, 73, 79-87) are web plumbing around the
  engine. `SolveRequest` keeps only the validate / copy / solve decision as a
  three-way `Reply`.
- The `isinstance` checks of `validate_board` are not modelled. The board is
  typed `seq<seq<int>>`, so "not a list" and "not an int" cannot occur.
- `Solve` requires a 9x9 board, the only shape its callers pass (the handler
  validates first). Values outside 0..9 are allowed, as in the source.
- Python's recursion limit and running time are not modelled. The recursion
  depth is at most 81.
- One might expect duplicate givens to be rejected. The code does not check
  givens against each other: a full board with conflicting digits is
  returned as solved (`FullBoardAccepted`). The model follows the code.
- After a failure the code has reset every tentative placement, so `Solve`
  promises the board is exactly restored, and callers may rely on it.
