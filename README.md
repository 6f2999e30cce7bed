# Backtracking Sudoku solver, modelled and verified in Dafny

This project models `SudokuSolver` from `sudoko.py`. The solver fills a 9x9
board in place by depth-first search. It works in four steps:

- It takes the first empty cell (value 0) in row-major order (`find_empty_cell`).
- It tries the digits 1..9 in ascending order.
- It writes each digit that passes `is_valid_move` (the digit is not already
  in the row, the column or the 3x3 box) and recurses.
- When the recursion fails, it resets the cell to 0.

The model is split into three files:

- `board.dfy` (module `Board`) holds the board as a value (`Grid`, rows of
  cells). `Cells` reads a Dafny `array2<int>` into this form. The file also
  has the single-cell write `Place`, the count of empty cells that drives
  termination, and the consistency rule: no non-zero digit repeats among the
  cells that share a row, a column or a box. `Solved` means every cell holds
  a digit 1..9 and the board is consistent. The file proves that every row,
  column and box of a solved board holds each of 1..9 exactly once.
- `solver.dfy` (module `SudokuSolver`) holds the three operations.
  `find_empty_cell` and `is_valid_move` only read the board. They are
  methods with the source's nested loops and early returns. Each is proved
  equal to a specification, `FirstEmpty` or `CanPlace`. `solve_sudoku`
  becomes the method `SolveSudoku`. It changes an `array2<int>` in place
  (`modifies board`) and recurses with the number of empty cells as its
  termination measure. `SolveSudoku` is proved to behave exactly like the
  ghost function `Search`. `Search` is a functional reference definition of
  the same depth-first search, and `TryDigits` is its digit loop. The
  contracts of `Search` and `SolveSudoku`, and lemmas about `Search`, give
  the solver's guarantees:
  - Givens are kept, and a successful result has no empty cell.
  - A failed call leaves the board exactly as it was on entry.
  - From consistent givens in range, a successful result is a solution.
  - If any solution extends the input, the search succeeds.
- `literal_boards.dfy` (module `SolverExamples`) holds verified examples of
  `Search` on literal boards. The solved demo board with one cell emptied is
  completed with the right digit. A full board that repeats a given is
  returned as it is.

Two facts about `sudoko.py` that the model states:

- The solver never checks the givens against each other. Only a newly
  placed digit is checked against the board (`sudoko.py:57-66`). A board
  with contradictory givens can therefore make `solve_sudoku` return True.
  For example, a full board whose row 0 holds 5 twice has no empty cell, so
  `solve_sudoku` returns True once `find_empty_cell` has found no 0, without
  comparing any two cells (`is_valid_move` is never called)
  (`SolverExamples.DuplicateGivensAccepted`). The soundness lemmas therefore
  require the givens to be consistent.
- When `solve_sudoku` returns False, the board is exactly the board it was
  called with. Every write at line 22 is undone at line 26, and a failed
  recursive call has already undone its own writes. `SolveSudoku` states
  this in its postcondition.

## Model

| member | source | states |
|---|---|---|
| `SudokuSolver.FirstEmpty` | sudoko.py:39-43 | The result is `Some((r, c))` only for an in-bounds cell holding 0, where every cell before `(r, c)` in row-major order is non-zero. It is `None` exactly when the board has no 0 cell. |
| `SudokuSolver.FindEmptyCell` | sudoko.py:32-43 | The nested row and column scan with early return yields exactly `FirstEmpty` of the board. It only reads the board. |
| `SudokuSolver.IsValidMove` | sudoko.py:46-69 | The result is true iff `num` occurs nowhere in row `row`, nowhere in column `col`, and nowhere in the 3x3 box with top-left corner `(3*(row//3), 3*(col//3))`. It only reads the board. |
| `Board.BoxStart` | sudoko.py:62 | `3*(x//3)` is 0, 3 or 6, and it is the first index of the 3-wide band that contains `x`. |
| `Board.Place` | sudoko.py:22-26 | The write `board[row][col] = v` sets cell `(row, col)` to `v` and leaves every other cell unchanged. |
| `SudokuSolver.WriteCell` | sudoko.py:22-26 | Writing one array cell changes the board's contents exactly as `Place` does. |
| `Board.PlaceUndo` | sudoko.py:22-26 | Writing a digit into an empty cell and then resetting the cell to 0 gives back the original board. |
| `Board.PlaceDecreasesZeros` | sudoko.py:16-23 | Writing a non-zero digit into an empty cell lowers the number of empty cells by exactly one. This is the termination measure of the recursion. |
| `SudokuSolver.PlaceKeepsConsistent` | sudoko.py:19-22 | A digit accepted by the move check, written into a consistent board, keeps it consistent. |
| `SudokuSolver.Search` | sudoko.py:3-29 | A successful result keeps every given, leaves no cell 0, and holds a digit 1..9 in every cell that was empty. On a board with no empty cell the result is that board, unchanged. |
| `SudokuSolver.TryDigits` | sudoko.py:19-29 | The same guarantees hold for the digit loop started at any digit. |
| `SudokuSolver.SolveSudoku` | sudoko.py:3-29 | The Boolean result and the final board are those of `Search` on the entry board. On False the board equals the entry board. On True every given is kept, no cell is 0 and every filled cell holds 1..9. A full board gives True and is left unchanged. The recursion terminates. |
| `SudokuSolver.SearchKeepsConsistent` | sudoko.py:19-24 | From consistent givens, a successful search returns a consistent board. |
| `SudokuSolver.TryDigitsKeepsConsistent` | sudoko.py:19-24 | The same holds for the digit loop started at any digit. |
| `SudokuSolver.SolutionDigitCanBePlaced` | sudoko.py:57-66 | The digit that a solution puts in an empty cell passes the move check on the partial board. |
| `SudokuSolver.SearchComplete` | sudoko.py:10-29 | If some solved board keeps all givens of `g`, the search on `g` succeeds. |
| `SudokuSolver.TryDigitsComplete` | sudoko.py:19-29 | The digit loop succeeds when it starts at or below the digit that such a solution puts in the cell. |
| `SudokuSolver.SearchSound` | sudoko.py:13-24 | From givens that are in range and consistent, a successful search returns a solution: it keeps the givens and is solved. |
| `SudokuSolver.SearchCorrect` | sudoko.py:3-29 | For givens that are in range and consistent, the search succeeds exactly when a solution exists. Its result then holds each of 1..9 exactly once in every row, column and box. |
| `Board.SolvedUnitsHoldEachDigitOnce` | sudoko.py:13-14 | On a solved board, every row, column and box holds each digit 1..9 exactly once (multiset count 1). |
| `SolverExamples.AlmostFull` | sudoko.py:19-24 | On the solved demo board with cell (0, 2) emptied, the search rejects 1, 2 and 3 and returns the board completed with 4. |
| `SolverExamples.DuplicateGivensAccepted` | sudoko.py:13-14 | A full board whose row 0 repeats the digit 5 is not consistent, yet the search succeeds on it and returns it unchanged: givens are never checked against each other. |

## Left out

- `print_board` (`sudoko.py:71-79`) only prints, so it is not modelled.
- `main` (`sudoko.py:81-106`) holds the hard-coded demo puzzle, the printing and the entry point. Proving the demo's solution would mean unfolding the exponential search inside the verifier. A verified example of `Search` on the demo's solution with one cell emptied stands in for it (`SolverExamples.AlmostFull`).
- The source validates no input. Its callers must pass a 9x9 board with cells in 0..9. The model requires the 9x9 shape on every operation. It requires the value range (`InRange`) only where a lemma needs it.
- A Python board is a list of row lists, and two rows could share one list object. The model stores the board in an `array2<int>`, where rows cannot alias.
- Uniqueness of the solution, and which solution is found when there are several, are not stated beyond the fact that the outcome is a function (`Search`) of the entry board. So two calls on equal boards give equal results.
- The static methods of the Python class `SudokuSolver` become module-level members, because the class has no state.
