/** The backtracking solver: first-empty-cell search, move validation, and the
    recursive place-and-undo search that fills the board in place. */
module SudokuSolver {
  import opened Board

  datatype Option<T> = None | Some(value: T)

  /** (a, b) comes strictly before (r, c) in row-major order. */
  predicate Before(a: int, b: int, r: int, c: int)
  {
    a < r || (a == r && b < c)
  }

  // ---------------------------------------------------------------------------
  // find_empty_cell

  /** The first empty cell at or after (r, c) in row-major order. */
  function FirstEmptyFrom(g: Grid, r: int, c: int): (res: Option<(int, int)>)
    requires IsGrid(g) && 0 <= r <= 9 && 0 <= c <= 9
    ensures res.Some? ==>
      InBounds(res.value.0, res.value.1) && g[res.value.0][res.value.1] == 0
      && !Before(res.value.0, res.value.1, r, c)
      && forall i, j :: InBounds(i, j) && !Before(i, j, r, c) && Before(i, j, res.value.0, res.value.1) ==> g[i][j] != 0
    ensures res.None? ==> forall i, j :: InBounds(i, j) && !Before(i, j, r, c) ==> g[i][j] != 0
    decreases 9 - r, 9 - c
  {
    if r == 9 then None
    else if c == 9 then FirstEmptyFrom(g, r + 1, 0)
    else if g[r][c] == 0 then Some((r, c))
    else FirstEmptyFrom(g, r, c + 1)
  }

  /** The first empty cell of the board in row-major order, if there is one. */
  function FirstEmpty(g: Grid): (res: Option<(int, int)>)
    requires IsGrid(g)
    ensures res.Some? ==>
      InBounds(res.value.0, res.value.1) && g[res.value.0][res.value.1] == 0
      && forall i, j :: InBounds(i, j) && Before(i, j, res.value.0, res.value.1) ==> g[i][j] != 0
    ensures res.None? <==> Filled(g)
  {
    FirstEmptyFrom(g, 0, 0)
  }

  /** Scans rows 0..8 and, within each, columns 0..8, stopping at the first 0. */
  method FindEmptyCell(board: array2<int>) returns (cell: Option<(int, int)>)
    requires board.Length0 == 9 && board.Length1 == 9
    ensures cell == FirstEmpty(Cells(board))
  {
    for row := 0 to 9
      invariant forall i, j :: InBounds(i, j) && i < row ==> board[i, j] != 0
    {
      for col := 0 to 9
        invariant forall i, j :: InBounds(i, j) && Before(i, j, row, col) ==> board[i, j] != 0
      {
        if board[row, col] == 0 {
          return Some((row, col));
        }
      }
    }
    return None;
  }

  // ---------------------------------------------------------------------------
  // is_valid_move

  /** num occurs nowhere in row `row`, column `col`, or the 3x3 box whose
      top-left corner is (BoxStart(row), BoxStart(col)). */
  ghost predicate CanPlace(g: Grid, row: int, col: int, num: int)
    requires IsGrid(g) && InBounds(row, col)
  {
    (forall k :: 0 <= k < 9 ==> g[row][k] != num && g[k][col] != num)
    && forall i, j ::
         BoxStart(row) <= i < BoxStart(row) + 3 && BoxStart(col) <= j < BoxStart(col) + 3
         ==> g[i][j] != num
  }

  method IsValidMove(board: array2<int>, row: int, col: int, num: int) returns (valid: bool)
    requires board.Length0 == 9 && board.Length1 == 9 && InBounds(row, col)
    ensures valid == CanPlace(Cells(board), row, col, num)
  {
    for i := 0 to 9
      invariant forall k :: 0 <= k < i ==> board[row, k] != num && board[k, col] != num
    {
      if board[row, i] == num || board[i, col] == num {
        return false;
      }
    }
    var startRow, startCol := BoxStart(row), BoxStart(col);
    for i := 0 to 3
      invariant forall p, q :: startRow <= p < startRow + i && startCol <= q < startCol + 3 ==> board[p, q] != num
    {
      for j := 0 to 3
        invariant forall p, q ::
          (startRow <= p < startRow + i && startCol <= q < startCol + 3)
          || (p == startRow + i && startCol <= q < startCol + j)
          ==> board[p, q] != num
      {
        if board[startRow + i, startCol + j] == num {
          return false;
        }
      }
    }
    return true;
  }

  /** A move allowed by CanPlace, written into an empty cell of a consistent
      board, keeps it consistent. */
  lemma PlaceKeepsConsistent(g: Grid, r: int, c: int, v: int)
    requires IsGrid(g) && InBounds(r, c) && Consistent(g) && CanPlace(g, r, c, v)
    ensures Consistent(Place(g, r, c, v))
  {
    var h := Place(g, r, c, v);
    forall i1, j1, i2, j2 |
      InBounds(i1, j1) && InBounds(i2, j2) && (i1, j1) != (i2, j2) && SameUnit(i1, j1, i2, j2)
      && h[i1][j1] != 0
      ensures h[i1][j1] != h[i2][j2]
    {
      if (i1, j1) == (r, c) {
        assert g[i2][j2] != v;
      } else if (i2, j2) == (r, c) {
        assert g[i1][j1] != v;
      }
    }
  }

  // ---------------------------------------------------------------------------
  // solve_sudoku: reference definition of the search

  /** What solve_sudoku does to a board: Some(final board) when it returns
      True, None when it returns False. */
  ghost function Search(g: Grid): (res: Option<Grid>)
    requires IsGrid(g)
    ensures res.Some? ==> Completes(g, res.value)
    ensures Filled(g) ==> res == Some(g)
    decreases ZeroCount(g), 1, 0
  {
    match FirstEmpty(g)
    case None => Some(g)
    case Some((r, c)) => TryDigits(g, r, c, 1)
  }

  /** The `for num in range(1, 10)` loop of solve_sudoku, from digit num on,
      at empty cell (r, c). */
  ghost function TryDigits(g: Grid, r: int, c: int, num: int): (res: Option<Grid>)
    requires IsGrid(g) && InBounds(r, c) && g[r][c] == 0 && 1 <= num <= 10
    ensures res.Some? ==> Completes(g, res.value)
    decreases ZeroCount(g), 0, 10 - num
  {
    if num == 10 then None
    else if CanPlace(g, r, c, num) then
      PlaceDecreasesZeros(g, r, c, num);
      match Search(Place(g, r, c, num))
      case Some(h) => Some(h)
      case None => TryDigits(g, r, c, num + 1)
    else TryDigits(g, r, c, num + 1)
  }

  // ---------------------------------------------------------------------------
  // Correctness of the search

  /** Search(g), from consistent givens, yields a consistent board. */
  lemma {:induction false} SearchKeepsConsistent(g: Grid)
    requires IsGrid(g) && Consistent(g)
    ensures Search(g).Some? ==> Consistent(Search(g).value)
    decreases ZeroCount(g), 1, 0
  {
    match FirstEmpty(g)
    case None =>
    case Some((r, c)) => TryDigitsKeepsConsistent(g, r, c, 1);
  }

  lemma {:induction false} TryDigitsKeepsConsistent(g: Grid, r: int, c: int, num: int)
    requires IsGrid(g) && InBounds(r, c) && g[r][c] == 0 && 1 <= num <= 10
    requires Consistent(g)
    ensures TryDigits(g, r, c, num).Some? ==> Consistent(TryDigits(g, r, c, num).value)
    decreases ZeroCount(g), 0, 10 - num
  {
    if num == 10 {
    } else if CanPlace(g, r, c, num) && Search(Place(g, r, c, num)).Some? {
      PlaceDecreasesZeros(g, r, c, num);
      PlaceKeepsConsistent(g, r, c, num);
      SearchKeepsConsistent(Place(g, r, c, num));
    } else {
      TryDigitsKeepsConsistent(g, r, c, num + 1);
    }
  }

  /** The digit a solution puts in an empty cell passes the is_valid_move check. */
  lemma SolutionDigitCanBePlaced(g: Grid, h: Grid, r: int, c: int)
    requires IsSolution(g, h) && InBounds(r, c) && g[r][c] == 0
    ensures CanPlace(g, r, c, h[r][c])
  {
    var d := h[r][c];
    forall i, j | InBounds(i, j) && SameUnit(r, c, i, j) && (i, j) != (r, c)
      ensures g[i][j] != d
    {
      if g[i][j] != 0 {
        assert h[i][j] == g[i][j];
      }
    }
    forall i, j | BoxStart(r) <= i < BoxStart(r) + 3 && BoxStart(c) <= j < BoxStart(c) + 3
      ensures g[i][j] != d
    {
      assert SameUnit(r, c, i, j);
    }
  }

  /** If some solution extends g, Search(g) finds one. */
  lemma {:induction false} SearchComplete(g: Grid, h: Grid)
    requires IsSolution(g, h)
    ensures Search(g).Some?
    decreases ZeroCount(g), 1, 0
  {
    match FirstEmpty(g)
    case None =>
    case Some((r, c)) => TryDigitsComplete(g, h, r, c, 1);
  }

  lemma {:induction false} TryDigitsComplete(g: Grid, h: Grid, r: int, c: int, num: int)
    requires IsSolution(g, h) && InBounds(r, c) && g[r][c] == 0 && 1 <= num <= h[r][c]
    ensures TryDigits(g, r, c, num).Some?
    decreases ZeroCount(g), 0, 10 - num
  {
    if num == h[r][c] {
      SolutionDigitCanBePlaced(g, h, r, c);
      PlaceDecreasesZeros(g, r, c, num);
      SearchComplete(Place(g, r, c, num), h);
    } else if !(CanPlace(g, r, c, num) && Search(Place(g, r, c, num)).Some?) {
      TryDigitsComplete(g, h, r, c, num + 1);
    }
  }

  /** From in-range, consistent givens, what the search returns is a solution. */
  lemma SearchSound(g: Grid)
    requires InRange(g) && Consistent(g)
    ensures Search(g).Some? ==> IsSolution(g, Search(g).value)
  {
    SearchKeepsConsistent(g);
  }

  /** For in-range, consistent givens the search succeeds exactly when the
      puzzle has a solution; what it returns then holds each of 1..9 exactly
      once in every row, column and box. */
  lemma SearchCorrect(g: Grid)
    requires InRange(g) && Consistent(g)
    ensures Search(g).Some? <==> exists h :: IsSolution(g, h)
    ensures Search(g).Some? ==> forall u, d :: 0 <= u < 9 && 1 <= d <= 9 ==>
      multiset(Row(Search(g).value, u))[d] == 1
      && multiset(Column(Search(g).value, u))[d] == 1
      && multiset(Box(Search(g).value, u))[d] == 1
  {
    if Search(g).Some? {
      SearchSound(g);
      SolvedUnitsHoldEachDigitOnce(Search(g).value);
    }
    if h :| IsSolution(g, h) {
      SearchComplete(g, h);
    }
  }

  /** The assignment `board[row][col] = v`. */
  method WriteCell(board: array2<int>, r: int, c: int, v: int)
    requires board.Length0 == 9 && board.Length1 == 9 && InBounds(r, c)
    modifies board
    ensures Cells(board) == Place(old(Cells(board)), r, c, v)
  {
    board[r, c] := v;
    GridEq(Cells(board), Place(old(Cells(board)), r, c, v));
  }

  /** Solves the board in place. */
  method SolveSudoku(board: array2<int>) returns (solved: bool)
    requires board.Length0 == 9 && board.Length1 == 9
    modifies board
    ensures solved == Search(old(Cells(board))).Some?
    ensures solved ==> Cells(board) == Search(old(Cells(board))).value
    ensures !solved ==> Cells(board) == old(Cells(board))
    ensures solved ==> Completes(old(Cells(board)), Cells(board))
    ensures old(Filled(Cells(board))) ==> solved && Cells(board) == old(Cells(board))
    decreases ZeroCount(Cells(board))
  {
    ghost var g := Cells(board);
    assert g == old(Cells(board));
    var emptyCell := FindEmptyCell(board);
    if emptyCell.None? {
      return true;
    }
    var row, col := emptyCell.value.0, emptyCell.value.1;
    for num := 1 to 10
      invariant Cells(board) == g
      invariant Search(g) == TryDigits(g, row, col, num)
    {
      PlaceDecreasesZeros(g, row, col, num);
      var valid := IsValidMove(board, row, col, num);
      if valid {
        WriteCell(board, row, col, num);
        solved := SolveSudoku(board);
        if solved {
          return;
        }
        WriteCell(board, row, col, 0);
        PlaceUndo(g, row, col, num);
      }
    }
    return false;
  }
}
