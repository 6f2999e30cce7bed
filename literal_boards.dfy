/** The search on literal boards: the solved demo board with the cell at
    row 0, column 2 emptied is completed with the digit 4, after 1, 2 and 3
    are rejected by the move check; and a full board whose givens repeat a
    digit is accepted as it is. */
module SolverExamples {
  import opened Board
  import opened SudokuSolver

  const Solution: Grid := [
    [5, 3, 4, 6, 7, 8, 9, 1, 2],
    [6, 7, 2, 1, 9, 5, 3, 4, 8],
    [1, 9, 8, 3, 4, 2, 5, 6, 7],
    [8, 5, 9, 7, 6, 1, 4, 2, 3],
    [4, 2, 6, 8, 5, 3, 7, 9, 1],
    [7, 1, 3, 9, 2, 4, 8, 5, 6],
    [9, 6, 1, 5, 3, 7, 2, 8, 4],
    [2, 8, 7, 4, 1, 9, 6, 3, 5],
    [3, 4, 5, 2, 8, 6, 1, 7, 9]]

  const Puzzle: Grid := [
    [5, 3, 0, 6, 7, 8, 9, 1, 2],
    [6, 7, 2, 1, 9, 5, 3, 4, 8],
    [1, 9, 8, 3, 4, 2, 5, 6, 7],
    [8, 5, 9, 7, 6, 1, 4, 2, 3],
    [4, 2, 6, 8, 5, 3, 7, 9, 1],
    [7, 1, 3, 9, 2, 4, 8, 5, 6],
    [9, 6, 1, 5, 3, 7, 2, 8, 4],
    [2, 8, 7, 4, 1, 9, 6, 3, 5],
    [3, 4, 5, 2, 8, 6, 1, 7, 9]]

  lemma PuzzleFirstEmpty()
    ensures FirstEmpty(Puzzle) == Some((0, 2))
  {
  }

  lemma PlacingFourSolves()
    ensures Place(Puzzle, 0, 2, 4) == Solution
  {
    assert Puzzle[0][2 := 4] == Solution[0];
  }

  lemma SolutionIsFilled()
    ensures Filled(Solution)
  {
  }

  lemma SmallerDigitsConflict()
    ensures !CanPlace(Puzzle, 0, 2, 1) && !CanPlace(Puzzle, 0, 2, 2) && !CanPlace(Puzzle, 0, 2, 3)
  {
    assert Puzzle[0][7] == 1 && Puzzle[1][2] == 2 && Puzzle[5][2] == 3;
  }

  lemma FourFits()
    ensures CanPlace(Puzzle, 0, 2, 4)
  {
  }

  lemma AlmostFull()
    ensures Search(Puzzle) == Some(Solution)
  {
    PuzzleFirstEmpty();
    SmallerDigitsConflict();
    FourFits();
    PlacingFourSolves();
    SolutionIsFilled();
    TrySkip(Puzzle, 0, 2, 1);
    TrySkip(Puzzle, 0, 2, 2);
    TrySkip(Puzzle, 0, 2, 3);
    TryLast(Puzzle, 0, 2, 4);
  }

  /** A digit the move check rejects is skipped. */
  lemma TrySkip(g: Grid, r: int, c: int, num: int)
    requires IsGrid(g) && InBounds(r, c) && g[r][c] == 0 && 1 <= num < 10
    requires !CanPlace(g, r, c, num)
    ensures TryDigits(g, r, c, num) == TryDigits(g, r, c, num + 1)
  {
  }

  /** A digit that fills the last empty cell ends the search with success. */
  lemma TryLast(g: Grid, r: int, c: int, num: int)
    requires IsGrid(g) && InBounds(r, c) && g[r][c] == 0 && 1 <= num < 10
    requires CanPlace(g, r, c, num) && Filled(Place(g, r, c, num))
    ensures TryDigits(g, r, c, num) == Some(Place(g, r, c, num))
  {
    PlaceDecreasesZeros(g, r, c, num);
  }

  /** The solved demo board with cell (0, 1) overwritten by 5: row 0 now holds
      5 twice, yet no cell is empty. */
  const Duplicated: Grid := Solution[0 := Solution[0][1 := 5]]

  /** The givens are never compared with each other: a full board with a
      repeated digit makes the search succeed and return that board. */
  lemma DuplicateGivensAccepted()
    ensures IsGrid(Duplicated) && !Consistent(Duplicated)
    ensures Search(Duplicated) == Some(Duplicated)
  {
    assert Duplicated[0][0] == 5 && Duplicated[0][1] == 5;
    assert SameUnit(0, 0, 0, 1);
    assert Filled(Duplicated);
  }
}
