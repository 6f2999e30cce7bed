/** The 9x9 Sudoku board as a value: cells, units (rows, columns, boxes),
    the consistency rule, and the facts about boards the solver relies on.
    Cell value 0 marks an empty cell; 1..9 is a placed digit. */
module Board {

  /** A board as a sequence of rows; `Cells` gives this view of the array the solver mutates. */
  type Grid = seq<seq<int>>

  predicate InBounds(i: int, j: int)
  {
    0 <= i < 9 && 0 <= j < 9
  }

  /** Shape demanded of every board: 9 rows of 9 cells. */
  predicate IsGrid(g: Grid)
  {
    |g| == 9 && forall i :: 0 <= i < 9 ==> |g[i]| == 9
  }

  /** Every cell is 0 (empty) or a digit 1..9. */
  ghost predicate InRange(g: Grid)
  {
    IsGrid(g) && forall i, j :: InBounds(i, j) ==> 0 <= g[i][j] <= 9
  }

  /** No cell is empty. */
  ghost predicate Filled(g: Grid)
    requires IsGrid(g)
  {
    forall i, j :: InBounds(i, j) ==> g[i][j] != 0
  }

  /** The current contents of a 9x9 array, row by row. */
  ghost function Cells(b: array2<int>): (g: Grid)
    requires b.Length0 == 9 && b.Length1 == 9
    reads b
    ensures IsGrid(g)
    ensures forall i, j :: InBounds(i, j) ==> g[i][j] == b[i, j]
  {
    seq(9, i requires 0 <= i < 9 reads b => seq(9, j requires 0 <= j < 9 reads b => b[i, j]))
  }

  /** Two boards of the right shape that agree on every cell are equal. */
  lemma GridEq(g: Grid, h: Grid)
    requires IsGrid(g) && IsGrid(h)
    requires forall i, j :: InBounds(i, j) ==> g[i][j] == h[i][j]
    ensures g == h
  {
    forall i | 0 <= i < 9
      ensures g[i] == h[i]
    {
      assert forall j :: 0 <= j < 9 ==> g[i][j] == h[i][j];
    }
  }

  /** The board with cell (r, c) set to v and every other cell unchanged. */
  function Place(g: Grid, r: int, c: int, v: int): (h: Grid)
    requires IsGrid(g) && InBounds(r, c)
    ensures IsGrid(h)
    ensures h[r][c] == v
    ensures forall i, j :: InBounds(i, j) && (i, j) != (r, c) ==> h[i][j] == g[i][j]
  {
    g[r := g[r][c := v]]
  }

  /** Writing a value into an empty cell and then writing 0 back restores the board. */
  lemma PlaceUndo(g: Grid, r: int, c: int, v: int)
    requires IsGrid(g) && InBounds(r, c) && g[r][c] == 0
    ensures Place(Place(g, r, c, v), r, c, 0) == g
  {
    GridEq(Place(Place(g, r, c, v), r, c, 0), g);
  }

  /** Row or column index of the first row or column of the 3x3 box holding index x. */
  function BoxStart(x: int): (s: int)
    requires 0 <= x < 9
    ensures s == 0 || s == 3 || s == 6
    ensures s <= x < s + 3
  {
    3 * (x / 3)
  }

  /** (i1, j1) and (i2, j2) share a row, a column or a 3x3 box. */
  predicate SameUnit(i1: int, j1: int, i2: int, j2: int)
    requires InBounds(i1, j1) && InBounds(i2, j2)
  {
    i1 == i2 || j1 == j2 || (BoxStart(i1) == BoxStart(i2) && BoxStart(j1) == BoxStart(j2))
  }

  /** No digit is repeated in a row, a column or a box (empty cells are ignored). */
  ghost predicate Consistent(g: Grid)
    requires IsGrid(g)
  {
    forall i1, j1, i2, j2 ::
      InBounds(i1, j1) && InBounds(i2, j2) && (i1, j1) != (i2, j2) && SameUnit(i1, j1, i2, j2)
      && g[i1][j1] != 0
      ==> g[i1][j1] != g[i2][j2]
  }

  /** A finished Sudoku: every cell a digit 1..9 and no digit repeated in a unit. */
  ghost predicate Solved(g: Grid)
  {
    IsGrid(g) && (forall i, j :: InBounds(i, j) ==> 1 <= g[i][j] <= 9) && Consistent(g)
  }

  /** h keeps every given (non-zero cell) of g. */
  ghost predicate Extends(g: Grid, h: Grid)
  {
    IsGrid(g) && IsGrid(h) && forall i, j :: InBounds(i, j) && g[i][j] != 0 ==> h[i][j] == g[i][j]
  }

  /** h keeps the givens of g, has no empty cell, and holds a digit 1..9 wherever g was empty. */
  ghost predicate Completes(g: Grid, h: Grid)
  {
    Extends(g, h) && Filled(h) && forall i, j :: InBounds(i, j) && g[i][j] == 0 ==> 1 <= h[i][j] <= 9
  }

  /** h is a solution of the puzzle g. */
  ghost predicate IsSolution(g: Grid, h: Grid)
  {
    Extends(g, h) && Solved(h)
  }

  // ---------------------------------------------------------------------------
  // Counting empty cells: the measure that shrinks on every recursive call.

  function ZerosIn(s: seq<int>): nat
  {
    if s == [] then 0 else (if s[0] == 0 then 1 else 0) + ZerosIn(s[1..])
  }

  function ZeroCount(g: Grid): nat
  {
    if g == [] then 0 else ZerosIn(g[0]) + ZeroCount(g[1..])
  }

  lemma {:induction false} ZerosInUpdate(s: seq<int>, c: int, v: int)
    requires 0 <= c < |s| && s[c] == 0 && v != 0
    ensures ZerosIn(s[c := v]) == ZerosIn(s) - 1
  {
    if c == 0 {
      assert s[c := v][1..] == s[1..];
    } else {
      ZerosInUpdate(s[1..], c - 1, v);
      assert s[c := v][1..] == s[1..][c - 1 := v];
    }
  }

  lemma {:induction false} ZeroCountUpdate(g: Grid, r: int, row: seq<int>)
    requires 0 <= r < |g|
    ensures ZeroCount(g[r := row]) == ZeroCount(g) - ZerosIn(g[r]) + ZerosIn(row)
  {
    if r == 0 {
      assert g[r := row][1..] == g[1..];
    } else {
      ZeroCountUpdate(g[1..], r - 1, row);
      assert g[r := row][1..] == g[1..][r - 1 := row];
    }
  }

  /** Writing a digit into an empty cell leaves exactly one empty cell fewer. */
  lemma PlaceDecreasesZeros(g: Grid, r: int, c: int, v: int)
    requires IsGrid(g) && InBounds(r, c) && g[r][c] == 0 && v != 0
    ensures ZeroCount(Place(g, r, c, v)) == ZeroCount(g) - 1
  {
    ZerosInUpdate(g[r], c, v);
    ZeroCountUpdate(g, r, g[r][c := v]);
  }

  // ---------------------------------------------------------------------------
  // Units of a board and "each digit exactly once".

  function Row(g: Grid, u: int): (s: seq<int>)
    requires IsGrid(g) && 0 <= u < 9
    ensures |s| == 9 && forall k :: 0 <= k < 9 ==> s[k] == g[u][k]
  {
    g[u]
  }

  function Column(g: Grid, u: int): (s: seq<int>)
    requires IsGrid(g) && 0 <= u < 9
    ensures |s| == 9 && forall k :: 0 <= k < 9 ==> s[k] == g[k][u]
  {
    seq(9, k requires 0 <= k < 9 => g[k][u])
  }

  /** Box u (0..8, numbered row-major) read row-major: its top-left corner is (3 * (u / 3), 3 * (u % 3)). */
  function Box(g: Grid, u: int): (s: seq<int>)
    requires IsGrid(g) && 0 <= u < 9
    ensures |s| == 9 && forall k :: 0 <= k < 9 ==> s[k] == g[BoxCell(u, k).0][BoxCell(u, k).1]
  {
    seq(9, k requires 0 <= k < 9 => g[BoxCell(u, k).0][BoxCell(u, k).1])
  }

  predicate Distinct(s: seq<int>)
  {
    forall k1, k2 :: 0 <= k1 < k2 < |s| ==> s[k1] != s[k2]
  }

  /** Pigeonhole: |s| distinct values drawn from a set of |s| values take every one of them. */
  lemma {:induction false} DistinctCovers(s: seq<int>, values: set<int>)
    requires Distinct(s) && |s| == |values|
    requires forall k :: 0 <= k < |s| ==> s[k] in values
    ensures forall d :: d in values ==> d in s
  {
    if s != [] {
      var rest := values - {s[0]};
      forall k | 0 <= k < |s[1..]|
        ensures s[1..][k] in rest
      {
        assert s[1..][k] == s[k + 1];
      }
      DistinctCovers(s[1..], rest);
      forall d | d in values
        ensures d in s
      {
        if d != s[0] {
          assert d in s[1..];
        }
      }
    }
  }

  /** No value occurs twice in a sequence of distinct values. */
  lemma {:induction false} DistinctAtMostOnce(s: seq<int>)
    requires Distinct(s)
    ensures forall d :: multiset(s)[d] <= 1
  {
    if s != [] {
      assert s == [s[0]] + s[1..];
      assert Distinct(s[1..]);
      DistinctAtMostOnce(s[1..]);
      assert s[0] !in s[1..];
      assert multiset(s) == multiset{s[0]} + multiset(s[1..]);
    }
  }

  /** The digits a filled cell may hold. */
  const Digits: set<int> := {1, 2, 3, 4, 5, 6, 7, 8, 9}

  /** Nine distinct digits from 1..9 hold each of 1..9 exactly once. */
  lemma DigitsOnce(s: seq<int>)
    requires |s| == 9 && Distinct(s)
    requires forall k :: 0 <= k < 9 ==> 1 <= s[k] <= 9
    ensures forall d :: 1 <= d <= 9 ==> multiset(s)[d] == 1
  {
    assert |Digits| == 9;
    DistinctCovers(s, Digits);
    DistinctAtMostOnce(s);
    forall d | 1 <= d <= 9
      ensures multiset(s)[d] == 1
    {
      assert d in Digits;
    }
  }

  /** Every row, column and box of a solved board holds each of 1..9 exactly once. */
  lemma SolvedUnitsHoldEachDigitOnce(g: Grid)
    requires Solved(g)
    ensures forall u, d :: 0 <= u < 9 && 1 <= d <= 9 ==>
      multiset(Row(g, u))[d] == 1 && multiset(Column(g, u))[d] == 1 && multiset(Box(g, u))[d] == 1
  {
    forall u | 0 <= u < 9
      ensures forall d :: 1 <= d <= 9 ==>
        multiset(Row(g, u))[d] == 1 && multiset(Column(g, u))[d] == 1 && multiset(Box(g, u))[d] == 1
    {
      RowDistinct(g, u);
      DigitsOnce(Row(g, u));
      ColumnDistinct(g, u);
      DigitsOnce(Column(g, u));
      BoxDistinct(g, u);
      DigitsOnce(Box(g, u));
    }
  }

  lemma RowDistinct(g: Grid, u: int)
    requires Solved(g) && 0 <= u < 9
    ensures Distinct(Row(g, u))
    ensures forall k :: 0 <= k < 9 ==> 1 <= Row(g, u)[k] <= 9
  {
  }

  lemma ColumnDistinct(g: Grid, u: int)
    requires Solved(g) && 0 <= u < 9
    ensures Distinct(Column(g, u))
    ensures forall k :: 0 <= k < 9 ==> 1 <= Column(g, u)[k] <= 9
  {
  }

  /** Cell k (0..8, row-major) of box u (0..8, row-major). */
  function BoxCell(u: int, k: int): (cell: (int, int))
    requires 0 <= u < 9 && 0 <= k < 9
    ensures InBounds(cell.0, cell.1)
    ensures BoxStart(cell.0) == 3 * (u / 3) && BoxStart(cell.1) == 3 * (u % 3)
  {
    (3 * (u / 3) + k / 3, 3 * (u % 3) + k % 3)
  }

  lemma BoxCellsDiffer(u: int, k1: int, k2: int)
    requires 0 <= u < 9 && 0 <= k1 < k2 < 9
    ensures BoxCell(u, k1) != BoxCell(u, k2)
  {
  }

  lemma BoxDistinct(g: Grid, u: int)
    requires Solved(g) && 0 <= u < 9
    ensures Distinct(Box(g, u))
    ensures forall k :: 0 <= k < 9 ==> 1 <= Box(g, u)[k] <= 9
  {
    var s := Box(g, u);
    forall k1, k2 | 0 <= k1 < k2 < 9
      ensures s[k1] != s[k2]
    {
      var c1, c2 := BoxCell(u, k1), BoxCell(u, k2);
      BoxCellsDiffer(u, k1, k2);
      assert SameUnit(c1.0, c1.1, c2.0, c2.1);
    }
  }
}
