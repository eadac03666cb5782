/**
 * The grid compiled into the program, and what the validator reports for it
 * and for three one-cell alterations of it.
 */
module Scenarios {
  import opened Grid
  import opened Regions
  import opened Enumeration
  import opened Orchestrator

  /** The grid the program validates (`sudoku` in the C program). */
  const Sudoku: seq<seq<int>> := [
    [6, 2, 4, 5, 3, 9, 1, 8, 7],
    [5, 1, 9, 7, 2, 8, 6, 3, 4],
    [8, 3, 7, 6, 1, 4, 2, 9, 5],
    [1, 4, 3, 8, 6, 5, 7, 2, 9],
    [9, 5, 8, 2, 4, 7, 3, 6, 1],
    [7, 6, 2, 3, 9, 1, 4, 5, 8],
    [3, 7, 1, 9, 5, 6, 8, 4, 2],
    [4, 9, 6, 1, 8, 2, 5, 7, 3],
    [2, 8, 5, 4, 7, 3, 9, 1, 6]
  ]

  /** The grid with cell (r, c) replaced by v. */
  function WithCell(g: seq<seq<int>>, r: int, c: int, v: int): (h: seq<seq<int>>)
    requires IsGrid(g) && 0 <= r < N && 0 <= c < N
    ensures IsGrid(h) && h[r][c] == v
    ensures forall r', c' :: 0 <= r' < N && 0 <= c' < N && (r', c') != (r, c) ==> h[r'][c'] == g[r'][c']
  {
    g[r := g[r][c := v]]
  }

  /**
   * The compiled-in grid is a solved Sudoku: every one of the 27 workers
   * stores 1, and the run reports it valid whatever the schedule.
   */
  lemma SudokuIsSolved()
    ensures IsGrid(Sudoku) && IsSudokuSolution(Sudoku)
    ensures forall k :: 0 <= k < NumThreads ==> Outcome(Sudoku, RegionParams(k)) == 1
  {
    SudokuRowsAndColumns();
    SudokuBoxes();
    AllRegionsValidIffSolution(Sudoku);
  }

  /** Sudoku holds only digits, none repeated in a row or a column. */
  lemma SudokuRowsAndColumns()
    ensures IsGrid(Sudoku)
    ensures forall r, c :: 0 <= r < N && 0 <= c < N ==> IsDigit(Sudoku[r][c])
    ensures forall r, c1, c2 :: 0 <= r < N && 0 <= c1 < c2 < N ==> Sudoku[r][c1] != Sudoku[r][c2]
    ensures forall r1, r2, c :: 0 <= r1 < r2 < N && 0 <= c < N ==> Sudoku[r1][c] != Sudoku[r2][c]
  {
    SudokuDigits();
    SudokuRows();
    SudokuColumns();
  }

  /** Every cell of Sudoku holds a digit. */
  lemma SudokuDigits()
    ensures forall r, c :: 0 <= r < N && 0 <= c < N ==> |Sudoku| == N && |Sudoku[r]| == N && IsDigit(Sudoku[r][c])
  {
  }

  /** No digit repeats in a row of Sudoku. */
  lemma SudokuRows()
    ensures forall r, c1, c2 :: 0 <= r < N && 0 <= c1 < c2 < N ==> Sudoku[r][c1] != Sudoku[r][c2]
  {
  }

  /** No digit repeats in a column of Sudoku. */
  lemma SudokuColumns()
    ensures forall r1, r2, c :: 0 <= r1 < r2 < N && 0 <= c < N ==> Sudoku[r1][c] != Sudoku[r2][c]
  {
  }

  /** No digit of Sudoku repeats inside a box. */
  lemma SudokuBoxes()
    ensures forall r1, c1, r2, c2 ::
      0 <= r1 < N && 0 <= c1 < N && 0 <= r2 < N && 0 <= c2 < N &&
      SameBox(r1, c1, r2, c2) && (r1 != r2 || c1 != c2)
      ==> Sudoku[r1][c1] != Sudoku[r2][c2]
  {
    forall r1, c1, r2, c2 |
      0 <= r1 < N && 0 <= c1 < N && 0 <= r2 < N && 0 <= c2 < N &&
      SameBox(r1, c1, r2, c2) && (r1 != r2 || c1 != c2)
      ensures Sudoku[r1][c1] != Sudoku[r2][c2]
    {
      BoxHasNoRepeat(BoxSide * (r1 / BoxSide), BoxSide * (c1 / BoxSide));
    }
  }

  /** No digit repeats inside the box of Sudoku whose corner is (br, bc). */
  lemma BoxHasNoRepeat(br: int, bc: int)
    requires br in {0, 3, 6} && bc in {0, 3, 6}
    ensures forall r1, c1, r2, c2 ::
      br <= r1 < br + BoxSide && bc <= c1 < bc + BoxSide &&
      br <= r2 < br + BoxSide && bc <= c2 < bc + BoxSide &&
      (r1 != r2 || c1 != c2)
      ==> Sudoku[r1][c1] != Sudoku[r2][c2]
  {
  }

  /**
   * Cell (0, 0) changed from 6 to 2 repeats the 2 of row 0: the worker for
   * row 0 stores 0 and the grid is no longer a solution.
   */
  lemma RepeatInRowIsCaught()
    ensures var g := WithCell(Sudoku, 0, 0, 2);
      Outcome(g, RegionParams(0)) == 0 && !IsSudokuSolution(g)
  {
    var g := WithCell(Sudoku, 0, 0, 2);
    RepeatInvalidates(g, RegionParams(0), 0, 1);
    AllRegionsValidIffSolution(g);
  }

  /**
   * Cell (4, 4) changed from 4 to 0 puts a value outside 1..9 in row 4,
   * column 4 and the centre box: all three workers store 0.
   */
  lemma OutOfRangeIsCaught()
    ensures var g := WithCell(Sudoku, 4, 4, 0);
      && Outcome(g, RegionParams(4)) == 0
      && Outcome(g, RegionParams(N + 4)) == 0
      && Outcome(g, RegionParams(2 * N + 4)) == 0
      && !IsSudokuSolution(g)
  {
    var g := WithCell(Sudoku, 4, 4, 0);
    OutOfRangeInvalidates(g, RegionParams(4), 4);
    OutOfRangeInvalidates(g, RegionParams(N + 4), 4);
    OutOfRangeInvalidates(g, RegionParams(2 * N + 4), 4);
    AllRegionsValidIffSolution(g);
  }

  /**
   * Cell (8, 8) changed from 6 to 9 repeats a 9 in row 8, in column 8
   * (slot 17) and in the bottom-right box (slot 26): all three store 0.
   */
  lemma RepeatInColumnAndBoxIsCaught()
    ensures var g := WithCell(Sudoku, 8, 8, 9);
      && Outcome(g, RegionParams(8)) == 0
      && Outcome(g, RegionParams(17)) == 0
      && Outcome(g, RegionParams(26)) == 0
      && !IsSudokuSolution(g)
  {
    var g := WithCell(Sudoku, 8, 8, 9);
    RepeatInvalidates(g, RegionParams(8), 6, 8);
    RepeatInvalidates(g, RegionParams(17), 3, 8);
    RepeatInvalidates(g, RegionParams(26), 6, 8);
    AllRegionsValidIffSolution(g);
  }
}
