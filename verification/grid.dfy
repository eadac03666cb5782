/**
 * The 9x9 grid under validation and what it means for it to be a solved
 * Sudoku, stated directly on cells (independently of how the validator
 * splits the work into regions).
 */
module Grid {

  /** Side of the grid (`N` in the C program). */
  const N: int := 9

  /** Side of one box. */
  const BoxSide: int := 3

  /** A 9x9 matrix of integers; cells may hold any `int`, in range or not. */
  ghost predicate IsGrid(g: seq<seq<int>>)
  {
    |g| == N && forall r :: 0 <= r < N ==> |g[r]| == N
  }

  /** The values a completed Sudoku may hold. */
  predicate IsDigit(v: int)
  {
    1 <= v <= N
  }

  /** Two cells lie in the same 3x3 box. */
  predicate SameBox(r1: int, c1: int, r2: int, c2: int)
    requires 0 <= r1 && 0 <= c1 && 0 <= r2 && 0 <= c2
  {
    r1 / BoxSide == r2 / BoxSide && c1 / BoxSide == c2 / BoxSide
  }

  /**
   * The Sudoku rule: every cell holds a digit, and no digit repeats within
   * a row, within a column or within a box.
   */
  ghost predicate IsSudokuSolution(g: seq<seq<int>>)
    requires IsGrid(g)
  {
    && (forall r, c :: 0 <= r < N && 0 <= c < N ==> IsDigit(g[r][c]))
    && (forall r, c1, c2 :: 0 <= r < N && 0 <= c1 < c2 < N ==> g[r][c1] != g[r][c2])
    && (forall r1, r2, c :: 0 <= r1 < r2 < N && 0 <= c < N ==> g[r1][c] != g[r2][c])
    && (forall r1, c1, r2, c2 ::
          0 <= r1 < N && 0 <= c1 < N && 0 <= r2 < N && 0 <= c2 < N &&
          SameBox(r1, c1, r2, c2) && (r1 != r2 || c1 != c2)
          ==> g[r1][c1] != g[r2][c2])
  }
}
