/**
 * The main thread: prepare the 27 parameter records, let every worker write
 * its slot of the result board, then reduce the board to one verdict.
 *
 * The workers read only the grid and each writes only its own slot, so the
 * effect of running them concurrently is that of running them one after
 * another in whatever order the scheduler picks; `schedule` is that order.
 */
module Orchestrator {
  import opened Grid
  import opened Regions
  import opened RegionCheck
  import opened Enumeration

  /** Every region passes the worker's check. */
  ghost predicate AllRegionsValid(g: seq<seq<int>>)
    requires IsGrid(g)
  {
    forall k :: 0 <= k < NumThreads ==> ValidRegion(RegionValues(g, RegionParams(k)))
  }

  /** An order of running the workers: only real worker indices, none left out. */
  ghost predicate IsSchedule(schedule: seq<int>)
  {
    && (forall i :: 0 <= i < |schedule| ==> 0 <= schedule[i] < NumThreads)
    && (forall k :: 0 <= k < NumThreads ==> k in schedule)
  }

  /**
   * Runs the worker of every record in the order `schedule` gives and waits
   * for all of them. Whatever the order, slot k ends up holding the outcome
   * of record k's region.
   */
  method Dispatch(grid: seq<seq<int>>, params: array<Parameters>, valid: array<int>, schedule: seq<int>)
    requires IsGrid(grid) && params.Length == NumThreads && valid.Length == NumThreads
    requires forall k :: 0 <= k < NumThreads ==> params[k].threadNum == k && InBounds(params[k])
    requires IsSchedule(schedule)
    modifies valid
    ensures forall k :: 0 <= k < NumThreads ==> valid[k] == Outcome(grid, params[k])
  {
    for i := 0 to |schedule|
      invariant forall k :: 0 <= k < NumThreads && k in schedule[..i] ==> valid[k] == Outcome(grid, params[k])
    {
      CheckRegion(grid, params[schedule[i]], valid);
      assert schedule[..i + 1] == schedule[..i] + [schedule[i]];
    }
    assert schedule[..|schedule|] == schedule;
  }

  /**
   * The reduction over the result board: 1 when no slot holds 0, else 0.
   * Stopping at the first 0 gives the same answer as reading every slot.
   */
  method Aggregate(valid: array<int>) returns (allValid: int)
    requires valid.Length == NumThreads
    ensures allValid == if 0 in valid[..] then 0 else 1
  {
    allValid := 1;
    for i := 0 to NumThreads
      invariant 0 !in valid[..i]
    {
      assert valid[..i + 1] == valid[..i] + [valid[i]];
      if valid[i] == 0 {
        allValid := 0;
        break;
      }
    }
  }

  /**
   * The whole run: build the records, start from a zeroed board, run the
   * workers in the order `schedule` gives, and reduce. The verdict is 1
   * exactly when every region passes, which is exactly when the grid obeys
   * the Sudoku rule; it does not depend on the schedule.
   */
  method Validate(grid: seq<seq<int>>, schedule: seq<int>) returns (allValid: int)
    requires IsGrid(grid) && IsSchedule(schedule)
    ensures allValid == 1 <==> AllRegionsValid(grid)
    ensures allValid == if IsSudokuSolution(grid) then 1 else 0
  {
    var params := EnumerateRegions();
    var valid := new int[NumThreads](_ => 0);
    Dispatch(grid, params, valid, schedule);
    BoardVerdict(grid, valid[..]);
    allValid := Aggregate(valid);
    AllRegionsValidIffSolution(grid);
  }

  /** A board holding every region's outcome has no 0 exactly when every region passes. */
  lemma BoardVerdict(grid: seq<seq<int>>, board: seq<int>)
    requires IsGrid(grid) && |board| == NumThreads
    requires forall k :: 0 <= k < NumThreads ==> board[k] == Outcome(grid, RegionParams(k))
    ensures 0 !in board <==> AllRegionsValid(grid)
  {
    if !AllRegionsValid(grid) {
      var k :| 0 <= k < NumThreads && !ValidRegion(RegionValues(grid, RegionParams(k)));
      assert board[k] == 0;
    }
  }

  /**
   * The 27 region checks together decide the Sudoku rule: every region
   * passes if and only if every cell holds a digit and no digit repeats in
   * a row, a column or a box.
   */
  lemma AllRegionsValidIffSolution(g: seq<seq<int>>)
    requires IsGrid(g)
    ensures AllRegionsValid(g) <==> IsSudokuSolution(g)
  {
    if AllRegionsValid(g) {
      SolutionOfRegions(g);
    }
    if IsSudokuSolution(g) {
      RegionsOfSolution(g);
    }
  }

  /** If every region passes, the grid obeys the Sudoku rule. */
  lemma SolutionOfRegions(g: seq<seq<int>>)
    requires IsGrid(g) && AllRegionsValid(g)
    ensures IsSudokuSolution(g)
  {
    forall r, c | 0 <= r < N && 0 <= c < N ensures IsDigit(g[r][c]) {
      CellsOfCell(r, c);
      assert RegionValues(g, RegionParams(r))[c] == g[r][c];
    }
    forall r, c1, c2 | 0 <= r < N && 0 <= c1 < c2 < N ensures g[r][c1] != g[r][c2] {
      CellsOfCell(r, c1);
      CellsOfCell(r, c2);
      var vs := RegionValues(g, RegionParams(r));
      assert vs[c1] == g[r][c1] && vs[c2] == g[r][c2];
    }
    forall r1, r2, c | 0 <= r1 < r2 < N && 0 <= c < N ensures g[r1][c] != g[r2][c] {
      CellsOfCell(r1, c);
      CellsOfCell(r2, c);
      var vs := RegionValues(g, RegionParams(N + c));
      assert vs[r1] == g[r1][c] && vs[r2] == g[r2][c];
    }
    forall r1, c1, r2, c2 |
      0 <= r1 < N && 0 <= c1 < N && 0 <= r2 < N && 0 <= c2 < N &&
      SameBox(r1, c1, r2, c2) && (r1 != r2 || c1 != c2)
      ensures g[r1][c1] != g[r2][c2]
    {
      BoxRepeat(g, r1, c1, r2, c2);
    }
  }

  /** Two different cells of one box are two different steps of that box's worker. */
  lemma BoxRepeat(g: seq<seq<int>>, r1: int, c1: int, r2: int, c2: int)
    requires IsGrid(g) && AllRegionsValid(g)
    requires 0 <= r1 < N && 0 <= c1 < N && 0 <= r2 < N && 0 <= c2 < N
    requires SameBox(r1, c1, r2, c2) && (r1 != r2 || c1 != c2)
    ensures g[r1][c1] != g[r2][c2]
  {
    CellsOfCell(r1, c1);
    CellsOfCell(r2, c2);
    assert BoxOf(r1, c1) == BoxOf(r2, c2);
    var p := RegionParams(2 * N + BoxOf(r1, c1));
    var i, j := BoxPos(r1, c1), BoxPos(r2, c2);
    assert i != j;
    var vs := RegionValues(g, p);
    assert vs[i] == g[r1][c1] && vs[j] == g[r2][c2];
  }

  /** If the grid obeys the Sudoku rule, every region passes. */
  lemma RegionsOfSolution(g: seq<seq<int>>)
    requires IsGrid(g) && IsSudokuSolution(g)
    ensures AllRegionsValid(g)
  {
    forall k | 0 <= k < NumThreads ensures ValidRegion(RegionValues(g, RegionParams(k))) {
      var p := RegionParams(k);
      var vs := RegionValues(g, p);
      forall i, j | 0 <= i < j < N ensures vs[i] != vs[j] {
        CellsDistinct(p, i, j);
        if p.kind == Subgrid {
          SubgridSameBox(p, i);
          SubgridSameBox(p, j);
        }
      }
    }
  }

  /** Every cell a subgrid worker reads lies in the box of its corner. */
  lemma SubgridSameBox(p: Parameters, i: int)
    requires p.kind == Subgrid && InBounds(p) && p.row % BoxSide == 0 && p.col % BoxSide == 0
    requires 0 <= i < N
    ensures Cell(p, i).0 / BoxSide == p.row / BoxSide && Cell(p, i).1 / BoxSide == p.col / BoxSide
  {
  }
}
