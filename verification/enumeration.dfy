/**
 * The 27 parameter records the main thread prepares before starting the
 * workers: nine rows, then nine columns, then the nine subgrids in
 * row-major order of their top-left corners.
 */
module Enumeration {
  import opened Grid
  import opened Regions

  /** Number of workers, one per region (`NUM_THREADS` in the C program). */
  const NumThreads: int := 27

  /**
   * The record stored at index k. Each record owns the slot of the result
   * board with its own index, designates cells inside the grid, and a
   * subgrid's corner lies on a multiple of 3 in both directions.
   */
  function RegionParams(k: int): (p: Parameters)
    requires 0 <= k < NumThreads
    ensures p.threadNum == k && InBounds(p)
    ensures p.kind == Subgrid ==> p.row % BoxSide == 0 && p.col % BoxSide == 0
  {
    if k < N then Parameters(k, Row, k, 0)
    else if k < 2 * N then Parameters(k, Column, 0, k - N)
    else Parameters(k, Subgrid, BoxSide * ((k - 2 * N) / BoxSide), BoxSide * ((k - 2 * N) % BoxSide))
  }

  /**
   * Fills the parameter table with a running index, as the three launch
   * loops of the main thread do; the result is the table of RegionParams.
   */
  method EnumerateRegions() returns (params: array<Parameters>)
    ensures fresh(params) && params.Length == NumThreads
    ensures forall k :: 0 <= k < NumThreads ==> params[k] == RegionParams(k)
  {
    params := new Parameters[NumThreads];
    var threadIdx := 0;
    for i := 0 to N
      invariant threadIdx == i
      invariant forall k :: 0 <= k < threadIdx ==> params[k] == RegionParams(k)
    {
      params[threadIdx] := Parameters(threadIdx, Row, i, 0);
      threadIdx := threadIdx + 1;
    }
    for i := 0 to N
      invariant threadIdx == N + i
      invariant forall k :: 0 <= k < threadIdx ==> params[k] == RegionParams(k)
    {
      params[threadIdx] := Parameters(threadIdx, Column, 0, i);
      threadIdx := threadIdx + 1;
    }
    var row := 0;
    while row < N
      invariant 0 <= row <= N && row % BoxSide == 0
      invariant threadIdx == 2 * N + row
      invariant forall k :: 0 <= k < threadIdx ==> params[k] == RegionParams(k)
    {
      var col := 0;
      while col < N
        invariant 0 <= col <= N && col % BoxSide == 0
        invariant threadIdx == 2 * N + row + col / BoxSide
        invariant forall k :: 0 <= k < threadIdx ==> params[k] == RegionParams(k)
      {
        SplitThrees(row / BoxSide, col / BoxSide);
        params[threadIdx] := Parameters(threadIdx, Subgrid, row, col);
        threadIdx := threadIdx + 1;
        col := col + BoxSide;
      }
      row := row + BoxSide;
    }
  }

  /** Index of the subgrid holding cell (r, c), in row-major order. */
  function BoxOf(r: int, c: int): (b: int)
    requires 0 <= r < N && 0 <= c < N
  {
    BoxSide * (r / BoxSide) + c / BoxSide
  }

  /** Position of cell (r, c) in the scan of its subgrid. */
  function BoxPos(r: int, c: int): (i: int)
    requires 0 <= r < N && 0 <= c < N
  {
    BoxSide * (r % BoxSide) + c % BoxSide
  }

  /**
   * Cell (r, c) is read by its row's worker at step c, by its column's
   * worker at step r, and by its subgrid's worker at step BoxPos(r, c).
   */
  lemma CellsOfCell(r: int, c: int)
    requires 0 <= r < N && 0 <= c < N
    ensures RegionParams(r).kind == Row && Cell(RegionParams(r), c) == (r, c)
    ensures RegionParams(N + c).kind == Column && Cell(RegionParams(N + c), r) == (r, c)
    ensures 0 <= BoxOf(r, c) < N && 0 <= BoxPos(r, c) < N
    ensures RegionParams(2 * N + BoxOf(r, c)).kind == Subgrid
    ensures Cell(RegionParams(2 * N + BoxOf(r, c)), BoxPos(r, c)) == (r, c)
  {
    SplitThrees(r / BoxSide, c / BoxSide);
    SplitThrees(r % BoxSide, c % BoxSide);
  }

  /** A number below 9 written as 3a + b with a, b below 3 gives back a and b. */
  lemma SplitThrees(a: int, b: int)
    requires 0 <= a < BoxSide && 0 <= b < BoxSide
    ensures (BoxSide * a + b) / BoxSide == a && (BoxSide * a + b) % BoxSide == b
  {
  }

  /**
   * Conversely, the only worker steps that read cell (r, c) are those
   * three: a step of worker k reading a cell determines k and the step.
   */
  lemma StepOfCell(k: int, i: int)
    requires 0 <= k < NumThreads && 0 <= i < N
    ensures var rc := Cell(RegionParams(k), i);
      if k < N then k == rc.0 && i == rc.1
      else if k < 2 * N then k == N + rc.1 && i == rc.0
      else k == 2 * N + BoxOf(rc.0, rc.1) && i == BoxPos(rc.0, rc.1)
  {
    if k >= 2 * N {
      var b := k - 2 * N;
      var rc := Cell(RegionParams(k), i);
      assert rc == (BoxSide * (b / BoxSide) + i / BoxSide, BoxSide * (b % BoxSide) + i % BoxSide);
      SplitThrees(b / BoxSide, i / BoxSide);
      SplitThrees(b % BoxSide, i % BoxSide);
    }
  }

  /** The (worker, step) pairs over all 27 workers that read cell (r, c). */
  ghost function Visits(r: int, c: int): set<(int, int)>
  {
    set k, i | 0 <= k < NumThreads && 0 <= i < N && Cell(RegionParams(k), i) == (r, c) :: (k, i)
  }

  /**
   * Every cell of the grid is read exactly three times across the 27
   * workers: once by a row worker, once by a column worker, once by a
   * subgrid worker.
   */
  lemma EveryCellVisitedThrice(r: int, c: int)
    requires 0 <= r < N && 0 <= c < N
    ensures Visits(r, c) == {(r, c), (N + c, r), (2 * N + BoxOf(r, c), BoxPos(r, c))}
    ensures |Visits(r, c)| == 3
    ensures RegionParams(r).kind == Row
    ensures RegionParams(N + c).kind == Column
    ensures RegionParams(2 * N + BoxOf(r, c)).kind == Subgrid
  {
    CellsOfCell(r, c);
    var expected := {(r, c), (N + c, r), (2 * N + BoxOf(r, c), BoxPos(r, c))};
    forall ki | ki in Visits(r, c) ensures ki in expected {
      StepOfCell(ki.0, ki.1);
    }
    assert (r, c) in Visits(r, c);
    assert (N + c, r) in Visits(r, c);
    assert (2 * N + BoxOf(r, c), BoxPos(r, c)) in Visits(r, c);
    assert Visits(r, c) == expected;
  }
}
