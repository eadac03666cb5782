# Sudoku solution validator, modelled in Dafny

The program checks a completed 9x9 Sudoku grid. Its main thread prepares 27
parameter records: nine rows, nine columns, and the nine 3x3 subgrids. It
starts one worker thread per record. Each worker scans the nine cells of its
region with a local `seen[1..9]` table. It stops at the first value that is
outside 1..9 or already seen, and writes 0 to its own slot of the shared
`valid[27]` array. If the scan finishes, it writes 1 there. After joining
all workers, the main thread ANDs the slots together, stopping at the first
0, and reports the grid VALID or INVALID.

The model has these files:

- `grid.dfy` (module `Grid`): the grid as a value, and the Sudoku rule stated
  directly on cells (`IsSudokuSolution`). This rule is an independent
  reference for the validator.
- `regions.dfy` (module `Regions`): the parameter record, the cell a worker
  reads at each step (`Cell`), the values of a region, and the acceptance
  condition `ValidRegion`. It also proves the pigeonhole fact that an
  accepted region is a permutation of 1..9.
- `check_region.dfy` (module `RegionCheck`): the worker body `CheckRegion`
  as an imperative method over the `seen` array and the `valid` array.
- `enumeration.dfy` (module `Enumeration`): the three launch loops that fill
  the parameter table, and the proof that every cell is read exactly three
  times.
- `orchestrator.dfy` (module `Orchestrator`): running the workers, the
  reduction with its early `break`, the whole run, and the theorem that the
  verdict is 1 exactly when the grid obeys the Sudoku rule.
- `scenarios.dfy` (module `Scenarios`): the grid compiled into the program,
  and three altered grids with the verdicts they get.

Modelling choices:

- The workers only read the grid, and each writes only `valid[thread_num]`.
  Running them concurrently therefore has the effect of running them one
  after another in the order the scheduler completes them. `Dispatch` and
  `Validate` take that order as a parameter (`schedule`), and their
  postconditions hold for every order. This is how the model states that
  the result board and the verdict do not depend on scheduling.
- `pthread_exit` inside a worker is an early `return`.
- The grid is a global array in the C program that no thread writes. Here it is
  an immutable `seq<seq<int>>` passed to every method, so "a worker never
  modifies the grid" holds by construction. `valid` is an `array<int>` that
  the methods update in place. `seen` is a fresh local `array<bool>`; the
  C program uses `int` entries holding 0 or 1. `params` is an
  `array<Parameters>`.
- The C program encodes the region kind as an `int` (0 row, 1 column, anything
  else subgrid). `main` only ever stores 0, 1 or 2. The model uses a
  three-constructor datatype.
- The shared per-cell test (`num < 1 || num > 9 || seen[num]`, then
  `seen[num] = 1`) appears three times in the C program. Here it is written
  once, as `Admit`. The write of 0 and the early return stay in
  `CheckRegion`.
- `valid` is zero-filled, so a slot no worker wrote reads as invalid. There
  is no separate "unknown" state and no error path for an unwritten slot.
  `Validate` starts from a zeroed board, and `IsSchedule` requires every
  worker to run.

## Model

| member | source | states |
|---|---|---|
| `Regions.Cell` | sudoku_validator.c:76-110 | The i-th cell a row, column or subgrid worker reads lies inside the 9x9 grid, for every in-bounds record; a subgrid corner in 0..6 keeps all of [row, row+3) x [col, col+3) inside. |
| `Regions.CellsDistinct` | sudoku_validator.c:76-110 | The nine steps of one worker read nine different cells. |
| `Regions.ValidRegionIsPermutation` | sudoku_validator.c:74-113 | For nine values, "every value in 1..9 and none repeated" (what a worker accepts) holds exactly when the values are a permutation of 1..9, in both directions. |
| `Regions.OutOfRangeInvalidates` | sudoku_validator.c:79-83 | A value below 1 or above 9 in any cell of a region makes the region invalid, whatever the other cells hold. |
| `Regions.RepeatInvalidates` | sudoku_validator.c:80-84 | Two cells of one region holding the same value make the region invalid. |
| `Regions.ScanStep` | sudoku_validator.c:80-84 | After k accepted values, the first k+1 are accepted exactly when value k is a digit not among the first k; otherwise the whole region is invalid. |
| `RegionCheck.CheckRegion` | sudoku_validator.c:72-115 | Writes 1 to `valid[thread_num]` if the region's nine values are all in 1..9 and pairwise distinct, and 0 otherwise. Every other slot is unchanged, and the grid cannot change. The loops keep `seen[v]` true exactly for the values accepted so far. |
| `RegionCheck.Admit` | sudoku_validator.c:80-84 | Rejects a value outside 1..9 or already marked in `seen`. Otherwise it marks the value. It accepts exactly when the prefix extended by the value is still valid, and then `seen` tracks the extended prefix. |
| `RegionCheck.SubgridCell` | sudoku_validator.c:100-102 | The nested subgrid loops visit cell (row+a, col+b) at scan step 3a+b, which is the step `Cell` assigns to it. |
| `Enumeration.RegionParams` | sudoku_validator.c:120-152 | Record k owns slot k (`thread_num == k`) and designates cells inside the grid. A subgrid record has its corner on multiples of 3. |
| `Enumeration.EnumerateRegions` | sudoku_validator.c:118-152 | The launch loops fill exactly 27 records. Records 0..8 are rows 0..8, records 9..17 are columns 0..8, and records 18..26 are the subgrids with corners (3*((k-18)/3), 3*((k-18)%3)). Each record carries its own index. |
| `Enumeration.CellsOfCell` | sudoku_validator.c:123-152 | Cell (r, c) is read by row worker r at step c, by column worker 9+c at step r, and by subgrid worker 18+BoxOf(r,c) at step BoxPos(r,c). |
| `Enumeration.StepOfCell` | sudoku_validator.c:123-152 | Conversely, the cell that worker k reads at step i determines both k and i, through the same three formulas. |
| `Enumeration.EveryCellVisitedThrice` | sudoku_validator.c:123-152 | Across the 27 workers, the (worker, step) pairs that read cell (r, c) are exactly three: one row worker, one column worker and one subgrid worker. |
| `Orchestrator.Dispatch` | sudoku_validator.c:122-157 | Running every worker, in any order that includes each of them, leaves slot k holding the outcome of record k's region, for all 27 slots. |
| `Orchestrator.Aggregate` | sudoku_validator.c:159-166 | Returns 0 if some slot of `valid` holds 0, and 1 otherwise. The early `break` gives the same result as reading every slot. |
| `Orchestrator.BoardVerdict` | sudoku_validator.c:159-166 | A board whose slot k holds the outcome of region k contains no 0 exactly when all 27 regions are valid. |
| `Orchestrator.Validate` | sudoku_validator.c:117-171 | The verdict is 1 iff every one of the 27 regions is valid, iff the grid obeys the Sudoku rule. It does not depend on the order the workers run in. |
| `Orchestrator.AllRegionsValidIffSolution` | sudoku_validator.c:160-171 | The 27 region checks pass together if and only if every cell holds a digit and no digit repeats in any row, column or box. |
| `Scenarios.SudokuIsSolved` | sudoku_validator.c:48-58 | The compiled-in grid obeys the Sudoku rule, and each of the 27 workers stores 1 for it. |
| `Scenarios.RepeatInRowIsCaught` | sudoku_validator.c:79-84 | With cell (0,0) changed from 6 to 2, row worker 0 stores 0 and the grid is not a solution. |
| `Scenarios.OutOfRangeIsCaught` | sudoku_validator.c:79-83 | With cell (4,4) changed from 4 to 0, the workers for row 4, column 4 and the centre box all store 0. |
| `Scenarios.RepeatInColumnAndBoxIsCaught` | sudoku_validator.c:100-106 | With cell (8,8) changed from 6 to 9, the workers for row 8, column 8 (slot 17) and the bottom-right box (slot 26) all store 0. |

## Left out

- Thread creation and joining (`pthread_create`, `pthread_join`) are left
  out as concurrency plumbing. Because writes go to disjoint slots and the
  grid is read-only, running the workers sequentially in a scheduler-chosen
  order (`Dispatch`) captures every outcome. Thread handles, thread
  failure and interleavings finer than a worker's single write to
  `valid[]` are not modelled.
- Printing "Sudoku solution is VALID." or "... INVALID." and the process
  exit status 0 are I/O. The model returns the verdict as the `int` the
  C program computes (`all_valid`).
- The globals `sudoku` and `valid` become method parameters: a grid value,
  and an array that `Validate` allocates and zero-fills.
- C `int` width is not modelled. Grid values are only compared, never
  computed with, and indices stay below 27, so no overflow can occur.
- A record with a row or column index outside the grid, which `main` never
  builds, is excluded by `InBounds`. In the C program it would read out of
  bounds.
