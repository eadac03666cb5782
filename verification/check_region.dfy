/**
 * The worker body: scan one row, column or subgrid with a local `seen`
 * table, stop at the first value that is out of range or repeated, and
 * record the outcome in the worker's own slot of the result board.
 */
module RegionCheck {
  import opened Grid
  import opened Regions

  /**
   * Checks the region `p` designates and writes 1 (accepted) or 0 (rejected)
   * to `valid[p.threadNum]`, touching no other slot. The grid is a value, so
   * the worker cannot change it. Leaving the thread early is an early return.
   */
  method CheckRegion(grid: seq<seq<int>>, p: Parameters, valid: array<int>)
    requires IsGrid(grid) && InBounds(p) && 0 <= p.threadNum < valid.Length
    modifies valid
    ensures valid[p.threadNum] == Outcome(grid, p)
    ensures forall i :: 0 <= i < valid.Length && i != p.threadNum ==> valid[i] == old(valid[i])
  {
    ghost var vs := RegionValues(grid, p);
    var seen := new bool[N + 1](_ => false);

    if p.kind == Row {
      for c := 0 to N
        invariant ValidRegion(vs[..c])
        invariant forall v :: 1 <= v <= N ==> (seen[v] <==> v in vs[..c])
        invariant unchanged(valid)
      {
        var num := grid[p.row][c];
        assert vs[..c + 1] == vs[..c] + [num];
        var unseen := Admit(seen, num, vs[..c]);
        if !unseen {
          ScanStep(vs, c);
          valid[p.threadNum] := 0;
          return;
        }
      }
    } else if p.kind == Column {
      for r := 0 to N
        invariant ValidRegion(vs[..r])
        invariant forall v :: 1 <= v <= N ==> (seen[v] <==> v in vs[..r])
        invariant unchanged(valid)
      {
        var num := grid[r][p.col];
        assert vs[..r + 1] == vs[..r] + [num];
        var unseen := Admit(seen, num, vs[..r]);
        if !unseen {
          ScanStep(vs, r);
          valid[p.threadNum] := 0;
          return;
        }
      }
    } else {
      ghost var k := 0;
      for r := p.row to p.row + BoxSide
        invariant k == BoxSide * (r - p.row)
        invariant ValidRegion(vs[..k])
        invariant forall v :: 1 <= v <= N ==> (seen[v] <==> v in vs[..k])
        invariant unchanged(valid)
      {
        for c := p.col to p.col + BoxSide
          invariant k == BoxSide * (r - p.row) + (c - p.col)
          invariant ValidRegion(vs[..k])
          invariant forall v :: 1 <= v <= N ==> (seen[v] <==> v in vs[..k])
          invariant unchanged(valid)
        {
          SubgridCell(p, r - p.row, c - p.col);
          var num := grid[r][c];
          assert vs[..k + 1] == vs[..k] + [num];
          var unseen := Admit(seen, num, vs[..k]);
          if !unseen {
            ScanStep(vs, k);
            valid[p.threadNum] := 0;
            return;
          }
          k := k + 1;
        }
      }
    }
    assert vs[..N] == vs;
    valid[p.threadNum] := 1;
  }

  /**
   * One cell of the scan: reject `num` if it is outside 1..9 or already
   * marked in `seen`, otherwise mark it. `seen[v]` holds exactly for the
   * values `v` accepted so far (`prefix`).
   */
  method Admit(seen: array<bool>, num: int, ghost prefix: seq<int>) returns (unseen: bool)
    requires seen.Length == N + 1 && ValidRegion(prefix)
    requires forall v :: 1 <= v <= N ==> (seen[v] <==> v in prefix)
    modifies seen
    ensures unseen <==> ValidRegion(prefix + [num])
    ensures unseen ==> forall v :: 1 <= v <= N ==> (seen[v] <==> v in prefix + [num])
    ensures !unseen ==> unchanged(seen)
  {
    ScanStep(prefix + [num], |prefix|);
    assert (prefix + [num])[..|prefix|] == prefix;
    if num < 1 || num > 9 || seen[num] {
      return false;
    }
    seen[num] := true;
    return true;
  }

  /** Cell (row + a, col + b) of a subgrid is the one scanned at step 3a + b. */
  lemma SubgridCell(p: Parameters, a: int, b: int)
    requires p.kind == Subgrid && InBounds(p)
    requires 0 <= a < BoxSide && 0 <= b < BoxSide
    ensures Cell(p, BoxSide * a + b) == (p.row + a, p.col + b)
  {
  }
}
