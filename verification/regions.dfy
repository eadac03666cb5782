/**
 * Regions of the grid: the parameter record handed to each worker, the nine
 * cells a record designates, and when the values of a region are acceptable.
 */
module Regions {
  import opened Grid

  /** The three shapes of region (`type` 0, 1 and 2 in the C program). */
  datatype RegionKind = Row | Column | Subgrid

  /**
   * The per-worker parameter record: the slot of the result board it owns,
   * the kind of region, and the row/column it designates (for a subgrid,
   * the top-left corner).
   */
  datatype Parameters = Parameters(threadNum: int, kind: RegionKind, row: int, col: int)

  /**
   * The record designates cells inside the grid: a row or column index in
   * 0..8, or a subgrid whose three rows and three columns fit in the grid.
   * A row record ignores `col`, a column record ignores `row`.
   */
  predicate InBounds(p: Parameters)
  {
    match p.kind
    case Row => 0 <= p.row < N
    case Column => 0 <= p.col < N
    case Subgrid => 0 <= p.row <= N - BoxSide && 0 <= p.col <= N - BoxSide
  }

  /**
   * The i-th cell the worker reads, in scan order: left to right along a row,
   * top to bottom along a column, row-major inside a subgrid.
   * Every such cell lies inside the grid.
   */
  function Cell(p: Parameters, i: int): (rc: (int, int))
    requires InBounds(p) && 0 <= i < N
    ensures 0 <= rc.0 < N && 0 <= rc.1 < N
  {
    match p.kind
    case Row => (p.row, i)
    case Column => (i, p.col)
    case Subgrid => (p.row + i / BoxSide, p.col + i % BoxSide)
  }

  /** The nine values of the region, in scan order. */
  ghost function RegionValues(g: seq<seq<int>>, p: Parameters): (vs: seq<int>)
    requires IsGrid(g) && InBounds(p)
    ensures |vs| == N
  {
    seq(N, i requires 0 <= i < N => g[Cell(p, i).0][Cell(p, i).1])
  }

  /** No value occurs twice. */
  predicate Distinct(s: seq<int>)
  {
    forall i, j :: 0 <= i < j < |s| ==> s[i] != s[j]
  }

  /** What a worker accepts: every value is a digit and no value repeats. */
  predicate ValidRegion(vs: seq<int>)
  {
    (forall i :: 0 <= i < |vs| ==> IsDigit(vs[i])) && Distinct(vs)
  }

  /** The value a worker stores in its slot of the result board. */
  ghost function Outcome(g: seq<seq<int>>, p: Parameters): (r: int)
    requires IsGrid(g) && InBounds(p)
  {
    if ValidRegion(RegionValues(g, p)) then 1 else 0
  }

  /** The digits 1 to 9, once each. */
  const Digits: seq<int> := seq(N, i => i + 1)

  /** The nine cells of one region are nine different cells. */
  lemma CellsDistinct(p: Parameters, i: int, j: int)
    requires InBounds(p) && 0 <= i < j < N
    ensures Cell(p, i) != Cell(p, j)
  {
  }

  /**
   * Pigeonhole: nine values that are all digits and pairwise distinct are
   * exactly the digits 1..9 in some order, and conversely.
   */
  lemma ValidRegionIsPermutation(vs: seq<int>)
    requires |vs| == N
    ensures ValidRegion(vs) <==> multiset(vs) == multiset(Digits)
  {
    if ValidRegion(vs) {
      PermutationOfValid(vs);
    }
    if multiset(vs) == multiset(Digits) {
      ValidOfPermutation(vs);
    }
  }

  /** Nine distinct digits hold each digit exactly once. */
  lemma PermutationOfValid(vs: seq<int>)
    requires |vs| == N && ValidRegion(vs)
    ensures multiset(vs) == multiset(Digits)
  {
    DigitCounts();
    DistinctCounts(vs);
    DigitsCovered(vs);
    forall v ensures multiset(vs)[v] == multiset(Digits)[v] {
      if IsDigit(v) {
        assert v in vs;
      } else {
        assert v !in vs;
      }
    }
  }

  /** A rearrangement of 1..9 holds only digits, none twice. */
  lemma ValidOfPermutation(vs: seq<int>)
    requires multiset(vs) == multiset(Digits)
    ensures ValidRegion(vs)
  {
    DigitCounts();
    forall i | 0 <= i < |vs| ensures IsDigit(vs[i]) {
      assert vs[i] in multiset(vs);
    }
    forall i, j | 0 <= i < j < |vs| ensures vs[i] != vs[j] {
      if vs[i] == vs[j] {
        RepeatCountsTwice(vs, i, j);
      }
    }
  }

  /** Each digit occurs once in Digits, and nothing else occurs. */
  lemma DigitCounts()
    ensures forall v :: multiset(Digits)[v] == if IsDigit(v) then 1 else 0
  {
    DistinctCounts(Digits);
    DigitsMembers();
  }

  /** The members of Digits are exactly 1..9. */
  lemma DigitsMembers()
    ensures forall v :: v in Digits <==> IsDigit(v)
  {
    forall v | IsDigit(v) ensures v in Digits {
      assert Digits[v - 1] == v;
    }
  }

  /** In a sequence without repeats every member occurs exactly once. */
  lemma {:induction false} DistinctCounts(s: seq<int>)
    requires Distinct(s)
    ensures forall v :: multiset(s)[v] == if v in s then 1 else 0
  {
    if s != [] {
      assert s == [s[0]] + s[1..];
      DistinctCounts(s[1..]);
      assert s[0] !in s[1..];
    }
  }

  /** A value that occurs at two positions occurs at least twice. */
  lemma RepeatCountsTwice(s: seq<int>, i: int, j: int)
    requires 0 <= i < j < |s| && s[i] == s[j]
    ensures multiset(s)[s[i]] >= 2
  {
    assert s == s[..j] + s[j..];
    assert s[i] in s[..j];
    assert s[j..] == [s[j]] + s[j + 1..];
  }

  /** Nine distinct digits leave none of 1..9 out. */
  lemma {:induction false} DigitsCovered(vs: seq<int>)
    requires |vs| == N && ValidRegion(vs)
    ensures forall v :: 1 <= v <= N ==> v in vs
  {
    var present := Elements(vs);
    var all := Elements(Digits);
    DistinctCard(vs);
    DistinctCard(Digits);
    DigitsMembers();
    forall v | v in present ensures v in all {
      assert IsDigit(v);
    }
    assert |all - present| == |all| - |present|;
    assert all - present == {};
    forall v | 1 <= v <= N ensures v in vs {
      assert v in all;
      assert v in present;
    }
  }

  /** A sequence without repeats has as many distinct members as positions. */
  lemma {:induction false} DistinctCard(s: seq<int>)
    requires Distinct(s)
    ensures |Elements(s)| == |s|
  {
    if s != [] {
      assert s == [s[0]] + s[1..];
      DistinctCard(s[1..]);
      assert Elements(s) == {s[0]} + Elements(s[1..]);
      assert s[0] !in Elements(s[1..]);
    }
  }

  /** The set of members of a sequence. */
  ghost function Elements(s: seq<int>): set<int>
  {
    set x | x in s
  }

  /** A cell outside 1..9 makes its whole region invalid, whatever else it holds. */
  lemma OutOfRangeInvalidates(g: seq<seq<int>>, p: Parameters, i: int)
    requires IsGrid(g) && InBounds(p) && 0 <= i < N
    requires !IsDigit(g[Cell(p, i).0][Cell(p, i).1])
    ensures !ValidRegion(RegionValues(g, p))
  {
    assert RegionValues(g, p)[i] == g[Cell(p, i).0][Cell(p, i).1];
  }

  /** Two cells of one region holding the same value make the region invalid. */
  lemma RepeatInvalidates(g: seq<seq<int>>, p: Parameters, i: int, j: int)
    requires IsGrid(g) && InBounds(p) && 0 <= i < j < N
    requires g[Cell(p, i).0][Cell(p, i).1] == g[Cell(p, j).0][Cell(p, j).1]
    ensures !ValidRegion(RegionValues(g, p))
  {
    var vs := RegionValues(g, p);
    assert vs[i] == vs[j];
  }

  /**
   * One step of the scan. If the first k values were accepted, the first
   * k + 1 are accepted exactly when value k is a digit not seen before;
   * otherwise the whole region is invalid.
   */
  lemma ScanStep(vs: seq<int>, k: int)
    requires 0 <= k < |vs| && ValidRegion(vs[..k])
    ensures vs[..k + 1] == vs[..k] + [vs[k]]
    ensures ValidRegion(vs[..k + 1]) <==> IsDigit(vs[k]) && vs[k] !in vs[..k]
    ensures !(IsDigit(vs[k]) && vs[k] !in vs[..k]) ==> !ValidRegion(vs)
  {
    assert vs[..k + 1] == vs[..k] + [vs[k]];
    if vs[k] in vs[..k] {
      var i :| 0 <= i < k && vs[i] == vs[k];
      assert vs[..k + 1][i] == vs[..k + 1][k];
    }
  }
}
