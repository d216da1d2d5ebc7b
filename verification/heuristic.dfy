/**
 * The Manhattan-distance heuristic: for every tile (not the blank), the number
 * of rows plus the number of columns between its cell and its cell in the goal.
 */
module Heuristic {
  import opened Grid
  import opened Board
  import opened Moves

  /**
   * The distance of tile `v`, standing at index `i`, from where `goal` has it;
   * the blank costs nothing. A tile the goal lacks is measured against index -1,
   * as `indexOf` reports it.
   */
  function TileCost(v: int, i: int, goal: seq<int>, d: nat): nat
    requires d >= 1
  {
    if v == Blank then 0
    else
      var gi := IndexOf(goal, v);
      Abs(Row(i, d) - Row(gi, d)) + Abs(Col(i, d) - Col(gi, d))
  }

  /** The summed cost of the first `n` cells of `s`. */
  function CostPrefix(s: seq<int>, goal: seq<int>, d: nat, n: nat): nat
    requires d >= 1 && n <= |s|
  {
    if n == 0 then 0 else CostPrefix(s, goal, d, n - 1) + TileCost(s[n - 1], n - 1, goal, d)
  }

  /** `manhattanDistance(state, goalState)` on a board of side `d`. */
  function Manhattan(s: Board, goal: seq<int>, d: nat): (r: nat)
    requires |s| == d * d
    ensures d >= 1 ==> (r == 0 <==> forall i :: 0 <= i < |s| ==> TileCost(s[i], i, goal, d) == 0)
  {
    if d == 0 then 0
    else
      CostPrefixZero(s, goal, d, |s|);
      CostPrefix(s, goal, d, |s|)
  }

  /** Changing one cell changes the sum by exactly the change of that cell's cost. */
  lemma {:induction false} CostPrefixOneChanged(s: seq<int>, k: nat, v: int, goal: seq<int>, d: nat, n: nat)
    requires d >= 1 && k < |s| && n <= |s|
    ensures CostPrefix(s[k := v], goal, d, n) ==
      CostPrefix(s, goal, d, n) + (if k < n then TileCost(v, k, goal, d) - TileCost(s[k], k, goal, d) else 0)
  {
    if n > 0 {
      CostPrefixOneChanged(s, k, v, goal, d, n - 1);
    }
  }

  /** Exchanging two cells changes the sum by exactly the change of those two cells' costs. */
  lemma CostPrefixSwapped(s: seq<int>, k: nat, p: nat, goal: seq<int>, d: nat)
    requires d >= 1 && k < |s| && p < |s| && k != p
    ensures var t := s[k := s[p]][p := s[k]];
      CostPrefix(t, goal, d, |s|) ==
        CostPrefix(s, goal, d, |s|)
        + (TileCost(s[p], k, goal, d) - TileCost(s[k], k, goal, d))
        + (TileCost(s[k], p, goal, d) - TileCost(s[p], p, goal, d))
  {
    var u := s[k := s[p]];
    CostPrefixOneChanged(s, k, s[p], goal, d, |s|);
    CostPrefixOneChanged(u, p, s[k], goal, d, |s|);
  }

  /** The sum is zero exactly when every cell costs nothing. */
  lemma {:induction false} CostPrefixZero(s: seq<int>, goal: seq<int>, d: nat, n: nat)
    requires d >= 1 && n <= |s|
    ensures CostPrefix(s, goal, d, n) == 0 <==> forall i :: 0 <= i < n ==> TileCost(s[i], i, goal, d) == 0
  {
    if n > 0 {
      CostPrefixZero(s, goal, d, n - 1);
    }
  }

  /**
   * Consistency: one move changes the heuristic by exactly one, up or down,
   * whatever the goal. Only the moved tile changes cost, and it moved one row
   * or one column.
   */
  lemma ManhattanStep(b: Board, c: Board, goal: seq<int>, d: nat)
    requires Step(b, c, d) && OneBlank(b)
    ensures |c| == d * d
    ensures Manhattan(c, goal, d) == Manhattan(b, goal, d) + 1
         || Manhattan(b, goal, d) == Manhattan(c, goal, d) + 1
  {
    MovableHasSide(b, d);
    var dir := StepMovesBlank(b, c, d);
    var k, p := FindBlank(b), Target(b, d, dir);
    assert 0 <= k < |b| && p != k && c == Swap(b, k, p) && Moved(k, p, d, dir) by {
      TargetIndex(b, d, dir);
      assert Row(p, d) != Row(k, d) || Col(p, d) != Col(k, d);
    }
    var v := b[p];
    assert v != Blank;
    assert c[k] == v && c[p] == Blank;
    var delta := TileCost(v, k, goal, d) - TileCost(v, p, goal, d);
    assert delta == 1 || delta == -1 by {
      TileCostShift(v, k, p, goal, d, dir);
    }
    assert Manhattan(c, goal, d) == Manhattan(b, goal, d) + delta by {
      CostPrefixSwapped(b, k, p, goal, d);
    }
  }

  /** The blank at `k` moved in `dir` lands on `p`. */
  predicate Moved(k: int, p: int, d: nat, dir: Direction)
    requires d >= 1
  {
    Row(p, d) == Row(k, d) + dir.DeltaRow() && Col(p, d) == Col(k, d) + dir.DeltaCol()
  }

  /** A tile moved one row or one column costs one more or one less. */
  lemma TileCostShift(v: int, k: int, p: int, goal: seq<int>, d: nat, dir: Direction)
    requires d >= 1 && v != Blank && Moved(k, p, d, dir)
    ensures TileCost(v, p, goal, d) == TileCost(v, k, goal, d) + 1
         || TileCost(v, k, goal, d) == TileCost(v, p, goal, d) + 1
  {
    var gi := IndexOf(goal, v);
    UnitShift(Row(k, d), Col(k, d), Row(gi, d), Col(gi, d), dir);
  }

  /** Moving a tile one row or one column changes its distance to any fixed cell by one. */
  lemma UnitShift(row: int, col: int, goalRow: int, goalCol: int, dir: Direction)
    ensures var before := Abs(row - goalRow) + Abs(col - goalCol);
      var after := Abs(row + dir.DeltaRow() - goalRow) + Abs(col + dir.DeltaCol() - goalCol);
      after == before + 1 || before == after + 1
  {
  }

  /** In the goal, tile `v` sits at index v-1. */
  lemma GoalIndex(d: nat, v: int)
    requires d >= 1 && 1 <= v < d * d
    ensures IndexOf(Goal(d), v) == v - 1
  {
    assert Goal(d)[v - 1] == v;
  }

  /**
   * The heuristic vanishes exactly on the goal: it is 0 for the goal, and a
   * well-formed board at distance 0 is the goal.
   */
  lemma ManhattanZeroIffGoal(s: Board, d: nat)
    requires WellFormed(s, d)
    ensures Manhattan(s, Goal(d), d) == 0 <==> s == Goal(d)
  {
    var g := Goal(d);
    var n := d * d;
    CostPrefixZero(s, g, d, n);
    if s == g {
      forall i | 0 <= i < n
        ensures TileCost(s[i], i, g, d) == 0
      {
        if i < n - 1 {
          GoalIndex(d, i + 1);
        }
      }
    }
    if Manhattan(s, g, d) == 0 {
      forall i | 0 <= i < n && s[i] != Blank
        ensures s[i] == g[i]
      {
        TileHome(s, d, i);
      }
      BlankHome(s, d);
      assert s == g;
    }
  }

  /** When every tile of a well-formed board is home, so is the blank. */
  lemma BlankHome(s: Board, d: nat)
    requires WellFormed(s, d)
    requires forall i :: 0 <= i < |s| && s[i] != Blank ==> s[i] == Goal(d)[i]
    ensures forall i :: 0 <= i < |s| ==> s[i] == Goal(d)[i]
  {
    var g := Goal(d);
    var n := |s|;
    forall i | 0 <= i < n - 1
      ensures s[i] == g[i]
    {
      assert g[i] in multiset(s);
      var j :| 0 <= j < n && s[j] == g[i];
    }
    assert s[..n - 1] == g[..n - 1];
    assert s == s[..n - 1] + [s[n - 1]];
    assert g == g[..n - 1] + [g[n - 1]];
  }

  /** A tile of a well-formed board that costs nothing stands where the goal has it. */
  lemma TileHome(s: Board, d: nat, i: int)
    requires WellFormed(s, d) && 0 <= i < |s| && s[i] != Blank
    requires TileCost(s[i], i, Goal(d), d) == 0
    ensures s[i] == Goal(d)[i]
  {
    var g := Goal(d);
    var v := s[i];
    assert v in multiset(g);
    var gi := IndexOf(g, v);
    CellOf(i, d);
    CellOf(gi, d);
  }

  /** Moves only rearrange cells: every board on a path has the length and the cells of the first. */
  lemma {:induction false} PathMultiset(p: seq<Board>, d: nat, j: nat)
    requires IsPath(p, d) && j < |p|
    ensures |p[j]| == |p[0]| && multiset(p[j]) == multiset(p[0])
  {
    if j > 0 {
      PathMultiset(p, d, j - 1);
      assert Step(p[j - 1], p[j], d);
    }
  }

  /** Every board on a path from a well-formed board is well formed. */
  lemma {:induction false} PathWellFormed(p: seq<Board>, d: nat, j: nat)
    requires IsPath(p, d) && WellFormed(p[0], d) && j < |p|
    ensures WellFormed(p[j], d)
  {
    if j > 0 {
      PathWellFormed(p, d, j - 1);
      assert Step(p[j - 1], p[j], d);
    }
  }

  /**
   * Admissibility: the heuristic never exceeds the number of moves left on any
   * path to the goal, because each move lowers it by at most one and it is 0 at
   * the goal.
   */
  lemma {:induction false} ManhattanAdmissible(p: seq<Board>, d: nat, j: nat)
    requires IsPath(p, d) && WellFormed(p[0], d) && Last(p) == Goal(d) && j < |p|
    ensures |p[j]| == d * d
    ensures Manhattan(p[j], Goal(d), d) <= |p| - 1 - j
    decreases |p| - j
  {
    PathWellFormed(p, d, j);
    if j == |p| - 1 {
      ManhattanZeroIffGoal(p[j], d);
    } else {
      ManhattanAdmissible(p, d, j + 1);
      assert Step(p[j], p[j + 1], d);
      WellFormedOneBlank(p[j], d);
      ManhattanStep(p[j], p[j + 1], Goal(d), d);
    }
  }
}
