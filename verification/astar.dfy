/**
 * `aStarSolver` and its helpers: picking the open board of least `f`, walking
 * the predecessor links back from the goal, and the search loop. The page
 * calls it with the ordered goal board (`Solve`).
 */
module AStar {
  import opened Board
  import opened Moves
  import opened Heuristic
  import opened Search

  /**
   * What a search ends with: a path (the page's non-empty array), no solution
   * (its empty array, once the open list is exhausted), or, in this model only,
   * the iteration budget used up.
   */
  datatype Outcome = Found(path: seq<Board>) | NoSolution | OutOfFuel

  /**
   * The frontier pick `openSet.reduce((a, b) => f(a) < f(b) ? a : b)`: a board
   * of least `f`, and of those the last, since a tie hands the pick to `b`.
   */
  method SelectCurrent(open: seq<Board>, f: map<Board, int>) returns (i: nat)
    requires |open| > 0
    requires forall j :: 0 <= j < |open| ==> open[j] in f
    ensures i < |open|
    ensures forall j :: 0 <= j < |open| ==> f[open[i]] <= f[open[j]]
    ensures forall j :: i < j < |open| ==> f[open[i]] < f[open[j]]
  {
    i := 0;
    var j := 1;
    while j < |open|
      invariant 1 <= j <= |open| && i < j
      invariant forall t :: 0 <= t < j ==> f[open[i]] <= f[open[t]]
      invariant forall t :: i < t < j ==> f[open[i]] < f[open[t]]
    {
      if !(f[open[i]] < f[open[j]]) {
        i := j;
      }
      j := j + 1;
    }
  }

  /** Each board of `path` after the first was reached from the board before it. */
  predicate Linked(cameFrom: map<Board, Board>, path: seq<Board>)
  {
    forall j :: 1 <= j < |path| ==> path[j] in cameFrom && path[j - 1] == cameFrom[path[j]]
  }

  /**
   * `reconstructPath`: follow `cameFrom` back from `current` until a board with
   * no predecessor, and return the boards in forward order. Recorded costs fall
   * strictly along every link, which is why the walk ends.
   */
  method ReconstructPath(cameFrom: map<Board, Board>, current: Board, ghost g: map<Board, nat>)
    returns (path: seq<Board>)
    requires current in g
    requires forall n :: n in cameFrom ==> n in g && cameFrom[n] in g && g[cameFrom[n]] < g[n]
    ensures |path| >= 1 && Last(path) == current
    ensures path[0] !in cameFrom
    ensures Linked(cameFrom, path)
    ensures forall j :: 0 <= j < |path| ==> path[j] in g
    ensures g[path[0]] + |path| - 1 <= g[current]
  {
    path := [current];
    var node := current;
    while node in cameFrom
      invariant |path| >= 1 && path[0] == node && Last(path) == current
      invariant node in g
      invariant Linked(cameFrom, path)
      invariant forall j :: 0 <= j < |path| ==> path[j] in g
      invariant g[node] + |path| - 1 <= g[current]
      decreases g[node]
    {
      node := cameFrom[node];
      path := [node] + path;
    }
  }

  /**
   * `aStarSolver(initial, goal)` on boards of side `d`, allowed at most `fuel`
   * expansions. A found path runs from the start to the goal by legal moves,
   * and is a shortest one when the goal is the ordered board; no solution means
   * no path reaches the goal at all.
   */
  method Solver(initial: Board, goal: seq<int>, d: nat, fuel: nat) returns (r: Outcome)
    requires Movable(initial, d)
    ensures initial == goal && fuel >= 1 ==> r == Found([initial])
    ensures r.Found? ==> IsPath(r.path, d) && r.path[0] == initial && Last(r.path) == goal
    ensures r.Found? && d >= 1 && goal == Goal(d) ==>
      forall p :: IsPath(p, d) && p[0] == initial && Last(p) == goal ==> |r.path| <= |p|
    ensures r.NoSolution? ==> forall p :: IsPath(p, d) && p[0] == initial ==> Last(p) != goal
  {
    var st := Start(initial, goal, d);
    StartValid(initial, goal, d);
    var budget := fuel;
    while st.open != []
      invariant Valid(st, initial, goal, d) && Closed(st, d)
      invariant initial == goal ==> st.open == [initial] && budget == fuel
      decreases budget
    {
      if budget == 0 {
        return OutOfFuel;
      }
      var i := SelectCurrent(st.open, st.f);
      var current := st.open[i];
      if current == goal {
        var path := ReconstructPath(st.cameFrom, current, st.g);
        FoundPath(st, initial, goal, d, path);
        if d >= 1 && goal == Goal(d) {
          PathMultiset(path, d, |path| - 1);
          FoundShortest(st, initial, d, path);
        }
        return Found(path);
      }
      st := Advance(st, i, initial, goal, d);
      budget := budget - 1;
    }
    ExhaustedUnreachable(st, initial, goal, d);
    return NoSolution;
  }

  /** One iteration that does not pick the goal: `Expand`, which keeps the invariants. */
  method Advance(st: State, i: nat, ghost initial: Board, goal: seq<int>, d: nat) returns (next: State)
    requires Valid(st, initial, goal, d) && Closed(st, d)
    requires i < |st.open| && st.open[i] != goal
    ensures Valid(next, initial, goal, d) && Closed(next, d)
  {
    ExpandValid(st, i, initial, goal, d);
    next := Expand(st, i, goal, d);
  }

  /** The path read back from the predecessor links is a path of legal moves from the start. */
  lemma FoundPath(st: State, initial: Board, goal: seq<int>, d: nat, path: seq<Board>)
    requires Valid(st, initial, goal, d)
    requires |path| >= 1 && path[0] !in st.cameFrom
    requires Linked(st.cameFrom, path)
    requires forall j :: 0 <= j < |path| ==> path[j] in st.g
    ensures IsPath(path, d) && path[0] == initial
  {
    forall j | 0 <= j < |path| - 1
      ensures Step(path[j], path[j + 1], d)
    {
      assert path[j + 1] in st.cameFrom && path[j] == st.cameFrom[path[j + 1]];
    }
  }

  /**
   * A path read back from the goal, picked with least `f`, is no longer than
   * any path of moves from the start to the goal.
   */
  lemma FoundShortest(st: State, initial: Board, d: nat, path: seq<Board>)
    requires WellFormed(initial, d)
    requires Valid(st, initial, Goal(d), d) && Closed(st, d)
    requires Goal(d) in st.open
    requires forall j :: 0 <= j < |st.open| ==> st.f[Goal(d)] <= st.f[st.open[j]]
    requires |path| >= 1 && path[0] in st.g && Goal(d) in st.g
    requires st.g[path[0]] + |path| - 1 <= st.g[Goal(d)]
    ensures forall p :: IsPath(p, d) && p[0] == initial && Last(p) == Goal(d) ==> |path| <= |p|
  {
    forall p | IsPath(p, d) && p[0] == initial && Last(p) == Goal(d)
      ensures |path| <= |p|
    {
      GoalPickedIsCheapest(st, initial, d, p);
    }
  }

  /** With the open list exhausted, no path of moves from the start reaches the goal. */
  lemma ExhaustedUnreachable(st: State, initial: Board, goal: seq<int>, d: nat)
    requires Valid(st, initial, goal, d) && Closed(st, d) && st.open == []
    ensures forall p :: IsPath(p, d) && p[0] == initial ==> Last(p) != goal
  {
    forall p | IsPath(p, d) && p[0] == initial
      ensures Last(p) != goal
    {
      ExhaustedReachesAll(st, initial, goal, d, p, |p| - 1);
    }
  }

  /**
   * `solvePuzzle`: search from the current board to the ordered board
   * `[1, ..., d*d-1, blank]`. The number of moves shown is the path length
   * minus one.
   */
  method Solve(initial: Board, d: nat, fuel: nat) returns (r: Outcome)
    requires d >= 1 && Movable(initial, d)
    ensures initial == Goal(d) && fuel >= 1 ==> r == Found([initial])
    ensures r.Found? ==> IsPath(r.path, d) && r.path[0] == initial && Last(r.path) == Goal(d)
    ensures r.Found? ==>
      forall p :: IsPath(p, d) && p[0] == initial && Last(p) == Goal(d) ==> |r.path| <= |p|
    ensures r.NoSolution? ==> forall p :: IsPath(p, d) && p[0] == initial ==> Last(p) != Goal(d)
  {
    r := Solver(initial, Goal(d), d, fuel);
  }
}
