/**
 * The bookkeeping of `aStarSolver`: the open list, the predecessor map and the
 * two cost maps, all keyed by board value, and the single steps that change
 * them. The invariants the search keeps, and what they imply when the goal is
 * picked or the open list runs dry, are proved here; the loop itself is in
 * module AStar.
 */
module Search {
  import opened Board
  import opened Moves
  import opened Heuristic

  /** `openSet`, `cameFrom`, `gScore` and `fScore`. */
  datatype State = State(open: seq<Board>, cameFrom: map<Board, Board>, g: map<Board, nat>, f: map<Board, int>)

  /** No two entries of `s` are equal boards. */
  predicate NoDuplicates(s: seq<Board>)
  {
    forall i, j :: 0 <= i < j < |s| ==> s[i] != s[j]
  }

  /** The state before the first iteration: only the start is known, at cost 0. */
  function Start(initial: Board, goal: seq<int>, d: nat): (st: State)
    requires |initial| == d * d
  {
    State([initial], map[], map[initial := 0], map[initial := Manhattan(initial, goal, d)])
  }

  /** Every recorded board is a rearrangement of the start, so every one can move. */
  ghost predicate BoardsRecorded(st: State, initial: Board, d: nat)
  {
    && Movable(initial, d)
    && initial in st.g && st.g[initial] == 0 && initial !in st.cameFrom
    && st.g.Keys == st.cameFrom.Keys + {initial}
    && forall n :: n in st.g ==> |n| == d * d && multiset(n) == multiset(initial)
  }

  /** `fScore` is `gScore` plus the heuristic, for every recorded board. */
  ghost predicate CostsRecorded(st: State, goal: seq<int>, d: nat)
  {
    && st.f.Keys == st.g.Keys
    && forall n :: n in st.g && |n| == d * d ==> st.f[n] == st.g[n] + Manhattan(n, goal, d)
  }

  /** Each predecessor link is a legal move from a strictly cheaper recorded board. */
  ghost predicate LinksRecorded(st: State, d: nat)
  {
    forall n :: n in st.cameFrom ==>
      && n in st.g && st.cameFrom[n] in st.g
      && st.g[st.cameFrom[n]] < st.g[n]
      && Step(st.cameFrom[n], n, d)
  }

  /** The open list holds recorded boards, no two equal, and the goal if it is recorded. */
  ghost predicate OpenRecorded(st: State, goal: seq<int>)
  {
    && (forall i :: 0 <= i < |st.open| ==> st.open[i] in st.g)
    && NoDuplicates(st.open)
    && (goal in st.g ==> goal in st.open)
  }

  /** The invariants the search keeps on every iteration. */
  ghost predicate Valid(st: State, initial: Board, goal: seq<int>, d: nat)
  {
    && BoardsRecorded(st, initial, d)
    && CostsRecorded(st, goal, d)
    && LinksRecorded(st, d)
    && OpenRecorded(st, goal)
  }

  /**
   * Every recorded board that has left the open list, except `current`, has had
   * its neighbours relaxed: each is recorded at most one move dearer.
   */
  ghost predicate ClosedBut(st: State, current: Board, d: nat)
  {
    forall c, x :: c in st.g && c !in st.open && c != current && Step(c, x, d) ==>
      x in st.g && st.g[x] <= st.g[c] + 1
  }

  /** Every recorded board off the open list has had its neighbours relaxed. */
  ghost predicate Closed(st: State, d: nat)
  {
    forall c, x :: c in st.g && c !in st.open && Step(c, x, d) ==>
      x in st.g && st.g[x] <= st.g[c] + 1
  }

  /** The state before the first iteration keeps every invariant, and nothing is closed yet. */
  lemma StartValid(initial: Board, goal: seq<int>, d: nat)
    requires Movable(initial, d)
    ensures Valid(Start(initial, goal, d), initial, goal, d)
    ensures Closed(Start(initial, goal, d), d)
  {
  }

  /** A recorded board has a blank when the start has one, so its moves are defined. */
  lemma RecordedMovable(st: State, initial: Board, d: nat, n: Board)
    requires BoardsRecorded(st, initial, d) && n in st.g
    ensures Movable(n, d)
  {
    assert Blank in initial <==> Blank in multiset(initial);
    assert Blank in n <==> Blank in multiset(n);
  }

  /**
   * One turn of the neighbour loop: a neighbour reached more cheaply through
   * `current` than recorded (or not recorded at all) gets `current` as its
   * predecessor, the new `g`, `f = g + heuristic`, and a place in the open list
   * unless an equal board is already there. Otherwise nothing changes.
   */
  function Relax(st: State, current: Board, nb: Board, goal: seq<int>, d: nat): (r: State)
    requires current in st.g && |nb| == d * d
    ensures r.g.Keys == st.g.Keys + {nb} && r.f.Keys == st.f.Keys + (if r != st then {nb} else {})
    ensures r.cameFrom.Keys == st.cameFrom.Keys + (if r != st then {nb} else {})
    ensures r.g[nb] <= st.g[current] + 1
    ensures (nb !in st.g || st.g[current] + 1 < st.g[nb]) <==> r != st
    ensures r != st ==> r.g[nb] == st.g[current] + 1 && r.f[nb] == r.g[nb] + Manhattan(nb, goal, d)
    ensures r != st ==> r.cameFrom[nb] == current && nb in r.open
    ensures forall n :: n in st.g ==> r.g[n] <= st.g[n]
    ensures forall n :: n != nb && n in st.g ==> r.g[n] == st.g[n]
    ensures forall n :: n != nb && n in st.f ==> r.f[n] == st.f[n]
    ensures forall n :: n != nb && n in st.cameFrom ==> r.cameFrom[n] == st.cameFrom[n]
    ensures forall n :: n in r.open <==> n in st.open || (r != st && n == nb)
    ensures NoDuplicates(st.open) ==> NoDuplicates(r.open)
    ensures st.open <= r.open
  {
    var tentative := st.g[current] + 1;
    if nb !in st.g || tentative < st.g[nb] then
      State(if nb in st.open then st.open else st.open + [nb],
            st.cameFrom[nb := current],
            st.g[nb := tentative],
            st.f[nb := tentative + Manhattan(nb, goal, d)])
    else
      st
  }

  /** The neighbour loop: `Relax` for each neighbour in turn. */
  function RelaxAll(st: State, current: Board, nbs: seq<Board>, goal: seq<int>, d: nat): (r: State)
    requires current in st.g
    requires forall i :: 0 <= i < |nbs| ==> |nbs[i]| == d * d
    ensures current in r.g && r.g[current] == st.g[current]
    ensures forall n :: n in st.g ==> n in r.g && r.g[n] <= st.g[n]
    ensures forall i :: 0 <= i < |nbs| ==> nbs[i] in r.g && r.g[nbs[i]] <= r.g[current] + 1
    ensures current !in st.open ==> current !in r.open
    decreases |nbs|
  {
    if nbs == [] then st
    else RelaxAll(Relax(st, current, nbs[0], goal, d), current, nbs[1..], goal, d)
  }

  /** `openSet.splice(i, 1)`. */
  function RemoveAt(s: seq<Board>, i: nat): (r: seq<Board>)
    requires i < |s|
    ensures |r| == |s| - 1
    ensures forall j :: 0 <= j < |r| ==> r[j] == if j < i then s[j] else s[j + 1]
    ensures NoDuplicates(s) ==> NoDuplicates(r) && forall x :: x in r <==> x in s && x != s[i]
  {
    s[..i] + s[i + 1..]
  }

  /** One iteration past the goal test: drop `open[i]` and relax its neighbours. */
  function Expand(st: State, i: nat, goal: seq<int>, d: nat): (r: State)
    requires i < |st.open| && st.open[i] in st.g && Movable(st.open[i], d)
    ensures st.open[i] in r.g && r.g[st.open[i]] == st.g[st.open[i]]
    ensures forall n :: n in st.g ==> n in r.g && r.g[n] <= st.g[n]
    ensures forall c :: c in Neighbors(st.open[i], d) ==> c in r.g && r.g[c] <= st.g[st.open[i]] + 1
    ensures NoDuplicates(st.open) ==> st.open[i] !in r.open
  {
    var current := st.open[i];
    RelaxAll(st.(open := RemoveAt(st.open, i)), current, Neighbors(current, d), goal, d)
  }

  /** Relaxing a neighbour of a recorded board keeps every invariant but closedness of `current`. */
  lemma RelaxValid(st: State, current: Board, nb: Board, initial: Board, goal: seq<int>, d: nat)
    requires Valid(st, initial, goal, d) && ClosedBut(st, current, d)
    requires current in st.g && Step(current, nb, d)
    ensures Valid(Relax(st, current, nb, goal, d), initial, goal, d)
    ensures ClosedBut(Relax(st, current, nb, goal, d), current, d)
  {
    var r := Relax(st, current, nb, goal, d);
    if r != st {
      RelaxBoards(st, current, nb, initial, goal, d);
      RelaxCosts(st, current, nb, goal, d);
      RelaxLinks(st, current, nb, goal, d);
      RelaxOpen(st, current, nb, goal, d);
      RelaxClosedBut(st, current, nb, goal, d);
    }
  }

  /** A relaxation records only a neighbour, a rearrangement of the start other than the start. */
  lemma RelaxBoards(st: State, current: Board, nb: Board, initial: Board, goal: seq<int>, d: nat)
    requires BoardsRecorded(st, initial, d) && current in st.g && Step(current, nb, d)
    ensures BoardsRecorded(Relax(st, current, nb, goal, d), initial, d)
  {
    var r := Relax(st, current, nb, goal, d);
    if r != st {
      assert nb != initial;
    }
  }

  /** A relaxation sets `f` to the new `g` plus the heuristic. */
  lemma RelaxCosts(st: State, current: Board, nb: Board, goal: seq<int>, d: nat)
    requires CostsRecorded(st, goal, d) && current in st.g && |nb| == d * d
    ensures CostsRecorded(Relax(st, current, nb, goal, d), goal, d)
  {
  }

  /** A relaxation links the neighbour to `current`, which is one move back and strictly cheaper. */
  lemma RelaxLinks(st: State, current: Board, nb: Board, goal: seq<int>, d: nat)
    requires LinksRecorded(st, d) && current in st.g && Step(current, nb, d)
    ensures LinksRecorded(Relax(st, current, nb, goal, d), d)
  {
    var r := Relax(st, current, nb, goal, d);
    if r != st {
      assert nb != current;
      forall n | n in r.cameFrom
        ensures n in r.g && r.cameFrom[n] in r.g && r.g[r.cameFrom[n]] < r.g[n] && Step(r.cameFrom[n], n, d)
      {
        if n != nb {
          assert r.cameFrom[n] == st.cameFrom[n];
        }
      }
    }
  }

  /** A relaxation keeps the open list recorded and duplicate-free, and the goal on it once recorded. */
  lemma RelaxOpen(st: State, current: Board, nb: Board, goal: seq<int>, d: nat)
    requires OpenRecorded(st, goal) && current in st.g && |nb| == d * d
    ensures OpenRecorded(Relax(st, current, nb, goal, d), goal)
  {
    var r := Relax(st, current, nb, goal, d);
    forall i | 0 <= i < |r.open|
      ensures r.open[i] in r.g
    {
      assert r.open[i] in r.open;
    }
  }

  /** Lowering a cost or recording a board cannot break closedness of the other closed boards. */
  lemma RelaxClosedBut(st: State, current: Board, nb: Board, goal: seq<int>, d: nat)
    requires ClosedBut(st, current, d) && current in st.g && |nb| == d * d
    ensures ClosedBut(Relax(st, current, nb, goal, d), current, d)
  {
    var r := Relax(st, current, nb, goal, d);
    forall c, x | c in r.g && c !in r.open && c != current && Step(c, x, d)
      ensures x in r.g && r.g[x] <= r.g[c] + 1
    {
      assert c in st.g && c !in st.open;
    }
  }

  /** The neighbour loop keeps every invariant but closedness of `current`. */
  lemma {:induction false} RelaxAllValid(st: State, current: Board, nbs: seq<Board>, initial: Board, goal: seq<int>, d: nat)
    requires Valid(st, initial, goal, d) && ClosedBut(st, current, d)
    requires current in st.g && forall i :: 0 <= i < |nbs| ==> Step(current, nbs[i], d)
    requires forall i :: 0 <= i < |nbs| ==> |nbs[i]| == d * d
    ensures Valid(RelaxAll(st, current, nbs, goal, d), initial, goal, d)
    ensures ClosedBut(RelaxAll(st, current, nbs, goal, d), current, d)
    decreases |nbs|
  {
    if nbs != [] {
      RelaxValid(st, current, nbs[0], initial, goal, d);
      RelaxAllValid(Relax(st, current, nbs[0], goal, d), current, nbs[1..], initial, goal, d);
    }
  }

  /**
   * Expanding a board other than the goal keeps the invariants, and closes it:
   * afterwards all its neighbours are recorded at most one move dearer.
   */
  lemma ExpandValid(st: State, i: nat, initial: Board, goal: seq<int>, d: nat)
    requires Valid(st, initial, goal, d) && Closed(st, d)
    requires i < |st.open| && st.open[i] != goal
    ensures st.open[i] in st.g && Movable(st.open[i], d)
    ensures Valid(Expand(st, i, goal, d), initial, goal, d)
    ensures Closed(Expand(st, i, goal, d), d)
  {
    var current := st.open[i];
    RecordedMovable(st, initial, d, current);
    var st' := st.(open := RemoveAt(st.open, i));
    assert Valid(st', initial, goal, d);
    assert ClosedBut(st', current, d);
    var nbs := Neighbors(current, d);
    RelaxAllValid(st', current, nbs, initial, goal, d);
    var r := RelaxAll(st', current, nbs, goal, d);
    assert r == Expand(st, i, goal, d);
    forall c, x | c in r.g && c !in r.open && Step(c, x, d)
      ensures x in r.g && r.g[x] <= r.g[c] + 1
    {
      if c == current {
        assert x in Neighbors(st.open[i], d);
      }
    }
  }

  /**
   * With the open list holding the end of a path, some open board on that path
   * is recorded no dearer than its position along the path.
   */
  lemma {:induction false} OpenOnPath(st: State, d: nat, p: seq<Board>, i: nat) returns (j: nat)
    requires Closed(st, d) && IsPath(p, d) && i < |p| && Last(p) in st.open
    requires p[i] in st.g && st.g[p[i]] <= i
    ensures i <= j < |p| && p[j] in st.open && p[j] in st.g && st.g[p[j]] <= j
    decreases |p| - i
  {
    if p[i] in st.open {
      j := i;
    } else {
      assert Step(p[i], p[i + 1], d);
      j := OpenOnPath(st, d, p, i + 1);
    }
  }

  /**
   * When the goal is picked as the open board of least `f`, its recorded cost is
   * at most the length of any path to it: some open board on that path has
   * `f` no more than the path's length, by admissibility of the heuristic.
   */
  lemma GoalPickedIsCheapest(st: State, initial: Board, d: nat, p: seq<Board>)
    requires WellFormed(initial, d)
    requires Valid(st, initial, Goal(d), d) && Closed(st, d)
    requires Goal(d) in st.open
    requires forall j :: 0 <= j < |st.open| ==> st.f[Goal(d)] <= st.f[st.open[j]]
    requires IsPath(p, d) && p[0] == initial && Last(p) == Goal(d)
    ensures Goal(d) in st.g && st.g[Goal(d)] <= |p| - 1
  {
    var goal := Goal(d);
    var j := OpenOnPath(st, d, p, 0);
    ManhattanAdmissible(p, d, j);
    ManhattanZeroIffGoal(goal, d);
    var t :| 0 <= t < |st.open| && st.open[t] == p[j];
    assert st.f[goal] <= st.f[p[j]];
  }

  /** With nothing left open, every board reachable from the start is recorded. */
  lemma {:induction false} ExhaustedReachesAll(st: State, initial: Board, goal: seq<int>, d: nat, p: seq<Board>, i: nat)
    requires Valid(st, initial, goal, d) && Closed(st, d) && st.open == []
    requires IsPath(p, d) && p[0] == initial && i < |p|
    ensures p[i] in st.g
  {
    if i > 0 {
      ExhaustedReachesAll(st, initial, goal, d, p, i - 1);
      assert Step(p[i - 1], p[i], d);
    }
  }
}
