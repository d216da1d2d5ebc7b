/**
 * The state model of the sliding-tile puzzle: a board of side `d` is a flat
 * sequence of d*d cells holding the tiles 1 .. d*d-1 and one blank. A move
 * slides the blank into an orthogonally adjacent cell, tried in the order up,
 * down, left, right.
 */
module Board {
  import opened Grid

  /** The empty cell, written `null` by the page. Tiles are 1 .. d*d-1, so 0 is free. */
  const Blank := 0

  type Board = seq<int>

  /** `s.indexOf(v)` from position `i` on: the first index at or after `i` holding `v`, or -1. */
  function IndexFrom(s: seq<int>, v: int, i: nat): (r: int)
    requires i <= |s|
    ensures r == -1 <==> forall j :: i <= j < |s| ==> s[j] != v
    ensures r != -1 ==> i <= r < |s| && s[r] == v && forall j :: i <= j < r ==> s[j] != v
    decreases |s| - i
  {
    if i == |s| then -1
    else if s[i] == v then i
    else IndexFrom(s, v, i + 1)
  }

  /** `s.indexOf(v)`: the first index holding `v`, or -1 when `v` is absent. */
  function IndexOf(s: seq<int>, v: int): (r: int)
    ensures r == -1 <==> v !in s
    ensures r != -1 ==> 0 <= r < |s| && s[r] == v && v !in s[..r]
  {
    var r := IndexFrom(s, v, 0);
    assert r != -1 ==> forall j :: 0 <= j < r ==> s[..r][j] != v;
    r
  }

  /** `findBlank`: the index of the (first) blank, or -1 on a board without one. */
  function FindBlank(b: Board): (k: int)
    ensures k == -1 <==> Blank !in b
    ensures k != -1 ==> 0 <= k < |b| && b[k] == Blank && forall i :: 0 <= i < k ==> b[i] != Blank
  {
    IndexOf(b, Blank)
  }

  /** The ordered board `[1, 2, ..., d*d-1, blank]` that the solver aims for. */
  function Goal(d: nat): (g: Board)
    requires d >= 1
    ensures |g| == d * d
    ensures g[d * d - 1] == Blank
    ensures forall i :: 0 <= i < d * d - 1 ==> g[i] == i + 1
  {
    MulLe(1, d, d);
    seq(d * d - 1, i => i + 1) + [Blank]
  }

  /** A board of side `d` whose cells are a rearrangement of the goal's tiles and blank. */
  predicate WellFormed(b: Board, d: nat)
  {
    d >= 1 && |b| == d * d && multiset(b) == multiset(Goal(d))
  }

  /** The blank occurs exactly once, at `FindBlank(b)`. */
  predicate OneBlank(b: Board)
  {
    Blank in b && forall i :: 0 <= i < |b| && b[i] == Blank ==> i == FindBlank(b)
  }

  /**
   * The boards on which the page's `getNeighbors` is well defined: the length is
   * d*d, and there is a blank unless the side is at least 2 (then a missing blank
   * simply yields no move).
   */
  predicate Movable(b: Board, d: nat)
  {
    |b| == d * d && (Blank in b || d >= 2)
  }

  datatype Direction = Up | Down | Left | Right
  {
    function DeltaRow(): int
    {
      match this
      case Up => -1
      case Down => 1
      case _ => 0
    }

    function DeltaCol(): int
    {
      match this
      case Left => -1
      case Right => 1
      case _ => 0
    }
  }

  /** `b` with the cells at `i` and `j` exchanged. */
  function Swap(b: Board, i: int, j: int): (c: Board)
    requires 0 <= i < |b| && 0 <= j < |b|
    ensures |c| == |b|
    ensures c[i] == b[j] && c[j] == b[i]
    ensures forall t :: 0 <= t < |b| && t != i && t != j ==> c[t] == b[t]
    ensures multiset(c) == multiset(b)
  {
    b[i := b[j]][j := b[i]]
  }

  /** A movable board has a side of at least 1. */
  lemma MovableHasSide(b: Board, d: nat)
    requires Movable(b, d)
    ensures d >= 1
  {
  }

  /** The bounds test of `getNeighbors`: the cell next to the blank in `dir` is on the board. */
  predicate Legal(b: Board, d: nat, dir: Direction)
    requires Movable(b, d)
  {
    MovableHasSide(b, d);
    var k := FindBlank(b);
    0 <= Row(k, d) + dir.DeltaRow() < d && 0 <= Col(k, d) + dir.DeltaCol() < d
  }

  /** A legal move needs a blank: without one the page's row and column are both -1. */
  lemma LegalHasBlank(b: Board, d: nat, dir: Direction)
    requires Movable(b, d) && Legal(b, d, dir)
    ensures Blank in b && 0 <= FindBlank(b) < |b|
  {
    MovableHasSide(b, d);
    if Blank !in b {
      MinusOneRow(d);
      assert false;
    }
  }

  /** On a board without a blank no direction passes the bounds test. */
  lemma NoBlankNoMove(b: Board, d: nat)
    requires Movable(b, d)
    ensures Blank !in b ==> forall dir: Direction :: !Legal(b, d, dir)
  {
    forall dir: Direction | Legal(b, d, dir) {
      LegalHasBlank(b, d, dir);
    }
  }

  /** `newRow * size + newCol`: the flat index of the cell the blank moves into. */
  function Target(b: Board, d: nat, dir: Direction): (p: int)
    requires Movable(b, d) && Legal(b, d, dir)
    ensures 0 <= p < |b|
  {
    MovableHasSide(b, d);
    var k := FindBlank(b);
    CellIndex(Row(k, d) + dir.DeltaRow(), Col(k, d) + dir.DeltaCol(), d);
    (Row(k, d) + dir.DeltaRow()) * d + (Col(k, d) + dir.DeltaCol())
  }

  /** The board after sliding the blank in direction `dir`. */
  function Move(b: Board, d: nat, dir: Direction): Board
    requires Movable(b, d) && Legal(b, d, dir)
  {
    LegalHasBlank(b, d, dir);
    Swap(b, FindBlank(b), Target(b, d, dir))
  }

  /** The contribution of one direction to `getNeighbors`: the moved board if legal. */
  function Slide(b: Board, d: nat, dir: Direction): seq<Board>
    requires Movable(b, d)
  {
    if Legal(b, d, dir) then [Move(b, d, dir)] else []
  }

  /**
   * `getNeighbors`: every board one move away, in the order up, down, left, right.
   * Each is a rearrangement of `b`; a board without a blank has none.
   */
  function Neighbors(b: Board, d: nat): (r: seq<Board>)
    requires Movable(b, d)
    ensures |r| <= 4
    ensures forall c :: c in r ==> |c| == |b| && multiset(c) == multiset(b)
    ensures Blank !in b ==> r == []
  {
    NoBlankNoMove(b, d);
    Slide(b, d, Up) + Slide(b, d, Down) + Slide(b, d, Left) + Slide(b, d, Right)
  }

  /** One legal move leads from `a` to `c`. */
  predicate Step(a: Board, c: Board, d: nat)
  {
    Movable(a, d) && c in Neighbors(a, d)
  }

  /** A sequence of boards, each one move from the one before. */
  predicate IsPath(p: seq<Board>, d: nat)
  {
    |p| >= 1 && forall i :: 0 <= i < |p| - 1 ==> Step(p[i], p[i + 1], d)
  }

  /** The final board of a path. */
  function Last(p: seq<Board>): Board
    requires |p| >= 1
  {
    p[|p| - 1]
  }

  /**
   * Reference notion of adjacency on the flat index, independent of rows and
   * columns: one row up or down, or one cell sideways without wrapping.
   */
  predicate Adjacent(k: int, p: int, d: nat)
  {
    && d >= 1
    && 0 <= k < d * d && 0 <= p < d * d
    && (p == k - d || p == k + d || (p == k - 1 && k % d != 0) || (p == k + 1 && p % d != 0))
  }
}
