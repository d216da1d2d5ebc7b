/**
 * Facts about the moves of the state model: which boards `Neighbors` returns,
 * in which order, how many, and that a well-formed board has one blank.
 */
module Moves {
  import opened Grid
  import opened Board

  /** The moved-into cell, as a flat index: one row is `d` cells, one column is one cell. */
  lemma TargetIndex(b: Board, d: nat, dir: Direction)
    requires Movable(b, d) && Legal(b, d, dir)
    ensures var k := FindBlank(b);
      && 0 <= k < |b|
      && Target(b, d, dir) == FlatTarget(k, d, dir)
      && Row(Target(b, d, dir), d) == Row(k, d) + dir.DeltaRow()
      && Col(Target(b, d, dir), d) == Col(k, d) + dir.DeltaCol()
  {
    LegalHasBlank(b, d, dir);
    var k := FindBlank(b);
    var row, col := Row(k, d), Col(k, d);
    CellOf(k, d);
    CellIndex(row + dir.DeltaRow(), col + dir.DeltaCol(), d);
    match dir
    case Up => assert (row - 1) * d == row * d - d;
    case Down => assert (row + 1) * d == row * d + d;
    case Left =>
    case Right =>
  }

  /** The bounds test of each direction, restated on the flat index of the blank. */
  lemma LegalIff(b: Board, d: nat, dir: Direction)
    requires Movable(b, d) && Blank in b
    ensures 0 <= FindBlank(b) < |b| && d >= 1
    ensures Legal(b, d, dir) <==> LegalFlat(FindBlank(b), d, dir)
  {
    var k := FindBlank(b);
    MovableHasSide(b, d);
    CellOf(k, d);
    match dir
    case Up => NotTopRow(k, d);
    case Down => NotBottomRow(k, d);
    case Left => NotLeftColumn(k, d);
    case Right => NotRightColumn(k, d);
  }

  /** Whether the blank at flat index `k` can move in `dir`, without rows and columns. */
  predicate LegalFlat(k: int, d: nat, dir: Direction)
    requires d >= 1
  {
    match dir
    case Up => k >= d
    case Down => k + d < d * d
    case Left => k % d != 0
    case Right => k + 1 < d * d && (k + 1) % d != 0
  }

  /** The flat index the blank moves to in `dir`. */
  function FlatTarget(k: int, d: nat, dir: Direction): int
  {
    match dir
    case Up => k - d
    case Down => k + d
    case Left => k - 1
    case Right => k + 1
  }

  /** A move that passes the flat-index test stays on the board. */
  lemma FlatTargetOnBoard(k: int, d: nat, dir: Direction)
    requires d >= 1 && 0 <= k < d * d
    ensures LegalFlat(k, d, dir) ==> 0 <= FlatTarget(k, d, dir) < d * d
  {
    DivModOf(0, 0, d);
  }

  /**
   * One direction's contribution to `getNeighbors` on the flat index `k` of the
   * blank: the blank trades places with the cell above, below, to the left or
   * to the right, when that cell is on the board.
   */
  function FlatSlide(b: Board, k: int, d: nat, dir: Direction): seq<Board>
    requires d >= 1 && |b| == d * d && 0 <= k < |b|
  {
    FlatTargetOnBoard(k, d, dir);
    if LegalFlat(k, d, dir) then [Swap(b, k, FlatTarget(k, d, dir))] else []
  }

  /** Each direction's contribution, restated on the flat index of the blank. */
  lemma SlideFlat(b: Board, d: nat, dir: Direction)
    requires Movable(b, d) && Blank in b
    ensures 0 <= FindBlank(b) < |b| && d >= 1
    ensures Slide(b, d, dir) == FlatSlide(b, FindBlank(b), d, dir)
  {
    LegalIff(b, d, dir);
    if Legal(b, d, dir) {
      TargetIndex(b, d, dir);
    }
  }

  /**
   * `getNeighbors` in full, with rows and columns replaced by flat-index tests:
   * the up, down, left and right moves, in that order.
   */
  lemma NeighborsInOrder(b: Board, d: nat)
    requires Movable(b, d) && Blank in b
    ensures 0 <= FindBlank(b) < |b| && d >= 1
    ensures var k := FindBlank(b);
      Neighbors(b, d) ==
        FlatSlide(b, k, d, Up) + FlatSlide(b, k, d, Down) + FlatSlide(b, k, d, Left) + FlatSlide(b, k, d, Right)
  {
    SlideFlat(b, d, Up);
    SlideFlat(b, d, Down);
    SlideFlat(b, d, Left);
    SlideFlat(b, d, Right);
  }

  /**
   * Membership in `getNeighbors` against the reference notion of adjacency: a
   * board is a neighbour exactly when it is `b` with the blank exchanged with a
   * cell adjacent to it, every other cell unchanged.
   */
  lemma NeighborsAreAdjacentSwaps(b: Board, d: nat, c: Board)
    requires Movable(b, d)
    ensures c in Neighbors(b, d) <==>
      Blank in b && exists p :: Adjacent(FindBlank(b), p, d) && c == Swap(b, FindBlank(b), p)
  {
    if Blank in b {
      var k := FindBlank(b);
      if c in Neighbors(b, d) {
        var p := NeighborIsAdjacentSwap(b, d, c);
      }
      if p :| Adjacent(k, p, d) && c == Swap(b, k, p) {
        AdjacentSwapIsNeighbor(b, d, p);
      }
    }
  }

  /** A neighbour is the blank swapped with an adjacent cell; `p` is that cell. */
  lemma NeighborIsAdjacentSwap(b: Board, d: nat, c: Board) returns (p: int)
    requires Movable(b, d) && Blank in b && c in Neighbors(b, d)
    ensures Adjacent(FindBlank(b), p, d) && c == Swap(b, FindBlank(b), p)
  {
    var dir := StepMovesBlank(b, c, d);
    var k := FindBlank(b);
    SlideFlat(b, d, dir);
    LegalIff(b, d, dir);
    FlatTargetOnBoard(k, d, dir);
    p := FlatTarget(k, d, dir);
    assert c == Slide(b, d, dir)[0];
  }

  /** Swapping the blank with any adjacent cell gives a neighbour. */
  lemma AdjacentSwapIsNeighbor(b: Board, d: nat, p: int)
    requires Movable(b, d) && Blank in b && Adjacent(FindBlank(b), p, d)
    ensures Swap(b, FindBlank(b), p) in Neighbors(b, d)
  {
    var k := FindBlank(b);
    var dir := if p == k - d then Up else if p == k + d then Down else if p == k - 1 then Left else Right;
    SlideFlat(b, d, dir);
    assert Swap(b, k, p) in Slide(b, d, dir);
  }

  /** A neighbour is the board moved in one of the four directions. */
  lemma StepMovesBlank(a: Board, c: Board, d: nat) returns (dir: Direction)
    requires Step(a, c, d)
    ensures Legal(a, d, dir) && c == Move(a, d, dir)
  {
    if c in Slide(a, d, Up) {
      dir := Up;
    } else if c in Slide(a, d, Down) {
      dir := Down;
    } else if c in Slide(a, d, Left) {
      dir := Left;
    } else {
      dir := Right;
    }
  }

  /**
   * The number of moves: 2 with the blank in a corner, 3 on an edge, 4 inside.
   * Each border row or column the blank sits on takes one direction away.
   */
  lemma NeighborCount(b: Board, d: nat)
    requires Movable(b, d) && Blank in b && d >= 2
    ensures var k := FindBlank(b);
      var rowBorder := if k / d == 0 || k / d == d - 1 then 1 else 0;
      var colBorder := if k % d == 0 || k % d == d - 1 then 1 else 0;
      |Neighbors(b, d)| == 4 - rowBorder - colBorder
    ensures 2 <= |Neighbors(b, d)| <= 4
  {
    var k := FindBlank(b);
    CellOf(k, d);
    assert |Slide(b, d, Up)| == if k / d == 0 then 0 else 1;
    assert |Slide(b, d, Down)| == if k / d == d - 1 then 0 else 1;
    assert |Slide(b, d, Left)| == if k % d == 0 then 0 else 1;
    assert |Slide(b, d, Right)| == if k % d == d - 1 then 0 else 1;
  }

  /** Two equal entries at different places count twice in the multiset. */
  lemma CountTwice(s: seq<int>, i: int, j: int)
    requires 0 <= i < j < |s| && s[i] == s[j]
    ensures multiset(s)[s[i]] >= 2
  {
    assert s == s[..i] + [s[i]] + s[i + 1..j] + [s[j]] + s[j + 1..];
  }

  /** A rearrangement of the goal has exactly one blank. */
  lemma WellFormedOneBlank(b: Board, d: nat)
    requires WellFormed(b, d)
    ensures OneBlank(b)
  {
    var g := Goal(d);
    assert g == g[..d * d - 1] + [Blank];
    assert Blank !in g[..d * d - 1];
    assert multiset(b)[Blank] == 1;
    var k := FindBlank(b);
    forall i | 0 <= i < |b| && b[i] == Blank
      ensures i == k
    {
      if i < k {
        CountTwice(b, i, k);
      } else if k < i {
        CountTwice(b, k, i);
      }
    }
  }
}
