# Sliding-tile puzzle solver, modelled in Dafny

This project models the solver core of a browser N-puzzle page (`script.js`).
A board of side `d` is a flat sequence of `d*d` cells. Its cells are the tiles
`1 .. d*d-1` and one blank. A move slides the blank into an orthogonally
adjacent cell. The page finds a shortest sequence of moves to the ordered
board `[1, 2, ..., d*d-1, blank]` with an A* search. The search uses the
Manhattan-distance heuristic and keeps an open list plus three maps keyed by
board value: `cameFrom`, `gScore` and `fScore`.

Modules, in dependency order:

- `Grid` (grid.dfy): row/column arithmetic on a flat index. It includes
  JavaScript's truncating `%`, which the page applies to the index -1 that
  `indexOf` returns for a missing value.
- `Board` (board.dfy): the state model. Defines the blank, `indexOf` and
  `findBlank`, the goal board, the four directions, the bounds test and swap of
  `getNeighbors`, and paths of moves.
- `Moves` (moves.dfy): facts about `getNeighbors`. Covers its exact output in
  up/down/left/right order, membership against an independent notion of
  adjacency on flat indices, and the neighbour count for each blank position.
- `Heuristic` (heuristic.dfy): `manhattanDistance`. Proves that it changes by
  exactly one per move, that it vanishes exactly on the goal, and that it is
  admissible.
- `Search` (search.dfy): the search state. Defines one relaxation of a
  neighbour (lines 137-146 of the page), one full expansion, the invariants
  the search keeps, and what those invariants give when the goal is picked or
  the open list runs dry.
- `AStar` (astar.dfy): the frontier pick, `reconstructPath`, the search loop
  `aStarSolver` and the call `solvePuzzle` makes with the goal board.

Conventions:

- The page's `null` blank is `0` (`Board.Blank`).
- Boards are compared and used as map keys by value. This replaces the page's
  `toString()` keys and its `JSON.stringify` comparison `arraysEqual`; for
  boards of one length both are injective. So `arraysEqual(a, b)` is `a == b`
  and `openSet.some(p => arraysEqual(p, nb))` is `nb in open`.
- The side `d` is passed explicitly instead of computed with `Math.sqrt`.
  `Math.floor(i / size)` is Dafny's `i / d`, which is the floor for a positive
  divisor.
- `openSet.splice(openSet.indexOf(current), 1)` removes the picked index.
  `indexOf` compares arrays by reference. It finds the picked index because
  `current` is the very element `reduce` returned, and no array object is in
  the list twice. The model picks an index and removes that index, keeping the
  other boards in order.
- The search loop runs on a budget (`fuel`) of expansions. The page's loop ends
  only because the set of reachable boards is finite.

## Model

| member | source | states |
|---|---|---|
| Grid.JsRem | script.js:163-165 | JavaScript's `%`: for a non-negative index it is the ordinary remainder; for a negative one it is `a - m * trunc(a / m)`, which lies in (-m, 0] |
| Grid.MinusOneRow | script.js:176-179 | on a board without a blank, `indexOf` gives -1, which lands in row -1 and, for side at least 2, column -1 |
| Grid.CellIndex | script.js:189-192 | a row and column on the board give a flat index `newRow * size + newCol` inside the board, whose row and column are the ones given |
| Grid.CellOf | script.js:162-163 | every index of a board has row and column on the board and is row times side plus column |
| Board.IndexOf | script.js:70-72 | `indexOf`: -1 exactly when the value is absent; otherwise an index holding the value with no earlier occurrence |
| Board.FindBlank | script.js:70-72 | `findBlank`: -1 exactly when the board has no blank; otherwise the index of the first blank |
| Board.Goal | script.js:77 | the goal board has `d*d` cells, holds `i+1` at every index `i` but the last, and holds the blank last |
| Board.Neighbors | script.js:174-200 | `getNeighbors` returns at most four boards, each of the input's length and a rearrangement of its cells; a board without a blank has none |
| Moves.LegalIff | script.js:188-191 | the row/column bounds test for each direction holds exactly when the flat-index test holds (up: k >= d, down: k+d < d*d, left: k not a multiple of d, right: k+1 < d*d and k+1 not a multiple of d) |
| Moves.TargetIndex | script.js:189-192 | the cell moved into is one row (d cells) or one column (one cell) from the blank, in the row and column the direction names |
| Moves.NeighborsInOrder | script.js:176-197 | the output is exactly the up, down, left and right swaps of the blank, in that order, each present only when its bounds test passes |
| Moves.NeighborsAreAdjacentSwaps | script.js:188-196 | a board is a neighbour if and only if the input has a blank and the board is the input with the blank exchanged with an adjacent cell, all other cells unchanged |
| Moves.StepMovesBlank | script.js:188-196 | every neighbour is the move in some direction whose bounds test passes |
| Moves.NeighborCount | script.js:178-197 | for side at least 2: 4 neighbours minus one per border row and one per border column the blank sits on, so 2 in a corner, 3 on an edge and 4 inside |
| Moves.WellFormedOneBlank | script.js:70-72 | on a rearrangement of the goal there is exactly one blank, at the index `findBlank` reports |
| Heuristic.ManhattanStep | script.js:155-171 | on a board with exactly one blank (as every rearrangement of the goal has), one legal move changes the Manhattan distance to any goal by exactly one, up or down |
| Heuristic.Manhattan | script.js:155-171 | `manhattanDistance` sums one term per cell: 0 for the blank, otherwise the rows plus columns between the tile's index and its index in the goal. The distance is 0 exactly when every cell's term is 0 |
| Heuristic.CostPrefixSwapped | script.js:159-167 | the distance is a sum over cells: swapping two cells changes it by exactly the change in those two cells' terms |
| Heuristic.ManhattanZeroIffGoal | script.js:155-171 | on a rearrangement of the goal, the distance to the goal is 0 if and only if the board is the goal |
| Heuristic.ManhattanAdmissible | script.js:155-171 | on any path of moves that ends at the goal, the distance of each board is at most the number of moves still to go |
| Heuristic.PathWellFormed | script.js:188-196 | every board on a path from a rearrangement of the goal is again a rearrangement of the goal |
| Heuristic.PathMultiset | script.js:188-196 | every board on a path of moves has the length and the multiset of cells of the first board: moves only swap cells |
| Search.StartValid | script.js:119-125 | the initial state is the start alone, at cost 0 with `f` equal to its distance, and no predecessor; it satisfies every search invariant |
| Search.Relax | script.js:137-146 | a neighbour is updated if and only if it is unseen or strictly cheaper through `current`. An update sets `g = g(current)+1`, `f = g + distance` and predecessor `current`, and puts the neighbour in the open list unless an equal board is there. Costs never rise, nothing else changes, and the open list stays free of duplicates |
| Search.RelaxAll | script.js:136-148 | after the neighbour loop, every neighbour is recorded at most one dearer than `current`, no recorded cost rose, and `current` did not re-enter the open list |
| Search.RemoveAt | script.js:134 | `splice(i, 1)`: one shorter, every board before `i` stays in place and every board after it moves up one, keeping the order; on a duplicate-free list exactly that board is removed |
| Search.Expand | script.js:133-148 | one iteration past the goal test (splice, then the neighbour loop): the picked board keeps its cost, no recorded cost rises, every neighbour of the picked board ends recorded at most one dearer than it, and on a duplicate-free open list the picked board has left the list |
| Search.RelaxValid | script.js:137-146 | one relaxation keeps every search invariant |
| Search.RelaxAllValid | script.js:136-148 | the neighbour loop keeps every search invariant |
| Search.ExpandValid | script.js:127-149 | an iteration that does not pick the goal keeps the invariants and closes the picked board: all its neighbours are recorded at most one dearer |
| Search.OpenOnPath | script.js:127-149 | on any path ending at an open board, from a position `i` whose board is recorded at cost at most `i`, some open board at a later position is recorded no dearer than its position |
| Search.GoalPickedIsCheapest | script.js:128-131 | when the goal is the open board of least `f`, its recorded cost is at most the length of any path of moves from the start to it |
| Search.ExhaustedReachesAll | script.js:127-151 | once the open list is empty, every board reachable from the start has been recorded |
| AStar.SelectCurrent | script.js:128 | the picked board has the least `f` in the open list, and every later board has strictly greater `f` (ties go to the last) |
| AStar.ReconstructPath | script.js:217-224 | the walk returns a path that ends at `current` and begins at a board without a predecessor, each board being the recorded predecessor of the next; it is at most as long as the cost drop along it allows, which is why it ends |
| AStar.FoundPath | script.js:130-131 | the path read back from the predecessor links starts at the initial board and each board is one legal move from the one before |
| AStar.Advance | script.js:133-148 | an iteration that does not pick the goal leaves a state that keeps every search invariant, including closedness |
| AStar.FoundShortest | script.js:128-131 | a path read back from the goal, picked with least `f`, is no longer than any path of moves from the start to the ordered goal |
| AStar.ExhaustedUnreachable | script.js:127-151 | when the open list is empty and the page returns `[]`, no path of moves from the start reaches the goal |
| AStar.Solver | script.js:118-152 | given a budget of at least one expansion, a start equal to the goal gives the one-board path. A found path starts at the start, ends at the goal, and is made of legal moves; toward the ordered goal it is a shortest path (a path ending at the ordered goal forces the start to be a rearrangement of it). No solution means no path of moves from the start reaches the goal |
| AStar.Solve | script.js:75-82 | `solvePuzzle` searches toward the ordered board: given a budget of at least one expansion, the ordered board yields the one-board path (0 moves), a found path is a shortest path of legal moves to it, and no solution means it is unreachable |

## Left out

- Rendering, event handling, `displaySolutionMatrices`, the alerts, `animateSolution`, `toKannada`, and `shufflePuzzle`. These are browser I/O, timers, `Math.random` and display formatting. The model accepts any board instead of a shuffled one.
- `Math.sqrt` and the floating-point division of `Math.floor(i / size)`: the side is a parameter and division is integer division.
- `toString()` map keys and `JSON.stringify` in `arraysEqual`: boards are compared by value, as described above.
- AStar.Solver: runs on an expansion budget (`fuel`) and answers `OutOfFuel` when it is spent. It does not prove that some finite budget always suffices, so completeness is not stated: no lemma says that a reachable goal is always found.
- AStar.Solve: can return `OutOfFuel`, which `solvePuzzle` never does (it always reports a solution or "No solution found"), and no lemma says that a reachable ordered board is found. The reason is the same as for `AStar.Solver`: the search runs on an expansion budget and termination of the page's loop is not proved.
- AStar.Solver: the optimality clause is stated only toward the ordered goal, because admissibility of the distance is proved only toward that goal. For other goals the contract promises a valid path, not a shortest one.
- A board of side 1 without a blank is excluded by the `Movable` precondition. There the page computes column `-0`, passes the bounds test and writes to index -1 of the array, which the model does not represent.
- Boards whose length is not a perfect square are excluded: the side is a parameter with `|b| == d*d`.
- Validation errors for an ill-formed board or a missing blank: `script.js` raises none. `findBlank` returns -1, which the model follows, and a board without a blank simply has no moves.
- Unsolvability by permutation parity: the page does not check it, and the model states only that `NoSolution` means the goal is unreachable, not when that happens.
