# Pac-Man search and adversarial AI, modelled in Dafny

This project models the decision-making core of a small Pac-Man game and
proves properties of it:

- **Grid path search** (`search_algorithms.py`). It provides breadth-first search, depth-first
  search and A* with the Manhattan heuristic. All three run over a maze given as rows of
  integers, where 1 is a wall and anything else is open. Each keeps a frontier of (position,
  path) entries and marks a cell visited when the cell is pushed. Each looks at the neighbours
  in the order right, down, left, up, and returns the path to the goal (or nothing) together
  with the number of entries popped.
- **Adversarial move choice** (`adversarial_ai.py`). It has these parts:
  - a static evaluation of a (Pac-Man, ghost, food) position;
  - the legal moves of a cell;
  - depth-limited minimax with alpha-beta pruning, where Pac-Man maximises, the ghost
    minimises and the food never moves;
  - a greedy chasing ghost;
  - the two entry points, which turn "no move" into the null move (0, 0).

The Dafny modules follow that structure:

| module | file | contents |
|---|---|---|
| `Wrappers` | wrappers.dfy | `Option` (Python's `None` or a value) |
| `Grid` | grid.dfy | positions, the neighbour order, open cells, the Manhattan distance |
| `Walks` | walks.dfy | cardinal walks, connectivity, the set of reachable cells, walks of bounded length |
| `Frontier` | frontier.dfy | the visited-on-push bookkeeping the three searches share, and its preservation lemmas |
| `SearchAlgorithms` | search.dfy | `Bfs`, `Dfs` and `Astar` as methods with the source's loops, plus the A* heap order |
| `ExtendedInt` | extint.dfy | integers extended with the two infinities used as window sentinels |
| `AdversarialAi` | adversarial.dfy | the evaluator, legal moves, minimax with alpha-beta, the greedy chase, the dispatchers |

The searches are imperative methods, proved against specifications:

- **Specification of a returned path:** it is a cardinal walk from `start` to the goal with
  no repeated cell.
- **Completeness:** nothing comes back exactly when no walk connects `start` to the goal.
- **Expansion count:**
  - it is bounded by the number of reachable cells;
  - it equals that number when the search fails;
  - that number is itself bounded by the grid size.
- **Breadth-first search only:** its path is a shortest walk.

Minimax is proved against a reference, unpruned minimax written as functions (`Value`,
`BestMove`):

- On every window `alpha < beta`, the pruned score is fail-soft with respect to the true
  value.
- On the full window it equals the true value, and the move is the first legal move, in the
  neighbour order, that attains it.

## Model

| member | source | states |
|---|---|---|
| Grid.Manhattan | search_algorithms.py:49-50 | the distance is a natural number, and it is zero exactly when the two positions coincide |
| Grid.ManhattanSymmetric | adversarial_ai.py:4-5 | the distance does not depend on the order of its arguments |
| Grid.StepIsUnit | search_algorithms.py:18-19 | each of the four directions is one cardinal step, at Manhattan distance 1, to a different cell |
| Grid.IsOpen | search_algorithms.py:20 | a cell is open exactly when its row and column are within the grid (rows from `len(maze)`, columns from `len(maze[0])`) and it does not hold 1; the same guard as adversarial_ai.py:33 |
| Grid.OpenTest | search_algorithms.py:20 | on a well-formed maze, the inline bounds-and-wall guard holds exactly when the cell is open |
| Walks.ReachableIffConnected | search_algorithms.py:20-22 | a cell is in the reachable set exactly when some cardinal walk over open cells leads to it from `start` |
| Walks.ReachableBound | search_algorithms.py:8-13 | at most rows × cols cells are reachable, plus one when `start` lies off the grid |
| Walks.ClosedSetHoldsReachable | search_algorithms.py:18-22 | a set that holds `start` and every open neighbour of its members holds every reachable cell |
| Walks.WalkEndsWithin | search_algorithms.py:22 | a walk of n cells ends at a cell at most n - 1 steps from `start` |
| Frontier.Init | search_algorithms.py:7-9 | the initial frontier, visited set and count satisfy the search invariant |
| Frontier.Pop | search_algorithms.py:12-13 | removing any entry other than the goal from the frontier keeps the invariant, with the popped position in the neighbour loop |
| Frontier.Push | search_algorithms.py:20-22 | pushing an open, unvisited neighbour with its extended path keeps the entries valid and their positions unique |
| Frontier.Skip | search_algorithms.py:20 | passing over a wall, an off-grid cell or a visited cell keeps the loop invariant |
| Frontier.Close | search_algorithms.py:18-22 | after the four directions every open neighbour of the popped position is visited |
| Frontier.ExpandedBound | search_algorithms.py:13 | the expansion count never exceeds the number of reachable cells |
| Frontier.Found | search_algorithms.py:15-16 | the goal's entry carries a path without repeats from `start` to the goal; when `start` is the goal it is the first pop and the path is `[start]` |
| Frontier.Exhausted | search_algorithms.py:24 | when the frontier runs dry, the goal is unreachable and every reachable cell has been popped |
| Frontier.PathConnects | search_algorithms.py:16 | a returned path shows that the goal is connected to `start` |
| SearchAlgorithms.LayeredPop | search_algorithms.py:12 | breadth-first order holds after popping the queue head: the rest of the queue spans the head's length and the next one |
| SearchAlgorithms.LayeredPush | search_algorithms.py:22 | appending an entry one cell longer than the popped one keeps the queue in breadth-first order |
| SearchAlgorithms.LayeredClose | search_algorithms.py:18-22 | after expanding, every cell within the popped path's length is closed or queued in order |
| SearchAlgorithms.BfsShortest | search_algorithms.py:7-16 | the goal entry at the head of a breadth-first queue carries a walk no longer than any walk to the goal |
| SearchAlgorithms.Bfs | search_algorithms.py:5-24 | returns a shortest path without repeats from `start` to `goal`, or nothing exactly when no walk exists; the count is at most, and on failure exactly, the number of reachable cells; `([start], 1)` when `start == goal` |
| SearchAlgorithms.Dfs | search_algorithms.py:27-46 | the same as `Bfs`, without the shortest-path property |
| SearchAlgorithms.KeyLess | search_algorithms.py:59 | Python's tuple order on heap entries up to the position: smaller `f` first, then smaller row, then smaller column |
| SearchAlgorithms.MinIndex | search_algorithms.py:59 | the entry `heappop` takes is not above any other under (f, row, col), and with distinct positions it is strictly below every other |
| SearchAlgorithms.KeysRemove | search_algorithms.py:59 | every heap entry keeps `g == len(path) - 1` and `f == g + manhattan(pos, goal)` (`f == g == 0` for the start entry) when one entry is popped |
| SearchAlgorithms.KeysPush | search_algorithms.py:69-72 | the pushed entry's `new_g`, `new_h` and `new_f` meet the same key invariant |
| SearchAlgorithms.ManhattanAdmissible | search_algorithms.py:70 | the Manhattan distance never exceeds the number of steps of a walk between the two cells |
| SearchAlgorithms.Astar | search_algorithms.py:52-74 | the same as `Dfs`, popping the least (f, row, col) key of the heap |
| ExtendedInt.Le | adversarial_ai.py:65 | the comparison `beta <= alpha` against the float sentinels: `-inf` is below everything, `inf` above everything, integers compare as integers |
| ExtendedInt.Lt | adversarial_ai.py:60 | the strict comparisons `eval_score > max_eval` and `eval_score < min_eval` (lines 60, 83, 107): `Le` between distinct values |
| ExtendedInt.Max | adversarial_ai.py:64 | the result bounds both arguments from above and is one of them |
| ExtendedInt.Min | adversarial_ai.py:87 | the result bounds both arguments from below and is one of them |
| AdversarialAi.Evaluate | adversarial_ai.py:7-24 | -10000 on capture even if Pac-Man is on the food; otherwise 10000 on the food; otherwise 50 × ghost distance − 10 × food distance |
| AdversarialAi.OpenMovesUpToOrder | adversarial_ai.py:31-34 | the moves kept among the first n directions are at most n, in the neighbour order, without repeats |
| AdversarialAi.OpenMovesUpToMembers | adversarial_ai.py:31-34 | a direction is kept exactly when it is among the first n and its target cell is open |
| AdversarialAi.OpenMovesSpec | adversarial_ai.py:26-36 | the legal moves are at most four, ordered as the directions, and are exactly the directions whose target is in bounds and not a wall |
| AdversarialAi.GetValidMoves | adversarial_ai.py:26-36 | the loop builds exactly the legal moves |
| AdversarialAi.MaxOf | adversarial_ai.py:60-61 | the largest score: at least every element, and one of them |
| AdversarialAi.MinOf | adversarial_ai.py:83-84 | the smallest score: at most every element, and one of them |
| AdversarialAi.FirstIndexOf | adversarial_ai.py:60-62 | the first index holding the value, as the strict `>` and `<` updates select |
| AdversarialAi.ChildValueAt | adversarial_ai.py:78-81 | an unfolding of `ChildValues` at index j, used as a proof step: entry j is the value after move j with one ply less and the turn passed |
| AdversarialAi.BestMoveSpec | adversarial_ai.py:44-91 | unpruned minimax picks no move exactly where the search stops, and the value is then the evaluation; otherwise it picks a legal move that attains the value, is optimal for the mover, and is the first to do so |
| AdversarialAi.MaxStep | adversarial_ai.py:57-66 | one turn of Pac-Man's loop either closes the window with a fail-soft result or keeps the loop invariant for one more child |
| AdversarialAi.MaxDone | adversarial_ai.py:55-68 | Pac-Man's loop without a cutoff returns a fail-soft score and, on the full window, the maximum and its first move |
| AdversarialAi.MinStep | adversarial_ai.py:80-89 | the mirror of `MaxStep` for the ghost's loop |
| AdversarialAi.MinDone | adversarial_ai.py:78-91 | the mirror of `MaxDone` for the ghost's loop |
| AdversarialAi.MaxNode | adversarial_ai.py:47-68 | the result of Pac-Man's loop is fail-soft for the state's minimax value, and on the full window it equals that value and its move |
| AdversarialAi.MinNode | adversarial_ai.py:70-91 | the mirror of `MaxNode` for the ghost |
| AdversarialAi.MinimaxAlphaBeta | adversarial_ai.py:38-91 | no move and the evaluation exactly at depth 0, capture, food, or when the mover has no legal move; otherwise a legal move of the mover; a fail-soft score on every window; the minimax value and the first best move on the full window |
| AdversarialAi.MaxTurn | adversarial_ai.py:47-53 | Pac-Man's branch: the evaluation without a move when Pac-Man is stuck, otherwise the result of the loop |
| AdversarialAi.MaxChildren | adversarial_ai.py:48-68 | the loop's score and move satisfy the fail-soft and full-window result with respect to the true child values |
| AdversarialAi.MinTurn | adversarial_ai.py:70-76 | the ghost's branch, the mirror of `MaxTurn` |
| AdversarialAi.MinChildren | adversarial_ai.py:71-91 | the ghost's loop, the mirror of `MaxChildren` |
| AdversarialAi.FirstMinimum | adversarial_ai.py:103-109 | an index that is minimal and strictly below all earlier entries is the one the minimum and the first index pick |
| AdversarialAi.GreedyMoveSpec | adversarial_ai.py:93-111 | no move exactly when the ghost has no legal move; otherwise a legal move closest to Pac-Man, with every earlier legal move strictly farther |
| AdversarialAi.GreedyChase | adversarial_ai.py:93-111 | the loop with a running minimum returns the greedy move |
| AdversarialAi.OrStay | adversarial_ai.py:128 | `move if move else (0, 0)`: a move tuple is never falsy, so only `None` becomes (0, 0) (also line 135) |
| AdversarialAi.GetGhostMove | adversarial_ai.py:114-128 | the selector's move, or (0, 0) exactly when the selector finds none; a non-null move leads the ghost onto an open cell |
| AdversarialAi.GetPacmanMove | adversarial_ai.py:131-135 | minimax's move for Pac-Man on the full window, or (0, 0) exactly when there is none; a non-null move leads onto an open cell |

## Left out

- `pacman_game.py` is not part of this model. It covers the window, drawing, fonts, the event
  and key loop, the clock, the glue that moves the pieces, and the random-walk ghost built on
  `random.shuffle`.
- Floating point: `float('-inf')` and `float('inf')` serve only as sentinels, so they are
  modelled as the `NegInf` and `PosInf` values of `ExtendedInt.ExtInt`. All scores are
  integers.
- The internals of `deque` and `heapq` are not modelled:
  - the queue is a sequence popped at its front, the stack one popped at its end;
  - the heap is a sequence from which the entry with the least (f, row, col) key is removed.

  So the binary-heap layout is not modelled, and neither is the elementwise comparison of the
  path and `g` components. Positions in the heap are unique, so those components never decide:
  at each pop `Astar` asserts that the removed entry is strictly below every other entry under
  `KeyLess`.
- SearchAlgorithms.Astar: the model does not prove that A* returns a shortest path. The source
  closes a cell when it first discovers it, and it makes no such promise.
- Mazes: every member that reads the maze requires `Grid.WellFormed`, a non-empty maze whose
  rows are at least as long as the first. That is stronger than what the code needs:
  - an empty maze makes `len(maze[0])` raise (search_algorithms.py:6, adversarial_ai.py:27);
  - a shorter row raises only when a probed cell passes the bounds test and lies past that
    row's end (search_algorithms.py:20, 42, 67; adversarial_ai.py:33); on a ragged maze where
    no such cell is probed the code returns normally;
  - `minimax_alpha_beta` does not read the maze at all where it stops at adversarial_ai.py:44-45
    (depth 0, capture or food reached), so it returns there even on an empty maze.

  The model excludes all of these mazes, including those on which the code returns normally,
  and does not model the `IndexError` path.
- Depth: `depth` is a natural number. With a negative depth, the source's `depth == 0` test
  never fires and the recursion is not bounded by depth.
- Default arguments: the defaults `use_minimax=True` and `depth=3` of the two dispatchers are
  not modelled; callers pass both values explicitly.
- Structure: `minimax_alpha_beta`'s two branches are the methods `MaxTurn` and `MinTurn`, and
  their loops are `MaxChildren` and `MinChildren`. The loops' local `alpha`/`beta` are variables
  `a` and `b`. The loops' results are stated only about score and move, as in the source, where
  the recursive calls' moves are discarded.
