/**
 Walks through the maze, the positions they reach, and the facts about them
 that the path searches rely on.
 */
module Walks {
  import opened Grid

  /**
   A cardinal walk out of `start`: it begins at `start` and every later cell is
   open and one step from the cell before it. `start` itself is never checked,
   exactly as in the searches, which put it in their frontier unconditionally.
   Defined on the prefix, the way the searches build paths: by appending.
   */
  predicate IsWalk(maze: Maze, start: Pos, w: seq<Pos>)
    decreases |w|
  {
    && |w| > 0
    && if |w| == 1 then w[0] == start
       else IsWalk(maze, start, w[..|w| - 1]) && IsOpen(maze, w[|w| - 1]) && IsStep(w[|w| - 2], w[|w| - 1])
  }

  function Last(w: seq<Pos>): Pos
    requires |w| > 0
  {
    w[|w| - 1]
  }

  predicate Distinct(w: seq<Pos>) {
    forall i, j :: 0 <= i < j < |w| ==> w[i] != w[j]
  }

  /** What a search may return: a walk from `start` to `goal` that never repeats a cell. */
  predicate IsPath(maze: Maze, start: Pos, goal: Pos, w: seq<Pos>) {
    IsWalk(maze, start, w) && Last(w) == goal && Distinct(w)
  }

  /** Some walk leads from `start` to `q`. */
  ghost predicate Connected(maze: Maze, start: Pos, q: Pos) {
    exists w :: IsWalk(maze, start, w) && Last(w) == q
  }

  /** The positions of row `r` with a column below `n`. */
  ghost function RowCells(r: int, n: nat): set<Pos> {
    if n == 0 then {} else RowCells(r, n - 1) + {Pos(r, n - 1)}
  }

  /** The positions of an `m` by `n` grid. */
  ghost function Cells(m: nat, n: nat): set<Pos> {
    if m == 0 then {} else Cells(m - 1, n) + RowCells(m - 1, n)
  }

  lemma {:induction false} InRowCells(r: int, n: nat, p: Pos)
    ensures p in RowCells(r, n) <==> p.row == r && 0 <= p.col < n
  {
    if n > 0 {
      InRowCells(r, n - 1, p);
    }
  }

  lemma {:induction false} InCells(m: nat, n: nat, p: Pos)
    ensures p in Cells(m, n) <==> 0 <= p.row < m && 0 <= p.col < n
  {
    if m > 0 {
      InCells(m - 1, n, p);
      InRowCells(m - 1, n, p);
    }
  }

  lemma {:induction false} RowCellsSize(r: int, n: nat)
    ensures |RowCells(r, n)| == n
  {
    if n > 0 {
      RowCellsSize(r, n - 1);
      InRowCells(r, n - 1, Pos(r, n - 1));
    }
  }

  lemma {:induction false} CellsSize(m: nat, n: nat)
    ensures |Cells(m, n)| == m * n
  {
    if m > 0 {
      CellsSize(m - 1, n);
      RowCellsSize(m - 1, n);
      var row := RowCells(m - 1, n);
      forall p | p in row
        ensures p !in Cells(m - 1, n)
      {
        InRowCells(m - 1, n, p);
        InCells(m - 1, n, p);
      }
      assert Cells(m - 1, n) !! RowCells(m - 1, n);
      assert (m - 1) * n + n == m * n;
    }
  }

  /**
   The cells reachable from `start`: `start` itself and every open cell some
   walk leads to. Every such cell lies on the grid or is `start`, so the set is finite.
   */
  ghost function Reachable(maze: Maze, start: Pos): set<Pos> {
    set q | q in Cells(Rows(maze), Cols(maze)) + {start} && Connected(maze, start, q)
  }

  lemma ReachableIffConnected(maze: Maze, start: Pos, q: Pos)
    ensures q in Reachable(maze, start) <==> Connected(maze, start, q)
  {
    if Connected(maze, start, q) {
      var w :| IsWalk(maze, start, w) && Last(w) == q;
      if |w| > 1 {
        assert IsOpen(maze, w[|w| - 1]);
        InCells(Rows(maze), Cols(maze), q);
      }
    }
  }

  /**
   At most one cell per grid position is reachable, plus `start` when it lies
   off the grid.
   */
  lemma ReachableBound(maze: Maze, start: Pos)
    ensures |Reachable(maze, start)| <= Rows(maze) * Cols(maze) + (if InBounds(maze, start) then 0 else 1)
  {
    var cells := Cells(Rows(maze), Cols(maze));
    CellsSize(Rows(maze), Cols(maze));
    InCells(Rows(maze), Cols(maze), start);
    assert Reachable(maze, start) <= cells + {start};
    SubsetSize(Reachable(maze, start), cells + {start});
    if InBounds(maze, start) {
      assert cells + {start} == cells;
    }
  }

  lemma SubsetSize<T>(a: set<T>, b: set<T>)
    requires a <= b
    ensures |a| <= |b|
  {
    assert b == a + (b - a);
  }

  /** Extending a walk by one open cell one step further is still a walk. */
  lemma ExtendWalk(maze: Maze, start: Pos, w: seq<Pos>, d: Pos)
    requires IsWalk(maze, start, w)
    requires d in Directions && IsOpen(maze, Add(Last(w), d))
    ensures IsWalk(maze, start, w + [Add(Last(w), d)])
  {
    var w' := w + [Add(Last(w), d)];
    StepIsUnit(Last(w), d);
    assert w'[..|w|] == w;
  }

  /** Every walk starts at `start`. */
  lemma {:induction false} WalkStarts(maze: Maze, start: Pos, w: seq<Pos>)
    requires IsWalk(maze, start, w)
    ensures w[0] == start
    decreases |w|
  {
    if |w| > 1 {
      WalkStarts(maze, start, w[..|w| - 1]);
    }
  }

  /** Every open neighbour of a cell in `from` lies in `inside`. */
  ghost predicate StepClosed(maze: Maze, inside: set<Pos>, from: set<Pos>) {
    forall c, d :: c in from && d in Directions && IsOpen(maze, Add(c, d)) ==> Add(c, d) in inside
  }

  /**
   A set that holds `start` and every open neighbour of its own cells holds
   every cell reachable from `start`.
   */
  lemma {:induction false} ClosedSetHoldsWalk(maze: Maze, start: Pos, s: set<Pos>, w: seq<Pos>)
    requires start in s && StepClosed(maze, s, s)
    requires IsWalk(maze, start, w)
    ensures Last(w) in s
  {
    if |w| > 1 {
      var w' := w[..|w| - 1];
      assert IsWalk(maze, start, w');
      ClosedSetHoldsWalk(maze, start, s, w');
      var c := Last(w');
      StepAddsDelta(c, Last(w));
      assert Add(c, Delta(c, Last(w))) in s;
    }
  }

  lemma ClosedSetHoldsReachable(maze: Maze, start: Pos, s: set<Pos>)
    requires start in s && StepClosed(maze, s, s)
    ensures Reachable(maze, start) <= s
  {
    forall q | q in Reachable(maze, start)
      ensures q in s
    {
      ReachableIffConnected(maze, start, q);
      var w :| IsWalk(maze, start, w) && Last(w) == q;
      ClosedSetHoldsWalk(maze, start, s, w);
    }
  }

  /** The cell from which a step in direction `Directions[i]` leads to `q`. */
  function Before(q: Pos, i: nat): Pos
    requires i < |Directions|
    ensures Add(Before(q, i), Directions[i]) == q
  {
    Pos(q.row - Directions[i].row, q.col - Directions[i].col)
  }

  /**
   Some walk of at most `k` steps reaches `q`: `q` is `start`, or it is
   reachable in fewer steps, or it is open and one step beyond a cell
   reachable in `k - 1` steps. The four predecessors are listed
   explicitly, in the neighbour order. False for negative `k`.
   */
  ghost predicate WithinSteps(maze: Maze, start: Pos, q: Pos, k: int)
    decreases k
  {
    && k >= 0
    && (|| q == start
        || (&& k > 0
            && (|| WithinSteps(maze, start, q, k - 1)
                || (&& IsOpen(maze, q)
                    && (|| WithinSteps(maze, start, Before(q, 0), k - 1)
                        || WithinSteps(maze, start, Before(q, 1), k - 1)
                        || WithinSteps(maze, start, Before(q, 2), k - 1)
                        || WithinSteps(maze, start, Before(q, 3), k - 1))))))
  }

  lemma {:induction false} WithinMonotone(maze: Maze, start: Pos, q: Pos, j: int, k: int)
    requires j <= k && WithinSteps(maze, start, q, j)
    ensures WithinSteps(maze, start, q, k)
    decreases k - j
  {
    if j < k {
      WithinMonotone(maze, start, q, j, k - 1);
    }
  }

  /** A walk of `n` cells (n - 1 steps) ends within n - 1 steps of `start`. */
  lemma {:induction false} WalkEndsWithin(maze: Maze, start: Pos, w: seq<Pos>)
    requires IsWalk(maze, start, w)
    ensures WithinSteps(maze, start, Last(w), |w| - 1)
    decreases |w|
  {
    if |w| > 1 {
      var w' := w[..|w| - 1];
      WalkEndsWithin(maze, start, w');
      var c, q := Last(w'), Last(w);
      var i :| 0 <= i < |Directions| && Directions[i] == Delta(c, q);
      assert Before(q, i) == c;
    }
  }

  /**
   If every cell within `k` steps is closed, every open neighbour of a
   closed cell is inside, and `start` is inside, then every cell within
   `k + 1` steps is inside.
   */
  lemma NextStepsInside(maze: Maze, start: Pos, k: int, inside: set<Pos>, closed: set<Pos>)
    requires start in inside && closed <= inside
    requires forall x :: WithinSteps(maze, start, x, k) ==> x in closed
    requires StepClosed(maze, inside, closed)
    ensures forall x :: WithinSteps(maze, start, x, k + 1) ==> x in inside
  {
    forall x | WithinSteps(maze, start, x, k + 1)
      ensures x in inside
    {
      if x != start && !WithinSteps(maze, start, x, k) {
        var i: nat :| i < |Directions| && WithinSteps(maze, start, Before(x, i), k);
        assert Add(Before(x, i), Directions[i]) == x;
      }
    }
  }
}
