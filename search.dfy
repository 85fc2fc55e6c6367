/**
 The three path searches of the game: breadth-first, depth-first and A*.
 Each pops an entry from its frontier, counts the pop, returns the entry's
 path if it reached the goal, and otherwise pushes every open, not yet
 visited neighbour (right, down, left, up) with the path extended by it,
 marking the neighbour visited at once. Each returns the path, or `None`
 when the frontier runs dry, together with the number of pops.
 */
module SearchAlgorithms {
  import opened Wrappers
  import opened Grid
  import opened Walks
  import opened Frontier

  /**
   Breadth-first order: the queue is sorted by path length and spans at most
   two lengths; no queued position can be reached by a shorter walk than its
   own path; and every position some walk reaches in fewer steps than the
   head's path has is already closed.
   */
  ghost predicate Layered(maze: Maze, start: Pos, q: seq<Entry>, closed: set<Pos>) {
    && (forall i, j :: 0 <= i <= j < |q| ==> |q[i].path| <= |q[j].path|)
    && (forall j :: 0 <= j < |q| ==> |q[j].path| <= |q[0].path| + 1)
    && (forall j :: 0 <= j < |q| ==> !WithinSteps(maze, start, q[j].pos, |q[j].path| - 2))
    && (|q| > 0 ==> forall x :: WithinSteps(maze, start, x, |q[0].path| - 2) ==> x in closed)
  }

  /**
   Breadth-first order inside the neighbour loop of an entry whose path has
   `len` cells: the queue is sorted, every entry has `len` or `len + 1`
   cells, no entry has a shorter walk, and the ball of radius `len - 1`
   is visited.
   */
  ghost predicate LayeredFrom(maze: Maze, start: Pos, q: seq<Entry>, closed: set<Pos>,
                              visited: set<Pos>, len: nat)
  {
    && (forall i, j :: 0 <= i <= j < |q| ==> |q[i].path| <= |q[j].path|)
    && (forall j :: 0 <= j < |q| ==> len <= |q[j].path| <= len + 1)
    && (forall j :: 0 <= j < |q| ==> !WithinSteps(maze, start, q[j].pos, |q[j].path| - 2))
    && (forall x :: WithinSteps(maze, start, x, len - 2) ==> x in closed)
    && (forall x :: WithinSteps(maze, start, x, len - 1) ==> x in visited)
  }

  lemma LayeredInit(maze: Maze, start: Pos)
    ensures Layered(maze, start, [Entry(start, [start])], {})
  {
  }

  lemma LayeredPop(maze: Maze, start: Pos, q: seq<Entry>, visited: set<Pos>, closed: set<Pos>)
    requires start in visited && closed <= visited && StepClosed(maze, visited, closed)
    requires Layered(maze, start, q, closed) && |q| > 0
    ensures LayeredFrom(maze, start, q[1..], closed, visited, |q[0].path|)
  {
    var len := |q[0].path|;
    NextStepsInside(maze, start, len - 2, visited, closed);
    var rest := q[1..];
    assert forall j :: 0 <= j < |rest| ==> rest[j] == q[j + 1];
  }

  lemma LayeredPush(maze: Maze, start: Pos, q: seq<Entry>, closed: set<Pos>,
                    visited: set<Pos>, len: nat, n: Pos, path: seq<Pos>)
    requires LayeredFrom(maze, start, q, closed, visited, len)
    requires n !in visited && |path| == len
    ensures LayeredFrom(maze, start, q + [Entry(n, path + [n])], closed, visited + {n}, len)
  {
    var q' := q + [Entry(n, path + [n])];
    forall j | 0 <= j < |q'| ensures !WithinSteps(maze, start, q'[j].pos, |q'[j].path| - 2) {
      if j < |q| {
        assert q'[j] == q[j];
      }
    }
  }

  lemma LayeredClose(maze: Maze, start: Pos, q: seq<Entry>, visited: set<Pos>, closed: set<Pos>, cur: Entry)
    requires visited == closed + {cur.pos} + Positions(q)
    requires LayeredFrom(maze, start, q, closed, visited, |cur.path|)
    ensures Layered(maze, start, q, closed + {cur.pos})
  {
    var len := |cur.path|;
    if |q| > 0 && |q[0].path| == len + 1 {
      forall x | WithinSteps(maze, start, x, len - 1) ensures x in closed + {cur.pos} {
        assert x in visited;
      }
    }
  }

  /**
   The goal entry at the head of a breadth-first queue carries a shortest
   walk: no walk from `start` to the goal has fewer cells.
   */
  lemma BfsShortest(maze: Maze, start: Pos, goal: Pos, q: seq<Entry>, closed: set<Pos>, w: seq<Pos>)
    requires Layered(maze, start, q, closed) && |q| > 0 && q[0].pos == goal
    requires IsWalk(maze, start, w) && Last(w) == goal
    ensures |q[0].path| <= |w|
  {
    WalkEndsWithin(maze, start, w);
    if |w| < |q[0].path| {
      WithinMonotone(maze, start, goal, |w| - 1, |q[0].path| - 2);
    }
  }

  /**
   `bfs`: the frontier is a FIFO queue. The returned path is a shortest walk
   from `start` to `goal` with no repeated cell; `None` comes back exactly
   when no walk reaches `goal`, and then every reachable cell has been popped.
   */
  method Bfs(maze: Maze, start: Pos, goal: Pos) returns (path: Option<seq<Pos>>, nodesExpanded: nat)
    requires WellFormed(maze)
    ensures path.Some? ==> IsPath(maze, start, goal, path.value)
    ensures path.Some? ==> forall w :: IsWalk(maze, start, w) && Last(w) == goal ==> |path.value| <= |w|
    ensures path.None? <==> !Connected(maze, start, goal)
    ensures nodesExpanded <= |Reachable(maze, start)|
    ensures path.None? ==> nodesExpanded == |Reachable(maze, start)|
    ensures start == goal ==> path == Some([start]) && nodesExpanded == 1
  {
    var rows, cols := |maze|, |maze[0]|;
    var queue := [Entry(start, [start])];
    var visited := {start};
    nodesExpanded := 0;
    ghost var closed: set<Pos> := {};
    Init(maze, start, goal);
    LayeredInit(maze, start);
    while queue != []
      invariant SearchInv(maze, start, goal, queue, visited, closed, nodesExpanded)
      invariant Layered(maze, start, queue, closed)
      invariant nodesExpanded <= |Reachable(maze, start)|
      decreases |Reachable(maze, start)| - nodesExpanded
    {
      ghost var before := queue;
      var cur := queue[0];
      queue := queue[1..];
      nodesExpanded := nodesExpanded + 1;
      if cur.pos == goal {
        Found(maze, start, goal, before, visited, closed, nodesExpanded - 1, 0);
        forall w | IsWalk(maze, start, w) && Last(w) == goal ensures |cur.path| <= |w| {
          BfsShortest(maze, start, goal, before, closed, w);
        }
        PathConnects(maze, start, goal, cur.path);
        return Some(cur.path), nodesExpanded;
      }
      assert before[..0] + before[1..] == queue;
      Pop(maze, start, goal, before, visited, closed, nodesExpanded - 1, 0);
      LayeredPop(maze, start, before, visited, closed);
      for i := 0 to |Directions|
        invariant ExpandInv(maze, start, goal, queue, visited, closed, nodesExpanded, cur, i)
        invariant LayeredFrom(maze, start, queue, closed, visited, |cur.path|)
      {
        var d := Directions[i];
        var next := Add(cur.pos, d);
        OpenTest(maze, rows, cols, next);
        if 0 <= next.row < rows && 0 <= next.col < cols && maze[next.row][next.col] != Wall && next !in visited {
          Push(maze, start, goal, queue, visited, closed, nodesExpanded, cur, i);
          LayeredPush(maze, start, queue, closed, visited, |cur.path|, next, cur.path);
          visited := visited + {next};
          queue := queue + [Entry(next, cur.path + [next])];
        } else {
          Skip(maze, start, goal, queue, visited, closed, nodesExpanded, cur, i);
        }
      }
      Close(maze, start, goal, queue, visited, closed, nodesExpanded, cur);
      LayeredClose(maze, start, queue, visited, closed, cur);
      closed := closed + {cur.pos};
      ExpandedBound(maze, start, goal, queue, visited, closed, nodesExpanded);
    }
    Exhausted(maze, start, goal, visited, closed, nodesExpanded);
    path := None;
  }

  /**
   `dfs`: the frontier is a stack, popped at its end. The returned path is a
   walk from `start` to `goal` with no repeated cell; `None` comes back
   exactly when no walk reaches `goal`, and then every reachable cell has
   been popped.
   */
  method Dfs(maze: Maze, start: Pos, goal: Pos) returns (path: Option<seq<Pos>>, nodesExpanded: nat)
    requires WellFormed(maze)
    ensures path.Some? ==> IsPath(maze, start, goal, path.value)
    ensures path.None? <==> !Connected(maze, start, goal)
    ensures nodesExpanded <= |Reachable(maze, start)|
    ensures path.None? ==> nodesExpanded == |Reachable(maze, start)|
    ensures start == goal ==> path == Some([start]) && nodesExpanded == 1
  {
    var rows, cols := |maze|, |maze[0]|;
    var stack := [Entry(start, [start])];
    var visited := {start};
    nodesExpanded := 0;
    ghost var closed: set<Pos> := {};
    Init(maze, start, goal);
    while stack != []
      invariant SearchInv(maze, start, goal, stack, visited, closed, nodesExpanded)
      invariant nodesExpanded <= |Reachable(maze, start)|
      decreases |Reachable(maze, start)| - nodesExpanded
    {
      ghost var before := stack;
      ghost var k := |stack| - 1;
      var cur := stack[|stack| - 1];
      stack := stack[..|stack| - 1];
      nodesExpanded := nodesExpanded + 1;
      if cur.pos == goal {
        Found(maze, start, goal, before, visited, closed, nodesExpanded - 1, k);
        PathConnects(maze, start, goal, cur.path);
        return Some(cur.path), nodesExpanded;
      }
      assert before[..k] + before[k + 1..] == stack;
      Pop(maze, start, goal, before, visited, closed, nodesExpanded - 1, k);
      for i := 0 to |Directions|
        invariant ExpandInv(maze, start, goal, stack, visited, closed, nodesExpanded, cur, i)
      {
        var d := Directions[i];
        var next := Add(cur.pos, d);
        OpenTest(maze, rows, cols, next);
        if 0 <= next.row < rows && 0 <= next.col < cols && maze[next.row][next.col] != Wall && next !in visited {
          Push(maze, start, goal, stack, visited, closed, nodesExpanded, cur, i);
          visited := visited + {next};
          stack := stack + [Entry(next, cur.path + [next])];
        } else {
          Skip(maze, start, goal, stack, visited, closed, nodesExpanded, cur, i);
        }
      }
      Close(maze, start, goal, stack, visited, closed, nodesExpanded, cur);
      closed := closed + {cur.pos};
      ExpandedBound(maze, start, goal, stack, visited, closed, nodesExpanded);
    }
    Exhausted(maze, start, goal, visited, closed, nodesExpanded);
    path := None;
  }

  /** An entry of the `astar` heap: its priority `f`, position, path and cost `g`. */
  datatype Node = Node(f: int, pos: Pos, path: seq<Pos>, g: int)

  /**
   Python's tuple order on heap entries, read as far as the position: by `f`,
   then by row, then by column. Positions in the heap are unique, so the
   later components (the path and `g`) are never compared.
   */
  predicate KeyLess(a: Node, b: Node) {
    || a.f < b.f
    || (a.f == b.f && (a.pos.row < b.pos.row || (a.pos.row == b.pos.row && a.pos.col < b.pos.col)))
  }

  /**
   The index `heappop` removes: an entry no other entry is below. When the
   positions are distinct it is below every other entry, so the pop is
   determined by (f, row, col) alone.
   */
  function MinIndex(h: seq<Node>): (k: nat)
    requires |h| > 0
    ensures k < |h|
    ensures forall j :: 0 <= j < |h| ==> !KeyLess(h[j], h[k])
    ensures (forall i, j :: 0 <= i < j < |h| ==> h[i].pos != h[j].pos) ==>
              forall j :: 0 <= j < |h| && j != k ==> KeyLess(h[k], h[j])
    decreases |h|
  {
    if |h| == 1 then 0
    else
      var k := MinIndex(h[..|h| - 1]);
      if KeyLess(h[|h| - 1], h[k]) then |h| - 1 else k
  }

  /**
   The key each heap entry carries: `g` is the number of steps of its path,
   and `f` is `g` plus the Manhattan distance to the goal, except on the
   initial entry, pushed with `f = 0` and `g = 0`.
   */
  predicate KeyOk(goal: Pos, n: Node) {
    && n.g == |n.path| - 1
    && n.f == (if n.g == 0 then 0 else n.g + Manhattan(n.pos, goal))
  }

  ghost predicate KeysOk(goal: Pos, h: seq<Node>) {
    forall n :: n in h ==> KeyOk(goal, n)
  }

  /** Removing an entry or pushing one with a correct key keeps every key correct. */
  lemma KeysRemove(goal: Pos, h: seq<Node>, k: nat)
    requires KeysOk(goal, h) && k < |h|
    ensures KeyOk(goal, h[k]) && KeysOk(goal, h[..k] + h[k + 1..])
  {
    forall n | n in h[..k] + h[k + 1..] ensures n in h {
      if n in h[..k] {
        var j :| 0 <= j < k && h[..k][j] == n;
        assert h[j] == n;
      } else {
        var j :| 0 <= j < |h| - k - 1 && h[k + 1..][j] == n;
        assert h[k + 1 + j] == n;
      }
    }
  }

  lemma KeysPush(goal: Pos, h: seq<Node>, cur: Node, next: Pos)
    requires KeysOk(goal, h) && KeyOk(goal, cur) && |cur.path| > 0
    ensures KeysOk(goal, h + [Node(cur.g + 1 + Manhattan(next, goal), next, cur.path + [next], cur.g + 1)])
  {
    var n := Node(cur.g + 1 + Manhattan(next, goal), next, cur.path + [next], cur.g + 1);
    assert KeyOk(goal, n);
    forall x | x in h + [n] ensures KeyOk(goal, x) {
      if x != n {
        assert x in h;
      }
    }
  }

  /** The heap read as a plain frontier of (position, path) entries. */
  ghost function Plain(h: seq<Node>): seq<Entry> {
    seq(|h|, i requires 0 <= i < |h| => Entry(h[i].pos, h[i].path))
  }

  lemma PlainRemove(h: seq<Node>, k: nat)
    requires k < |h|
    ensures Plain(h[..k] + h[k + 1..]) == Plain(h)[..k] + Plain(h)[k + 1..]
  {
  }

  /** Distinct positions in the plain frontier are distinct positions in the heap. */
  lemma PlainUnique(h: seq<Node>)
    requires UniquePositions(Plain(h))
    ensures forall i, j :: 0 <= i < j < |h| ==> h[i].pos != h[j].pos
  {
    forall i, j | 0 <= i < j < |h| ensures h[i].pos != h[j].pos {
      assert Plain(h)[i].pos == h[i].pos && Plain(h)[j].pos == h[j].pos;
    }
  }

  lemma PlainAppend(h: seq<Node>, n: Node)
    ensures Plain(h + [n]) == Plain(h) + [Entry(n.pos, n.path)]
  {
  }

  /**
   The Manhattan heuristic never overestimates: a walk's end is at most as
   many Manhattan units from `start` as the walk has steps.
   */
  lemma {:induction false} ManhattanAdmissible(maze: Maze, start: Pos, w: seq<Pos>)
    requires IsWalk(maze, start, w)
    ensures Manhattan(start, Last(w)) <= |w| - 1
    decreases |w|
  {
    if |w| > 1 {
      var w' := w[..|w| - 1];
      ManhattanAdmissible(maze, start, w');
      StepAddsDelta(Last(w'), Last(w));
      StepIsUnit(Last(w'), Delta(Last(w'), Last(w)));
    }
  }

  /**
   `astar`: the frontier is a binary heap keyed by (f, position, path, g),
   here a sequence from which the least key is removed. The returned path is
   a walk from `start` to `goal` with no repeated cell; `None` comes back
   exactly when no walk reaches `goal`, and then every reachable cell has
   been popped.
   */
  method Astar(maze: Maze, start: Pos, goal: Pos) returns (path: Option<seq<Pos>>, nodesExpanded: nat)
    requires WellFormed(maze)
    ensures path.Some? ==> IsPath(maze, start, goal, path.value)
    ensures path.None? <==> !Connected(maze, start, goal)
    ensures nodesExpanded <= |Reachable(maze, start)|
    ensures path.None? ==> nodesExpanded == |Reachable(maze, start)|
    ensures start == goal ==> path == Some([start]) && nodesExpanded == 1
  {
    var rows, cols := |maze|, |maze[0]|;
    var openSet := [Node(0, start, [start], 0)];
    var visited := {start};
    nodesExpanded := 0;
    ghost var closed: set<Pos> := {};
    ghost var fr := [Entry(start, [start])];
    Init(maze, start, goal);
    while openSet != []
      invariant fr == Plain(openSet)
      invariant SearchInv(maze, start, goal, fr, visited, closed, nodesExpanded)
      invariant KeysOk(goal, openSet)
      invariant nodesExpanded <= |Reachable(maze, start)|
      decreases |Reachable(maze, start)| - nodesExpanded
    {
      ghost var before := openSet;
      var k := MinIndex(openSet);
      PlainUnique(openSet);
      assert forall j :: 0 <= j < |openSet| && j != k ==> KeyLess(openSet[k], openSet[j]);
      var cur := openSet[k];
      openSet := openSet[..k] + openSet[k + 1..];
      nodesExpanded := nodesExpanded + 1;
      ghost var e := fr[k];
      assert e == Entry(cur.pos, cur.path);
      if cur.pos == goal {
        Found(maze, start, goal, fr, visited, closed, nodesExpanded - 1, k);
        PathConnects(maze, start, goal, cur.path);
        return Some(cur.path), nodesExpanded;
      }
      KeysRemove(goal, before, k);
      PlainRemove(before, k);
      Pop(maze, start, goal, fr, visited, closed, nodesExpanded - 1, k);
      fr := fr[..k] + fr[k + 1..];
      for i := 0 to |Directions|
        invariant fr == Plain(openSet)
        invariant ExpandInv(maze, start, goal, fr, visited, closed, nodesExpanded, e, i)
        invariant KeysOk(goal, openSet)
      {
        var d := Directions[i];
        var next := Add(cur.pos, d);
        OpenTest(maze, rows, cols, next);
        if 0 <= next.row < rows && 0 <= next.col < cols && maze[next.row][next.col] != Wall && next !in visited {
          Push(maze, start, goal, fr, visited, closed, nodesExpanded, e, i);
          visited := visited + {next};
          var newG := cur.g + 1;
          var newH := Manhattan(next, goal);
          var newF := newG + newH;
          PlainAppend(openSet, Node(newF, next, cur.path + [next], newG));
          KeysPush(goal, openSet, cur, next);
          openSet := openSet + [Node(newF, next, cur.path + [next], newG)];
          fr := fr + [Entry(next, cur.path + [next])];
        } else {
          Skip(maze, start, goal, fr, visited, closed, nodesExpanded, e, i);
        }
      }
      Close(maze, start, goal, fr, visited, closed, nodesExpanded, e);
      closed := closed + {cur.pos};
      ExpandedBound(maze, start, goal, fr, visited, closed, nodesExpanded);
    }
    Exhausted(maze, start, goal, visited, closed, nodesExpanded);
    path := None;
  }
}
