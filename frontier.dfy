/**
 The bookkeeping that `bfs`, `dfs` and `astar` share: a frontier of
 (position, path) entries, a `visited` set to which a position is added the
 moment it is pushed, and a count of the entries popped so far. The three
 searches differ only in which entry they pop, so the invariant below and
 the lemmas that carry it through one pop and one push are stated once,
 for removal at an arbitrary index.
 */
module Frontier {
  import opened Grid
  import opened Walks

  /** Some walk from `start` reaches every position in `s`. */
  ghost predicate AllConnected(maze: Maze, start: Pos, s: set<Pos>) {
    forall x :: x in s ==> Connected(maze, start, x)
  }

  lemma AllConnectedReachable(maze: Maze, start: Pos, s: set<Pos>)
    requires AllConnected(maze, start, s)
    ensures s <= Reachable(maze, start)
  {
    forall x | x in s ensures x in Reachable(maze, start) {
      ReachableIffConnected(maze, start, x);
    }
  }

  /** A frontier entry: a position and the path that reached it. */
  datatype Entry = Entry(pos: Pos, path: seq<Pos>)

  ghost function Positions(fr: seq<Entry>): set<Pos> {
    set i | 0 <= i < |fr| :: fr[i].pos
  }

  /** No position occurs in two entries. */
  ghost predicate UniquePositions(fr: seq<Entry>) {
    forall i, j :: 0 <= i < j < |fr| ==> fr[i].pos != fr[j].pos
  }

  /** The entry's path is a repetition-free walk from `start` to its position, all of it visited. */
  ghost predicate EntryOk(maze: Maze, start: Pos, visited: set<Pos>, e: Entry) {
    IsPath(maze, start, e.pos, e.path) && forall i :: 0 <= i < |e.path| ==> e.path[i] in visited
  }

  ghost predicate EntriesOk(maze: Maze, start: Pos, visited: set<Pos>, fr: seq<Entry>) {
    forall e :: e in fr ==> EntryOk(maze, start, visited, e)
  }

  lemma EntryOkGrows(maze: Maze, start: Pos, visited: set<Pos>, more: set<Pos>, e: Entry)
    requires EntryOk(maze, start, visited, e) && visited <= more
    ensures EntryOk(maze, start, more, e)
  {
  }

  /**
   The state at the head of a search loop. `closed` is the set of positions
   popped so far (one per pop, so its size is the expansion count); every
   visited position is either closed or in the frontier, never both; every
   open neighbour of a closed position has been visited; everything visited
   is reachable; the goal has not been popped yet; and before the first pop
   the frontier is exactly the initial entry.
   */
  ghost predicate SearchInv(maze: Maze, start: Pos, goal: Pos, fr: seq<Entry>,
                            visited: set<Pos>, closed: set<Pos>, expanded: nat)
  {
    && start in visited
    && AllConnected(maze, start, visited)
    && EntriesOk(maze, start, visited, fr)
    && UniquePositions(fr)
    && visited == closed + Positions(fr)
    && closed !! Positions(fr)
    && StepClosed(maze, visited, closed)
    && |closed| == expanded
    && goal !in closed
    && (closed == {} ==> fr == [Entry(start, [start])])
    && (closed != {} ==> start in closed)
  }

  /**
   The state inside the neighbour loop, after `cur` was popped and the first
   `i` directions were looked at: `cur` is neither closed nor in the frontier,
   and each of its first `i` open neighbours has been visited.
   */
  ghost predicate ExpandInv(maze: Maze, start: Pos, goal: Pos, fr: seq<Entry>,
                            visited: set<Pos>, closed: set<Pos>, expanded: nat,
                            cur: Entry, i: nat)
  {
    && start in visited
    && AllConnected(maze, start, visited)
    && EntriesOk(maze, start, visited, fr)
    && EntryOk(maze, start, visited, cur)
    && UniquePositions(fr)
    && visited == closed + {cur.pos} + Positions(fr)
    && cur.pos !in closed && cur.pos !in Positions(fr) && closed !! Positions(fr)
    && StepClosed(maze, visited, closed)
    && |closed| + 1 == expanded
    && goal !in closed && cur.pos != goal
    && start in closed + {cur.pos}
    && i <= |Directions|
    && forall j :: 0 <= j < i && IsOpen(maze, Add(cur.pos, Directions[j])) ==> Add(cur.pos, Directions[j]) in visited
  }

  lemma PositionsAppend(fr: seq<Entry>, e: Entry)
    ensures Positions(fr + [e]) == Positions(fr) + {e.pos}
  {
    var fr' := fr + [e];
    forall p | p in Positions(fr) ensures p in Positions(fr') {
      var i :| 0 <= i < |fr| && fr[i].pos == p;
      assert fr'[i] == fr[i];
    }
    assert fr'[|fr|] == e;
  }

  lemma PositionsRemove(fr: seq<Entry>, k: nat)
    requires k < |fr| && UniquePositions(fr)
    ensures UniquePositions(fr[..k] + fr[k + 1..])
    ensures Positions(fr[..k] + fr[k + 1..]) == Positions(fr) - {fr[k].pos}
    ensures forall e :: e in fr[..k] + fr[k + 1..] ==> e in fr
  {
    var rest := fr[..k] + fr[k + 1..];
    assert forall j :: 0 <= j < |rest| ==> rest[j] == fr[if j < k then j else j + 1];
    forall p | p in Positions(fr) - {fr[k].pos} ensures p in Positions(rest) {
      var i :| 0 <= i < |fr| && fr[i].pos == p;
      assert rest[if i < k then i else i - 1] == fr[i];
    }
  }

  /** Popping entry `k` (not the goal) moves the search into the neighbour loop with one more expansion. */
  lemma Pop(maze: Maze, start: Pos, goal: Pos, fr: seq<Entry>,
            visited: set<Pos>, closed: set<Pos>, expanded: nat, k: nat)
    requires SearchInv(maze, start, goal, fr, visited, closed, expanded)
    requires k < |fr| && fr[k].pos != goal
    ensures ExpandInv(maze, start, goal, fr[..k] + fr[k + 1..], visited, closed, expanded + 1, fr[k], 0)
  {
    PositionsRemove(fr, k);
    var rest := fr[..k] + fr[k + 1..];
    assert fr[k].pos in Positions(fr);
    if closed == {} {
      assert fr[k] == Entry(start, [start]);
    }
  }

  /** The entry for an unvisited open neighbour of `cur` has a valid path, all of it visited once the neighbour is. */
  lemma ExtendEntry(maze: Maze, start: Pos, visited: set<Pos>, cur: Entry, d: Pos)
    requires EntryOk(maze, start, visited, cur)
    requires d in Directions && IsOpen(maze, Add(cur.pos, d)) && Add(cur.pos, d) !in visited
    ensures var n := Add(cur.pos, d);
      EntryOk(maze, start, visited + {n}, Entry(n, cur.path + [n])) && Connected(maze, start, n)
  {
    var n := Add(cur.pos, d);
    var p := cur.path + [n];
    ExtendWalk(maze, start, cur.path, d);
    assert Last(p) == n;
    forall j, k | 0 <= j < k < |p| ensures p[j] != p[k] {
      if k < |cur.path| {
        assert p[j] == cur.path[j] && p[k] == cur.path[k];
      } else {
        assert cur.path[j] in visited;
      }
    }
    forall j | 0 <= j < |p| ensures p[j] in visited + {n} {
      if j < |cur.path| {
        assert p[j] == cur.path[j];
      }
    }
  }

  /** Pushing an unvisited open neighbour keeps the entries valid and their positions unique. */
  lemma PushEntries(maze: Maze, start: Pos, fr: seq<Entry>, visited: set<Pos>, cur: Entry, d: Pos)
    requires AllConnected(maze, start, visited)
    requires EntriesOk(maze, start, visited, fr) && EntryOk(maze, start, visited, cur)
    requires UniquePositions(fr) && Positions(fr) <= visited
    requires d in Directions && IsOpen(maze, Add(cur.pos, d)) && Add(cur.pos, d) !in visited
    ensures var n := Add(cur.pos, d);
      var fr' := fr + [Entry(n, cur.path + [n])];
      && AllConnected(maze, start, visited + {n})
      && EntriesOk(maze, start, visited + {n}, fr')
      && EntryOk(maze, start, visited + {n}, cur)
      && UniquePositions(fr')
      && Positions(fr') == Positions(fr) + {n}
  {
    var n := Add(cur.pos, d);
    var e := Entry(n, cur.path + [n]);
    var fr' := fr + [e];
    var visited' := visited + {n};
    ExtendEntry(maze, start, visited, cur, d);
    EntryOkGrows(maze, start, visited, visited', cur);
    forall x | x in fr' ensures EntryOk(maze, start, visited', x) {
      if x != e {
        assert x in fr;
        EntryOkGrows(maze, start, visited, visited', x);
      }
    }
    PositionsAppend(fr, e);
    forall j | 0 <= j < |fr| ensures fr'[j].pos != n {
      assert fr[j].pos in Positions(fr);
    }
  }

  /** Pushing the unvisited open neighbour in direction `i`. */
  lemma Push(maze: Maze, start: Pos, goal: Pos, fr: seq<Entry>,
             visited: set<Pos>, closed: set<Pos>, expanded: nat, cur: Entry, i: nat)
    requires ExpandInv(maze, start, goal, fr, visited, closed, expanded, cur, i)
    requires i < |Directions|
    requires IsOpen(maze, Add(cur.pos, Directions[i])) && Add(cur.pos, Directions[i]) !in visited
    ensures var n := Add(cur.pos, Directions[i]);
      ExpandInv(maze, start, goal, fr + [Entry(n, cur.path + [n])], visited + {n}, closed, expanded, cur, i + 1)
  {
    var n := Add(cur.pos, Directions[i]);
    PushEntries(maze, start, fr, visited, cur, Directions[i]);
    assert n != cur.pos by { StepIsUnit(cur.pos, Directions[i]); }
    StepClosedGrows(maze, visited, visited + {n}, closed);
    LookedGrows(maze, cur.pos, visited, n, i);
  }

  /** Marking one more position visited keeps every closed position's open neighbours visited. */
  lemma StepClosedGrows(maze: Maze, inside: set<Pos>, more: set<Pos>, from: set<Pos>)
    requires StepClosed(maze, inside, from) && inside <= more
    ensures StepClosed(maze, more, from)
  {
  }

  /** After pushing the neighbour in direction `i`, each of the first `i + 1` open neighbours is visited. */
  lemma LookedGrows(maze: Maze, c: Pos, visited: set<Pos>, n: Pos, i: nat)
    requires i < |Directions| && n == Add(c, Directions[i])
    requires forall j :: 0 <= j < i && IsOpen(maze, Add(c, Directions[j])) ==> Add(c, Directions[j]) in visited
    ensures forall j :: 0 <= j < i + 1 && IsOpen(maze, Add(c, Directions[j])) ==> Add(c, Directions[j]) in visited + {n}
  {
  }

  /** Passing over direction `i` because its cell is a wall, off the grid or already visited. */
  lemma Skip(maze: Maze, start: Pos, goal: Pos, fr: seq<Entry>,
             visited: set<Pos>, closed: set<Pos>, expanded: nat, cur: Entry, i: nat)
    requires ExpandInv(maze, start, goal, fr, visited, closed, expanded, cur, i)
    requires i < |Directions|
    requires !(IsOpen(maze, Add(cur.pos, Directions[i])) && Add(cur.pos, Directions[i]) !in visited)
    ensures ExpandInv(maze, start, goal, fr, visited, closed, expanded, cur, i + 1)
  {
  }

  /** After all four directions the popped position is closed and the loop invariant holds again. */
  lemma Close(maze: Maze, start: Pos, goal: Pos, fr: seq<Entry>,
              visited: set<Pos>, closed: set<Pos>, expanded: nat, cur: Entry)
    requires ExpandInv(maze, start, goal, fr, visited, closed, expanded, cur, |Directions|)
    ensures SearchInv(maze, start, goal, fr, visited, closed + {cur.pos}, expanded)
  {
    forall c, d | c in closed + {cur.pos} && d in Directions && IsOpen(maze, Add(c, d))
      ensures Add(c, d) in visited
    {
      if c == cur.pos {
        var j :| 0 <= j < |Directions| && Directions[j] == d;
      }
    }
  }

  /** Every state of the loop has expanded at most as many positions as are reachable. */
  lemma ExpandedBound(maze: Maze, start: Pos, goal: Pos, fr: seq<Entry>,
                      visited: set<Pos>, closed: set<Pos>, expanded: nat)
    requires SearchInv(maze, start, goal, fr, visited, closed, expanded)
    ensures expanded <= |Reachable(maze, start)|
  {
    AllConnectedReachable(maze, start, visited);
    SubsetSize(closed, Reachable(maze, start));
  }

  /**
   Popping the goal: the entry's path is a valid answer, the expansion count
   including this pop stays within the reachable cells, and when `start` is
   the goal this is the very first pop, of the initial entry.
   */
  lemma Found(maze: Maze, start: Pos, goal: Pos, fr: seq<Entry>,
              visited: set<Pos>, closed: set<Pos>, expanded: nat, k: nat)
    requires SearchInv(maze, start, goal, fr, visited, closed, expanded)
    requires k < |fr| && fr[k].pos == goal
    ensures IsPath(maze, start, goal, fr[k].path)
    ensures expanded + 1 <= |Reachable(maze, start)|
    ensures start == goal ==> expanded == 0 && fr[k].path == [start]
  {
    assert EntryOk(maze, start, visited, fr[k]);
    assert goal in Positions(fr);
    AllConnectedReachable(maze, start, visited);
    assert closed + {goal} <= Reachable(maze, start);
    SubsetSize(closed + {goal}, Reachable(maze, start));
  }

  /**
   An empty frontier: everything reachable was visited and popped, and the
   goal, never popped, is unreachable.
   */
  lemma Exhausted(maze: Maze, start: Pos, goal: Pos,
                  visited: set<Pos>, closed: set<Pos>, expanded: nat)
    requires SearchInv(maze, start, goal, [], visited, closed, expanded)
    ensures !Connected(maze, start, goal)
    ensures expanded == |Reachable(maze, start)|
  {
    assert Positions([]) == {};
    assert visited == closed;
    ClosedSetHoldsReachable(maze, start, visited);
    AllConnectedReachable(maze, start, visited);
    assert visited == Reachable(maze, start);
    ReachableIffConnected(maze, start, goal);
  }

  /** A valid answer witnesses that the goal is connected to `start`. */
  lemma PathConnects(maze: Maze, start: Pos, goal: Pos, w: seq<Pos>)
    requires IsPath(maze, start, goal, w)
    ensures Connected(maze, start, goal)
  {
  }

  /** The state before the first pop. */
  lemma Init(maze: Maze, start: Pos, goal: Pos)
    ensures SearchInv(maze, start, goal, [Entry(start, [start])], {start}, {}, 0)
  {
    var fr := [Entry(start, [start])];
    assert fr[0].pos == start;
    assert Positions(fr) == {start};
    assert IsWalk(maze, start, [start]);
  }
}
