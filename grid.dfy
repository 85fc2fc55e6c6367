/**
 The maze shared by the path searches and the adversarial search: a list of
 rows of integers, where a cell holding 1 is a wall and any other value is
 open, addressed by (row, column) positions.
 */
module Grid {

  /** A (row, column) pair. Moves are the same kind of pair, read as a displacement. */
  datatype Pos = Pos(row: int, col: int)

  type Maze = seq<seq<int>>

  /** The neighbour order used everywhere: right, down, left, up. */
  const Directions: seq<Pos> := [Pos(0, 1), Pos(1, 0), Pos(0, -1), Pos(-1, 0)]

  /** Value of a wall cell. */
  const Wall := 1

  /**
   The shape the model asks of a maze: a first row, and no row shorter than it.
   The code reads `len(maze[0])` as the column count, which raises on an empty
   maze; it indexes `maze[r][c]` only for a probed cell that passed the bounds
   test, so a shorter row raises only when such a cell lies past its end.
   Mazes outside this shape are excluded, including ragged ones on which the
   code would return normally.
   */
  predicate WellFormed(maze: Maze) {
    |maze| > 0 && forall r :: 0 <= r < |maze| ==> |maze[r]| >= |maze[0]|
  }

  function Rows(maze: Maze): nat { |maze| }

  function Cols(maze: Maze): nat { if |maze| == 0 then 0 else |maze[0]| }

  predicate InBounds(maze: Maze, p: Pos) {
    0 <= p.row < Rows(maze) && 0 <= p.col < Cols(maze)
  }

  /**
   True iff `p` is inside the maze and not a wall. The row-length conjunct
   only keeps the predicate total; on a well-formed maze it always holds.
   */
  predicate IsOpen(maze: Maze, p: Pos) {
    InBounds(maze, p) && p.col < |maze[p.row]| && maze[p.row][p.col] != Wall
  }

  function Add(p: Pos, d: Pos): Pos {
    Pos(p.row + d.row, p.col + d.col)
  }

  /** The displacement that leads from `p` to `q`. */
  function Delta(p: Pos, q: Pos): Pos {
    Pos(q.row - p.row, q.col - p.col)
  }

  /** `q` is one cardinal step away from `p`. */
  predicate IsStep(p: Pos, q: Pos) {
    Delta(p, q) in Directions
  }

  function Abs(x: int): nat { if x < 0 then -x else x }

  /** |row difference| + |column difference|. */
  function Manhattan(p: Pos, q: Pos): (r: nat)
    ensures r == 0 <==> p == q
  {
    Abs(p.row - q.row) + Abs(p.col - q.col)
  }

  lemma ManhattanSymmetric(p: Pos, q: Pos)
    ensures Manhattan(p, q) == Manhattan(q, p)
  {
  }

  /** Every direction is a unit step, so stepping changes the Manhattan distance by exactly one. */
  lemma StepIsUnit(p: Pos, d: Pos)
    requires d in Directions
    ensures IsStep(p, Add(p, d))
    ensures Manhattan(p, Add(p, d)) == 1
    ensures Add(p, d) != p
  {
  }

  lemma StepAddsDelta(p: Pos, q: Pos)
    requires IsStep(p, q)
    ensures q == Add(p, Delta(p, q))
  {
  }

  /**
   The bounds-and-wall test the searches write out inline is `IsOpen` on a
   well-formed maze.
   */
  lemma OpenTest(maze: Maze, rows: int, cols: int, p: Pos)
    requires WellFormed(maze) && rows == |maze| && cols == |maze[0]|
    ensures (0 <= p.row < rows && 0 <= p.col < cols && maze[p.row][p.col] != Wall) <==> IsOpen(maze, p)
  {
  }
}
