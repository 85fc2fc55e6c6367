/**
 The adversarial move selection of the game: a static evaluation of a
 (Pac-Man, ghost, food) position, the legal moves from a cell, depth-limited
 minimax with alpha-beta pruning (Pac-Man maximises, the ghost minimises,
 the food never moves), a greedy chasing ghost, and the two entry points
 that turn "no move" into the null move (0, 0).
 */
module AdversarialAi {
  import opened Wrappers
  import opened Grid
  import opened ExtendedInt

  /** Score when the ghost stands on Pac-Man. */
  const CaughtScore := -10000
  /** Score when Pac-Man stands on the food (and the ghost does not). */
  const FoodScore := 10000
  /** Weight of the distance to the ghost, and of the distance to the food. */
  const GhostWeight := 50
  const FoodWeight := 10

  /**
   `evaluate_state`. Capture is tested first, so it wins even when Pac-Man is
   also on the food; otherwise reaching the food wins; otherwise the score
   rewards distance from the ghost and closeness to the food.
   */
  function Evaluate(pacmanPos: Pos, ghostPos: Pos, foodPos: Pos): (r: int)
    ensures pacmanPos == ghostPos ==> r == CaughtScore
    ensures pacmanPos != ghostPos && pacmanPos == foodPos ==> r == FoodScore
    ensures pacmanPos != ghostPos && pacmanPos != foodPos ==>
              r == GhostWeight * Manhattan(pacmanPos, ghostPos) - FoodWeight * Manhattan(pacmanPos, foodPos)
  {
    var ghostDist := Manhattan(pacmanPos, ghostPos);
    var foodDist := Manhattan(pacmanPos, foodPos);
    if ghostDist == 0 then CaughtScore
    else if foodDist == 0 then FoodScore
    else ghostDist * GhostWeight - foodDist * FoodWeight
  }

  /** The position of a direction in the neighbour order. */
  function DirIndex(d: Pos): (r: nat)
    requires d in Directions
    ensures r < |Directions| && Directions[r] == d
  {
    if d == Directions[0] then 0
    else if d == Directions[1] then 1
    else if d == Directions[2] then 2
    else 3
  }

  /** The moves, among the first `n` directions, whose target cell is open, in that order. */
  function OpenMovesUpTo(maze: Maze, pos: Pos, n: nat): seq<Pos>
    requires n <= |Directions|
  {
    if n == 0 then []
    else OpenMovesUpTo(maze, pos, n - 1) + (if IsOpen(maze, Add(pos, Directions[n - 1])) then [Directions[n - 1]] else [])
  }

  /**
   Among the first `n` directions, the open moves are at most `n`, each one
   of those directions, listed in the neighbour order without repetition.
   */
  lemma {:induction false} OpenMovesUpToOrder(maze: Maze, pos: Pos, n: nat)
    requires n <= |Directions|
    ensures var r := OpenMovesUpTo(maze, pos, n);
      && |r| <= n
      && (forall i :: 0 <= i < |r| ==> r[i] in Directions && DirIndex(r[i]) < n)
      && (forall i, j :: 0 <= i < j < |r| ==> DirIndex(r[i]) < DirIndex(r[j]))
  {
    if n > 0 {
      OpenMovesUpToOrder(maze, pos, n - 1);
      assert DirIndex(Directions[n - 1]) == n - 1;
    }
  }

  /** A direction is among the first `n` open moves exactly when it is one of the first `n` and its target is open. */
  lemma {:induction false} OpenMovesUpToMembers(maze: Maze, pos: Pos, n: nat)
    requires n <= |Directions|
    ensures forall m :: m in OpenMovesUpTo(maze, pos, n) <==> m in Directions[..n] && IsOpen(maze, Add(pos, m))
  {
    if n > 0 {
      OpenMovesUpToMembers(maze, pos, n - 1);
      assert Directions[..n] == Directions[..n - 1] + [Directions[n - 1]];
    }
  }

  /** The moves `get_valid_moves` returns from `pos`. */
  function OpenMoves(maze: Maze, pos: Pos): seq<Pos> {
    OpenMovesUpTo(maze, pos, |Directions|)
  }

  /**
   The legal moves of `pos`: at most four, listed in the neighbour order
   without repetition, and a direction is among them exactly when its
   target cell is in bounds and not a wall.
   */
  lemma OpenMovesSpec(maze: Maze, pos: Pos)
    ensures |OpenMoves(maze, pos)| <= 4
    ensures forall m :: m in OpenMoves(maze, pos) <==> m in Directions && IsOpen(maze, Add(pos, m))
    ensures var ms := OpenMoves(maze, pos);
      forall i, j :: 0 <= i < j < |ms| ==> DirIndex(ms[i]) < DirIndex(ms[j])
  {
    OpenMovesUpToOrder(maze, pos, |Directions|);
    OpenMovesUpToMembers(maze, pos, |Directions|);
    assert Directions[..|Directions|] == Directions;
  }

  /** `get_valid_moves`: the directions of `pos` whose target is in bounds and not a wall. */
  method GetValidMoves(maze: Maze, pos: Pos) returns (moves: seq<Pos>)
    requires WellFormed(maze)
    ensures moves == OpenMoves(maze, pos)
  {
    var rows, cols := |maze|, |maze[0]|;
    moves := [];
    for i := 0 to |Directions|
      invariant moves == OpenMovesUpTo(maze, pos, i)
    {
      var d := Directions[i];
      var next := Add(pos, d);
      OpenTest(maze, rows, cols, next);
      if 0 <= next.row < rows && 0 <= next.col < cols && maze[next.row][next.col] != Wall {
        moves := moves + [d];
      }
    }
  }

  /** The largest element. */
  function MaxOf(s: seq<int>): (r: int)
    requires |s| > 0
    ensures forall k :: 0 <= k < |s| ==> s[k] <= r
    ensures r in s
  {
    if |s| == 1 then s[0]
    else
      var m := MaxOf(s[..|s| - 1]);
      assert s[..|s| - 1] + [s[|s| - 1]] == s;
      if s[|s| - 1] > m then s[|s| - 1] else m
  }

  /** The smallest element. */
  function MinOf(s: seq<int>): (r: int)
    requires |s| > 0
    ensures forall k :: 0 <= k < |s| ==> r <= s[k]
    ensures r in s
  {
    if |s| == 1 then s[0]
    else
      var m := MinOf(s[..|s| - 1]);
      assert s[..|s| - 1] + [s[|s| - 1]] == s;
      if s[|s| - 1] < m then s[|s| - 1] else m
  }

  /** The first index holding `x`. */
  function FirstIndexOf(s: seq<int>, x: int): (r: nat)
    requires x in s
    ensures r < |s| && s[r] == x
    ensures forall k :: 0 <= k < r ==> s[k] != x
  {
    if s[0] == x then 0 else 1 + FirstIndexOf(s[1..], x)
  }

  /** The cell the player to move stands on. */
  function Mover(pacmanPos: Pos, ghostPos: Pos, maximizing: bool): Pos {
    if maximizing then pacmanPos else ghostPos
  }

  /**
   A state where the search stops and evaluates: no depth left, capture,
   food reached, or the player to move has no legal move.
   */
  predicate Stops(maze: Maze, pacmanPos: Pos, ghostPos: Pos, foodPos: Pos, depth: nat, maximizing: bool) {
    depth == 0 || pacmanPos == ghostPos || pacmanPos == foodPos || OpenMoves(maze, Mover(pacmanPos, ghostPos, maximizing)) == []
  }

  /**
   Plain minimax, without pruning: the value of a state searched `depth`
   plies deep, the maximising player being Pac-Man.
   */
  function Value(maze: Maze, pacmanPos: Pos, ghostPos: Pos, foodPos: Pos, depth: nat, maximizing: bool): int
    decreases depth, 1
  {
    if Stops(maze, pacmanPos, ghostPos, foodPos, depth, maximizing) then Evaluate(pacmanPos, ghostPos, foodPos)
    else
      var vals := ChildValues(maze, pacmanPos, ghostPos, foodPos, depth, maximizing,
                              OpenMoves(maze, Mover(pacmanPos, ghostPos, maximizing)));
      if maximizing then MaxOf(vals) else MinOf(vals)
  }

  /**
   The minimax values of the states after each move in `ms`: the mover
   steps, the other player and the food stay, the depth drops by one and
   the turn passes.
   */
  function ChildValues(maze: Maze, pacmanPos: Pos, ghostPos: Pos, foodPos: Pos, depth: nat, maximizing: bool,
                       ms: seq<Pos>): (r: seq<int>)
    requires depth > 0
    ensures |r| == |ms|
    decreases depth, 0
  {
    seq(|ms|, j requires 0 <= j < |ms| =>
      if maximizing then Value(maze, Add(pacmanPos, ms[j]), ghostPos, foodPos, depth - 1, false)
      else Value(maze, pacmanPos, Add(ghostPos, ms[j]), foodPos, depth - 1, true))
  }

  /** Entry `j` of `ChildValues` is the value after move `ms[j]`. */
  lemma ChildValueAt(maze: Maze, pacmanPos: Pos, ghostPos: Pos, foodPos: Pos, depth: nat, maximizing: bool,
                     ms: seq<Pos>, j: nat)
    requires depth > 0 && j < |ms|
    ensures maximizing ==> ChildValues(maze, pacmanPos, ghostPos, foodPos, depth, maximizing, ms)[j]
                           == Value(maze, Add(pacmanPos, ms[j]), ghostPos, foodPos, depth - 1, false)
    ensures !maximizing ==> ChildValues(maze, pacmanPos, ghostPos, foodPos, depth, maximizing, ms)[j]
                            == Value(maze, pacmanPos, Add(ghostPos, ms[j]), foodPos, depth - 1, true)
  {
  }

  /**
   The move plain minimax picks: `None` where the search stops, otherwise
   the first legal move, in the neighbour order, whose value is the best.
   */
  function BestMove(maze: Maze, pacmanPos: Pos, ghostPos: Pos, foodPos: Pos, depth: nat, maximizing: bool): Option<Pos> {
    if Stops(maze, pacmanPos, ghostPos, foodPos, depth, maximizing) then None
    else
      var ms := OpenMoves(maze, Mover(pacmanPos, ghostPos, maximizing));
      var vals := ChildValues(maze, pacmanPos, ghostPos, foodPos, depth, maximizing, ms);
      Some(ms[FirstIndexOf(vals, if maximizing then MaxOf(vals) else MinOf(vals))])
  }

  /**
   What minimax picks is a legal move of the player to move that attains
   the state's value, and no earlier legal move does.
   */
  lemma BestMoveSpec(maze: Maze, pacmanPos: Pos, ghostPos: Pos, foodPos: Pos, depth: nat, maximizing: bool)
    ensures BestMove(maze, pacmanPos, ghostPos, foodPos, depth, maximizing).None?
            <==> Stops(maze, pacmanPos, ghostPos, foodPos, depth, maximizing)
    ensures BestMove(maze, pacmanPos, ghostPos, foodPos, depth, maximizing).None?
            ==> Value(maze, pacmanPos, ghostPos, foodPos, depth, maximizing) == Evaluate(pacmanPos, ghostPos, foodPos)
    ensures var b := BestMove(maze, pacmanPos, ghostPos, foodPos, depth, maximizing);
      var ms := OpenMoves(maze, Mover(pacmanPos, ghostPos, maximizing));
      b.Some? ==>
        && depth > 0
        && b.value in ms
        && exists k :: (&& 0 <= k < |ms| && ms[k] == b.value
                        && var vals := ChildValues(maze, pacmanPos, ghostPos, foodPos, depth, maximizing, ms);
                           && vals[k] == Value(maze, pacmanPos, ghostPos, foodPos, depth, maximizing)
                           && (forall j :: 0 <= j < |ms| ==> if maximizing then vals[j] <= vals[k] else vals[k] <= vals[j])
                           && (forall j :: 0 <= j < k ==> vals[j] != vals[k]))
  {
    if !Stops(maze, pacmanPos, ghostPos, foodPos, depth, maximizing) {
      var ms := OpenMoves(maze, Mover(pacmanPos, ghostPos, maximizing));
      var vals := ChildValues(maze, pacmanPos, ghostPos, foodPos, depth, maximizing, ms);
      var k := FirstIndexOf(vals, if maximizing then MaxOf(vals) else MinOf(vals));
      assert ms[k] == BestMove(maze, pacmanPos, ghostPos, foodPos, depth, maximizing).value;
    }
  }

  /**
   The guarantee of fail-soft alpha-beta on a window `alpha < beta`: a
   score at or below `alpha` bounds the true value from above, one at or
   above `beta` bounds it from below, and one strictly inside the window is
   the true value.
   */
  predicate FailSoft(alpha: ExtInt, beta: ExtInt, score: int, v: int) {
    Lt(alpha, beta) ==>
      && (Le(Fin(score), alpha) ==> v <= score)
      && (Le(beta, Fin(score)) ==> score <= v)
      && (Lt(alpha, Fin(score)) && Lt(Fin(score), beta) ==> v == score)
  }

  /**
   The state of Pac-Man's loop over its `i` first moves, with `vals` the
   true values of all its children: `a` is `alpha` raised to the best score
   so far, the window has stayed open, no child seen has a value above the
   best score, and if that score beats `alpha` the first child attaining
   it, `best`, has exactly that value and every earlier child less.
   */
  ghost predicate MaxLoop(vals: seq<int>, alpha: ExtInt, beta: ExtInt, a: ExtInt,
                          maxEval: ExtInt, best: nat, i: nat)
  {
    && i <= |vals|
    && a == Max(alpha, maxEval)
    && (i == 0 <==> maxEval == NegInf)
    && (i > 0 ==> maxEval.Fin? && best < i)
    && (Lt(alpha, beta) && i > 0 ==>
          && Lt(a, beta)
          && (forall k :: 0 <= k < i ==> vals[k] <= maxEval.value)
          && (Lt(alpha, maxEval) ==>
                vals[best] == maxEval.value && forall k :: 0 <= k < best ==> vals[k] < maxEval.value))
  }

  /** The mirror image of `MaxLoop` for the ghost's loop. */
  ghost predicate MinLoop(vals: seq<int>, alpha: ExtInt, beta: ExtInt, b: ExtInt,
                          minEval: ExtInt, best: nat, i: nat)
  {
    && i <= |vals|
    && b == Min(beta, minEval)
    && (i == 0 <==> minEval == PosInf)
    && (i > 0 ==> minEval.Fin? && best < i)
    && (Lt(alpha, beta) && i > 0 ==>
          && Lt(alpha, b)
          && (forall k :: 0 <= k < i ==> minEval.value <= vals[k])
          && (Lt(minEval, beta) ==>
                vals[best] == minEval.value && forall k :: 0 <= k < best ==> minEval.value < vals[k]))
  }

  /**
   What Pac-Man's loop delivers: a fail-soft score for the best child
   value, and on the full window that value itself with `best` the first
   child attaining it.
   */
  ghost predicate MaxResult(vals: seq<int>, alpha: ExtInt, beta: ExtInt, score: int, best: nat)
    requires |vals| > 0
  {
    && FailSoft(alpha, beta, score, MaxOf(vals))
    && (alpha == NegInf && beta == PosInf ==> score == MaxOf(vals) && best == FirstIndexOf(vals, MaxOf(vals)))
  }

  ghost predicate MinResult(vals: seq<int>, alpha: ExtInt, beta: ExtInt, score: int, best: nat)
    requires |vals| > 0
  {
    && FailSoft(alpha, beta, score, MinOf(vals))
    && (alpha == NegInf && beta == PosInf ==> score == MinOf(vals) && best == FirstIndexOf(vals, MinOf(vals)))
  }

  /**
   One turn of Pac-Man's loop: child `i` came back with score `s`, fail-soft
   on the window `(a, beta)` it was searched with; `maxEval` and `best` were
   updated on a strict improvement and `alpha` raised. Either the window
   closed, and the loop may stop with its result, or the loop state holds
   for `i + 1` children.
   */
  lemma MaxStep(vals: seq<int>, alpha: ExtInt, beta: ExtInt, a: ExtInt, maxEval: ExtInt, best: nat,
                i: nat, s: int, a': ExtInt, maxEval': ExtInt, best': nat)
    requires MaxLoop(vals, alpha, beta, a, maxEval, best, i) && i < |vals|
    requires FailSoft(a, beta, s, vals[i])
    requires Lt(maxEval, Fin(s)) ==> maxEval' == Fin(s) && best' == i
    requires !Lt(maxEval, Fin(s)) ==> maxEval' == maxEval && best' == best
    requires a' == Max(a, Fin(s))
    ensures maxEval'.Fin? && best' <= i
    ensures Le(beta, a') ==> MaxResult(vals, alpha, beta, maxEval'.value, best')
    ensures !Le(beta, a') ==> MaxLoop(vals, alpha, beta, a', maxEval', best', i + 1)
  {
    if Lt(alpha, beta) && Le(beta, a') {
      assert vals[i] <= MaxOf(vals);
    }
  }

  /** Pac-Man's loop went through every child without a cutoff. */
  lemma MaxDone(vals: seq<int>, alpha: ExtInt, beta: ExtInt, a: ExtInt, maxEval: ExtInt, best: nat)
    requires MaxLoop(vals, alpha, beta, a, maxEval, best, |vals|) && |vals| > 0
    ensures maxEval.Fin? && MaxResult(vals, alpha, beta, maxEval.value, best)
  {
    var v := MaxOf(vals);
    if Lt(alpha, beta) {
      var k :| 0 <= k < |vals| && vals[k] == v;
      assert v <= maxEval.value;
      if Lt(alpha, maxEval) {
        assert vals[best] <= v;
      }
    }
  }

  /** The mirror image of `MaxStep` for the ghost's loop. */
  lemma MinStep(vals: seq<int>, alpha: ExtInt, beta: ExtInt, b: ExtInt, minEval: ExtInt, best: nat,
                i: nat, s: int, b': ExtInt, minEval': ExtInt, best': nat)
    requires MinLoop(vals, alpha, beta, b, minEval, best, i) && i < |vals|
    requires FailSoft(alpha, b, s, vals[i])
    requires Lt(Fin(s), minEval) ==> minEval' == Fin(s) && best' == i
    requires !Lt(Fin(s), minEval) ==> minEval' == minEval && best' == best
    requires b' == Min(b, Fin(s))
    ensures minEval'.Fin? && best' <= i
    ensures Le(b', alpha) ==> MinResult(vals, alpha, beta, minEval'.value, best')
    ensures !Le(b', alpha) ==> MinLoop(vals, alpha, beta, b', minEval', best', i + 1)
  {
    if Lt(alpha, beta) && Le(b', alpha) {
      assert MinOf(vals) <= vals[i];
    }
  }

  /** The ghost's loop went through every child without a cutoff. */
  lemma MinDone(vals: seq<int>, alpha: ExtInt, beta: ExtInt, b: ExtInt, minEval: ExtInt, best: nat)
    requires MinLoop(vals, alpha, beta, b, minEval, best, |vals|) && |vals| > 0
    ensures minEval.Fin? && MinResult(vals, alpha, beta, minEval.value, best)
  {
    var v := MinOf(vals);
    if Lt(alpha, beta) {
      var k :| 0 <= k < |vals| && vals[k] == v;
      assert minEval.value <= v;
      if Lt(minEval, beta) {
        assert v <= vals[best];
      }
    }
  }

  /**
   At a state where Pac-Man moves and the search does not stop, the result
   of its loop over the legal moves is the result the method promises.
   */
  lemma MaxNode(maze: Maze, pacmanPos: Pos, ghostPos: Pos, foodPos: Pos, depth: nat,
                alpha: ExtInt, beta: ExtInt, ms: seq<Pos>, score: int, best: nat)
    requires depth > 0 && pacmanPos != ghostPos && pacmanPos != foodPos
    requires ms == OpenMoves(maze, pacmanPos) && ms != [] && best < |ms|
    requires MaxResult(ChildValues(maze, pacmanPos, ghostPos, foodPos, depth, true, ms), alpha, beta, score, best)
    ensures FailSoft(alpha, beta, score, Value(maze, pacmanPos, ghostPos, foodPos, depth, true))
    ensures alpha == NegInf && beta == PosInf ==>
              && score == Value(maze, pacmanPos, ghostPos, foodPos, depth, true)
              && Some(ms[best]) == BestMove(maze, pacmanPos, ghostPos, foodPos, depth, true)
  {
  }

  /** The mirror image of `MaxNode` for a state where the ghost moves. */
  lemma MinNode(maze: Maze, pacmanPos: Pos, ghostPos: Pos, foodPos: Pos, depth: nat,
                alpha: ExtInt, beta: ExtInt, ms: seq<Pos>, score: int, best: nat)
    requires depth > 0 && pacmanPos != ghostPos && pacmanPos != foodPos
    requires ms == OpenMoves(maze, ghostPos) && ms != [] && best < |ms|
    requires MinResult(ChildValues(maze, pacmanPos, ghostPos, foodPos, depth, false, ms), alpha, beta, score, best)
    ensures FailSoft(alpha, beta, score, Value(maze, pacmanPos, ghostPos, foodPos, depth, false))
    ensures alpha == NegInf && beta == PosInf ==>
              && score == Value(maze, pacmanPos, ghostPos, foodPos, depth, false)
              && Some(ms[best]) == BestMove(maze, pacmanPos, ghostPos, foodPos, depth, false)
  {
  }

  /**
   `minimax_alpha_beta`. Where the search stops it returns the static
   evaluation and no move; otherwise a legal move of the player to move.
   On a window `alpha < beta` its score is fail-soft with respect to plain
   minimax, and on the full window it is the minimax value and its move
   is the one plain minimax picks. The two branches of the source, one per
   player, are the methods `MaxTurn` and `MinTurn`.
   */
  method MinimaxAlphaBeta(maze: Maze, pacmanPos: Pos, ghostPos: Pos, foodPos: Pos, depth: nat,
                          alpha: ExtInt, beta: ExtInt, isMaximizing: bool)
    returns (score: int, move: Option<Pos>)
    requires WellFormed(maze)
    ensures move.None? <==> Stops(maze, pacmanPos, ghostPos, foodPos, depth, isMaximizing)
    ensures move.None? ==> score == Evaluate(pacmanPos, ghostPos, foodPos)
    ensures move.Some? ==> move.value in OpenMoves(maze, Mover(pacmanPos, ghostPos, isMaximizing))
    ensures FailSoft(alpha, beta, score, Value(maze, pacmanPos, ghostPos, foodPos, depth, isMaximizing))
    ensures alpha == NegInf && beta == PosInf ==>
              && score == Value(maze, pacmanPos, ghostPos, foodPos, depth, isMaximizing)
              && move == BestMove(maze, pacmanPos, ghostPos, foodPos, depth, isMaximizing)
    decreases depth, 2
  {
    if depth == 0 || pacmanPos == ghostPos || pacmanPos == foodPos {
      return Evaluate(pacmanPos, ghostPos, foodPos), None;
    }
    if isMaximizing {
      score, move := MaxTurn(maze, pacmanPos, ghostPos, foodPos, depth, alpha, beta);
    } else {
      score, move := MinTurn(maze, pacmanPos, ghostPos, foodPos, depth, alpha, beta);
    }
  }

  /**
   Pac-Man's turn of `minimax_alpha_beta`: with no legal move the state is
   evaluated where it stands; otherwise the loop `MaxChildren` searches the
   legal moves.
   */
  method MaxTurn(maze: Maze, pacmanPos: Pos, ghostPos: Pos, foodPos: Pos, depth: nat,
                 alpha: ExtInt, beta: ExtInt)
    returns (score: int, move: Option<Pos>)
    requires WellFormed(maze)
    requires depth > 0 && pacmanPos != ghostPos && pacmanPos != foodPos
    ensures move.None? <==> Stops(maze, pacmanPos, ghostPos, foodPos, depth, true)
    ensures move.None? ==> score == Evaluate(pacmanPos, ghostPos, foodPos)
    ensures move.Some? ==> move.value in OpenMoves(maze, pacmanPos)
    ensures FailSoft(alpha, beta, score, Value(maze, pacmanPos, ghostPos, foodPos, depth, true))
    ensures alpha == NegInf && beta == PosInf ==>
              && score == Value(maze, pacmanPos, ghostPos, foodPos, depth, true)
              && move == BestMove(maze, pacmanPos, ghostPos, foodPos, depth, true)
    decreases depth, 1
  {
    var validMoves := GetValidMoves(maze, pacmanPos);
    if validMoves == [] {
      return Evaluate(pacmanPos, ghostPos, foodPos), None;
    }
    ghost var best;
    score, move, best := MaxChildren(maze, pacmanPos, ghostPos, foodPos, depth, alpha, beta, validMoves);
    MaxNode(maze, pacmanPos, ghostPos, foodPos, depth, alpha, beta, validMoves, score, best);
  }

  /**
   The loop of Pac-Man's turn over the legal moves `ms`: each child is
   searched on the window `(alpha, beta)`, `alpha` rising with every score,
   the first strictly better score taking the best move, until the window
   closes. The score and the move at index `best` are what `MaxResult` asks
   of the children's true values.
   */
  method MaxChildren(maze: Maze, pacmanPos: Pos, ghostPos: Pos, foodPos: Pos, depth: nat,
                     alpha: ExtInt, beta: ExtInt, ms: seq<Pos>)
    returns (score: int, move: Option<Pos>, ghost best: nat)
    requires WellFormed(maze) && depth > 0 && ms != []
    ensures move.Some? && move.value in ms
    ensures best < |ms| && move == Some(ms[best])
    ensures MaxResult(ChildValues(maze, pacmanPos, ghostPos, foodPos, depth, true, ms), alpha, beta, score, best)
    decreases depth, 0
  {
    var maxEval := NegInf;
    var bestMove: Option<Pos> := None;
    var a := alpha;
    ghost var vals := ChildValues(maze, pacmanPos, ghostPos, foodPos, depth, true, ms);
    best := 0;
    ghost var cut := false;
    for i := 0 to |ms|
      invariant !cut && MaxLoop(vals, alpha, beta, a, maxEval, best, i)
      invariant best < |ms| && (i > 0 ==> bestMove == Some(ms[best]))
    {
      var d := ms[i];
      var evalScore, _ := MinimaxAlphaBeta(maze, Add(pacmanPos, d), ghostPos, foodPos, depth - 1, a, beta, false);
      ChildValueAt(maze, pacmanPos, ghostPos, foodPos, depth, true, ms, i);
      ghost var a0, maxEval0, best0 := a, maxEval, best;
      if Lt(maxEval, Fin(evalScore)) {
        maxEval := Fin(evalScore);
        bestMove := Some(d);
        best := i;
      }
      a := Max(a, Fin(evalScore));
      MaxStep(vals, alpha, beta, a0, maxEval0, best0, i, evalScore, a, maxEval, best);
      if Le(beta, a) {
        cut := true;
        break;
      }
    }
    if !cut {
      MaxDone(vals, alpha, beta, a, maxEval, best);
    }
    score, move := maxEval.value, bestMove;
  }

  /**
   The ghost's turn of `minimax_alpha_beta`, the mirror image of `MaxTurn`,
   its loop being `MinChildren`.
   */
  method MinTurn(maze: Maze, pacmanPos: Pos, ghostPos: Pos, foodPos: Pos, depth: nat,
                 alpha: ExtInt, beta: ExtInt)
    returns (score: int, move: Option<Pos>)
    requires WellFormed(maze)
    requires depth > 0 && pacmanPos != ghostPos && pacmanPos != foodPos
    ensures move.None? <==> Stops(maze, pacmanPos, ghostPos, foodPos, depth, false)
    ensures move.None? ==> score == Evaluate(pacmanPos, ghostPos, foodPos)
    ensures move.Some? ==> move.value in OpenMoves(maze, ghostPos)
    ensures FailSoft(alpha, beta, score, Value(maze, pacmanPos, ghostPos, foodPos, depth, false))
    ensures alpha == NegInf && beta == PosInf ==>
              && score == Value(maze, pacmanPos, ghostPos, foodPos, depth, false)
              && move == BestMove(maze, pacmanPos, ghostPos, foodPos, depth, false)
    decreases depth, 1
  {
    var validMoves := GetValidMoves(maze, ghostPos);
    if validMoves == [] {
      return Evaluate(pacmanPos, ghostPos, foodPos), None;
    }
    ghost var best;
    score, move, best := MinChildren(maze, pacmanPos, ghostPos, foodPos, depth, alpha, beta, validMoves);
    MinNode(maze, pacmanPos, ghostPos, foodPos, depth, alpha, beta, validMoves, score, best);
  }

  /**
   The loop of the ghost's turn over the legal moves `ms`: each child is
   searched on the window `(alpha, beta)`, `beta` falling with every score,
   the first strictly lower score taking the best move, until the window
   closes. The score and the move at index `best` are what `MinResult` asks
   of the children's true values.
   */
  method MinChildren(maze: Maze, pacmanPos: Pos, ghostPos: Pos, foodPos: Pos, depth: nat,
                     alpha: ExtInt, beta: ExtInt, ms: seq<Pos>)
    returns (score: int, move: Option<Pos>, ghost best: nat)
    requires WellFormed(maze) && depth > 0 && ms != []
    ensures move.Some? && move.value in ms
    ensures best < |ms| && move == Some(ms[best])
    ensures MinResult(ChildValues(maze, pacmanPos, ghostPos, foodPos, depth, false, ms), alpha, beta, score, best)
    decreases depth, 0
  {
    var minEval := PosInf;
    var bestMove: Option<Pos> := None;
    var b := beta;
    ghost var vals := ChildValues(maze, pacmanPos, ghostPos, foodPos, depth, false, ms);
    best := 0;
    ghost var cut := false;
    for i := 0 to |ms|
      invariant !cut && MinLoop(vals, alpha, beta, b, minEval, best, i)
      invariant best < |ms| && (i > 0 ==> bestMove == Some(ms[best]))
    {
      var d := ms[i];
      var evalScore, _ := MinimaxAlphaBeta(maze, pacmanPos, Add(ghostPos, d), foodPos, depth - 1, alpha, b, true);
      ChildValueAt(maze, pacmanPos, ghostPos, foodPos, depth, false, ms, i);
      ghost var b0, minEval0, best0 := b, minEval, best;
      if Lt(Fin(evalScore), minEval) {
        minEval := Fin(evalScore);
        bestMove := Some(d);
        best := i;
      }
      b := Min(b, Fin(evalScore));
      MinStep(vals, alpha, beta, b0, minEval0, best0, i, evalScore, b, minEval, best);
      if Le(b, alpha) {
        cut := true;
        break;
      }
    }
    if !cut {
      MinDone(vals, alpha, beta, b, minEval, best);
    }
    score, move := minEval.value, bestMove;
  }

  /** Each value `MinOf` and `FirstIndexOf` pick out, given the index of the first smallest entry. */
  lemma FirstMinimum(s: seq<int>, best: nat)
    requires best < |s|
    requires forall k :: 0 <= k < |s| ==> s[best] <= s[k]
    requires forall k :: 0 <= k < best ==> s[best] < s[k]
    ensures MinOf(s) == s[best] && FirstIndexOf(s, MinOf(s)) == best
  {
    var k :| 0 <= k < |s| && s[k] == MinOf(s);
    assert s[best] >= MinOf(s);
  }

  /** The Manhattan distances to `target` after each move in `ms` from `pos`. */
  function Distances(pos: Pos, ms: seq<Pos>, target: Pos): (r: seq<int>)
    ensures |r| == |ms|
  {
    seq(|ms|, j requires 0 <= j < |ms| => Manhattan(Add(pos, ms[j]), target))
  }

  /**
   The greedy ghost's choice: no move when it has no legal move, otherwise
   the first legal move, in the neighbour order, that leaves it closest to
   Pac-Man.
   */
  function GreedyMove(maze: Maze, ghostPos: Pos, pacmanPos: Pos): Option<Pos> {
    var ms := OpenMoves(maze, ghostPos);
    if ms == [] then None
    else
      var ds := Distances(ghostPos, ms, pacmanPos);
      Some(ms[FirstIndexOf(ds, MinOf(ds))])
  }

  /**
   The greedy move exists exactly when the ghost has a legal move; it is
   then a legal move after which no legal move is closer to Pac-Man, and
   every legal move before it in the neighbour order is strictly farther.
   */
  lemma GreedyMoveSpec(maze: Maze, ghostPos: Pos, pacmanPos: Pos)
    ensures GreedyMove(maze, ghostPos, pacmanPos).None? <==> OpenMoves(maze, ghostPos) == []
    ensures var g := GreedyMove(maze, ghostPos, pacmanPos);
      var ms := OpenMoves(maze, ghostPos);
      g.Some? ==>
        && g.value in ms
        && (forall m :: m in ms ==> Manhattan(Add(ghostPos, g.value), pacmanPos) <= Manhattan(Add(ghostPos, m), pacmanPos))
        && exists k :: (&& 0 <= k < |ms| && ms[k] == g.value
                        && forall j :: 0 <= j < k ==> Manhattan(Add(ghostPos, g.value), pacmanPos) < Manhattan(Add(ghostPos, ms[j]), pacmanPos))
  {
    var ms := OpenMoves(maze, ghostPos);
    if ms != [] {
      var ds := Distances(ghostPos, ms, pacmanPos);
      var k := FirstIndexOf(ds, MinOf(ds));
      forall m | m in ms ensures ds[k] <= Manhattan(Add(ghostPos, m), pacmanPos) {
        var j :| 0 <= j < |ms| && ms[j] == m;
        assert ds[j] == Manhattan(Add(ghostPos, m), pacmanPos);
      }
      forall j | 0 <= j < k ensures ds[k] < Manhattan(Add(ghostPos, ms[j]), pacmanPos) {
        assert ds[j] == Manhattan(Add(ghostPos, ms[j]), pacmanPos);
      }
    }
  }

  /**
   `greedy_chase`: the ghost scans its legal moves, keeping the first one
   seen at a strictly smaller distance to Pac-Man than any before it.
   */
  method GreedyChase(maze: Maze, ghostPos: Pos, pacmanPos: Pos) returns (bestMove: Option<Pos>)
    requires WellFormed(maze)
    ensures bestMove == GreedyMove(maze, ghostPos, pacmanPos)
  {
    var validMoves := GetValidMoves(maze, ghostPos);
    if validMoves == [] {
      return None;
    }
    bestMove := None;
    var minDistance := PosInf;
    ghost var ds := Distances(ghostPos, validMoves, pacmanPos);
    ghost var best: nat := 0;
    for i := 0 to |validMoves|
      invariant i == 0 <==> minDistance == PosInf
      invariant i > 0 ==> && best < i && minDistance == Fin(ds[best])
                          && bestMove == Some(validMoves[best])
                          && (forall k :: 0 <= k < i ==> ds[best] <= ds[k])
                          && (forall k :: 0 <= k < best ==> ds[best] < ds[k])
    {
      var d := validMoves[i];
      var newPos := Add(ghostPos, d);
      var distance := Manhattan(newPos, pacmanPos);
      if Lt(Fin(distance), minDistance) {
        minDistance := Fin(distance);
        bestMove := Some(d);
        best := i;
      }
    }
    FirstMinimum(ds, best);
  }

  /** Python's `move if move else (0, 0)`: a move tuple is never falsy, so only `None` becomes (0, 0). */
  function OrStay(move: Option<Pos>): Pos {
    if move.Some? then move.value else Pos(0, 0)
  }

  /**
   `get_ghost_move`: minimax on the full window with the ghost to move, or
   the greedy chase. The result is (0, 0) exactly when the chosen selector
   finds no move, and otherwise that selector's move, which leads the ghost
   onto an open cell.
   */
  method GetGhostMove(maze: Maze, pacmanPos: Pos, ghostPos: Pos, foodPos: Pos, useMinimax: bool, depth: nat)
    returns (move: Pos)
    requires WellFormed(maze)
    ensures useMinimax ==> move == OrStay(BestMove(maze, pacmanPos, ghostPos, foodPos, depth, false))
    ensures !useMinimax ==> move == OrStay(GreedyMove(maze, ghostPos, pacmanPos))
    ensures move == Pos(0, 0) <==>
              if useMinimax then BestMove(maze, pacmanPos, ghostPos, foodPos, depth, false).None?
              else GreedyMove(maze, ghostPos, pacmanPos).None?
    ensures move == Pos(0, 0) || (move in Directions && IsOpen(maze, Add(ghostPos, move)))
  {
    var selected: Option<Pos>;
    if useMinimax {
      var _, m := MinimaxAlphaBeta(maze, pacmanPos, ghostPos, foodPos, depth, NegInf, PosInf, false);
      selected := m;
      BestMoveSpec(maze, pacmanPos, ghostPos, foodPos, depth, false);
    } else {
      selected := GreedyChase(maze, ghostPos, pacmanPos);
      GreedyMoveSpec(maze, ghostPos, pacmanPos);
    }
    OpenMovesSpec(maze, ghostPos);
    move := if selected.Some? then selected.value else Pos(0, 0);
  }

  /**
   `get_pacman_move`: minimax on the full window with Pac-Man to move. The
   result is (0, 0) exactly when minimax finds no move, and otherwise its
   move, which leads Pac-Man onto an open cell.
   */
  method GetPacmanMove(maze: Maze, pacmanPos: Pos, ghostPos: Pos, foodPos: Pos, depth: nat)
    returns (move: Pos)
    requires WellFormed(maze)
    ensures move == OrStay(BestMove(maze, pacmanPos, ghostPos, foodPos, depth, true))
    ensures move == Pos(0, 0) <==> BestMove(maze, pacmanPos, ghostPos, foodPos, depth, true).None?
    ensures move == Pos(0, 0) || (move in Directions && IsOpen(maze, Add(pacmanPos, move)))
  {
    var _, m := MinimaxAlphaBeta(maze, pacmanPos, ghostPos, foodPos, depth, NegInf, PosInf, true);
    BestMoveSpec(maze, pacmanPos, ghostPos, foodPos, depth, true);
    OpenMovesSpec(maze, pacmanPos);
    move := if m.Some? then m.value else Pos(0, 0);
  }
}
