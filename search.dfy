/**
 * The computer opponent's search, as the source runs it: it plays each
 * legal move on the shared game object, searches the result and takes the
 * move back, so that the position and the undo history are the same after
 * every call as before it.
 */
module Search {
  import opened Wrappers
  import opened Evaluation
  import opened GameTree
  import opened Rules

  /** The exact minimax value of each root move, one ply less deep, with the minimizer to move. */
  function RootScores<P, M>(rules: Rules<P, M>, p: P, depth: nat): (s: seq<int>)
    requires depth >= 1
    ensures |s| == |rules.moves(p)|
    ensures forall j :: 0 <= j < |s| ==>
      s[j] == Value(Unfold(rules, rules.apply(p, rules.moves(p)[j]), depth - 1), depth - 1, false)
  {
    var ms := rules.moves(p);
    seq(|ms|, j requires 0 <= j < |ms| => Value(Unfold(rules, rules.apply(p, ms[j]), depth - 1), depth - 1, false))
  }

  /** The move `getBestMove` should return: none without legal moves, else the first one of maximal score. */
  function BestMove<P, M>(rules: Rules<P, M>, p: P, depth: nat): (r: Option<M>)
    requires depth >= 1
    ensures r.None? <==> rules.moves(p) == []
    ensures r.Some? ==> r.value in rules.moves(p)
  {
    var ms := rules.moves(p);
    if ms == [] then None else Some(ms[FirstMax(RootScores(rules, p, depth))])
  }

  /** When there are legal moves, `BestMove` is the first move whose exact score is maximal. */
  lemma BestMoveIsFirstMax<P, M>(rules: Rules<P, M>, p: P, depth: nat)
    requires depth >= 1 && rules.moves(p) != []
    ensures var s := RootScores(rules, p, depth);
      exists k :: 0 <= k < |s| && BestMove(rules, p, depth) == Some(rules.moves(p)[k]) &&
        (forall j :: 0 <= j < |s| ==> s[j] <= s[k]) &&
        (forall j :: 0 <= j < k ==> s[j] < s[k])
  {
    var k := FirstMax(RootScores(rules, p, depth));
  }

  /** Scoring a root move with the fresh window (-Infinity, +Infinity) gives its exact minimax value. */
  lemma RootScoreExact<P(!new), M>(rules: RulesEngine<P, M>, p: P, depth: nat, j: nat)
    requires depth >= 1 && j < |rules.moves(p)|
    ensures var child := Unfold(rules, rules.apply(p, rules.moves(p)[j]), depth - 1);
      AlphaBeta(child, depth - 1, -Infinity, Infinity, false) == RootScores(rules, p, depth)[j]
    ensures -MaxMaterial <= RootScores(rules, p, depth)[j] <= MaxMaterial
  {
    var q := rules.apply(p, rules.moves(p)[j]);
    UnfoldValueWithin(rules, q, depth - 1, false);
    FullWindowExact(Unfold(rules, q, depth - 1), depth - 1, false);
  }

  /** `minimax(depth, alpha, beta, isMaximizingPlayer)` on the game's current position. */
  method Minimax<P(!new), M(==)>(game: Game<P, M>, depth: nat, alpha: int, beta: int, maximizing: bool)
    returns (score: int)
    modifies game
    ensures game.position == old(game.position) && game.history == old(game.history)
    ensures score == AlphaBeta(Unfold(game.rules, old(game.position), depth), depth, alpha, beta, maximizing)
    ensures depth == 0 || game.rules.gameOver(old(game.position)) ==> score == GridSum(game.rules.board(old(game.position)))
    ensures -Infinity <= alpha < beta <= Infinity ==>
      var v := Value(Unfold(game.rules, old(game.position), depth), depth, maximizing);
      (alpha < v < beta ==> score == v) && (v <= alpha ==> score <= alpha) && (beta <= v ==> beta <= score)
    decreases depth, 0
  {
    ghost var t := Unfold(game.rules, game.position, depth);
    if depth == 0 || game.GameOver() {
      score := EvaluateBoard(game.Board());
    } else if maximizing {
      score := MaximizingLoop(game, depth - 1, alpha, beta);
    } else {
      score := MinimizingLoop(game, depth - 1, alpha, beta);
    }
    if -Infinity <= alpha < beta <= Infinity {
      FailSoft(t, depth, alpha, beta, maximizing);
    }
  }

  /**
   * The maximizing branch of `minimax`: each move's reply is searched `depth`
   * plies deep; `alpha` only grows, `maxEval` is the largest reply so far,
   * and the loop leaves early exactly when `beta <= alpha`.
   */
  method MaximizingLoop<P(!new), M(==)>(game: Game<P, M>, depth: nat, alpha: int, beta: int)
    returns (maxEval: int)
    modifies game
    ensures game.position == old(game.position) && game.history == old(game.history)
    ensures maxEval == MaxLoop(Successors(game.rules, old(game.position), depth), 0, depth, alpha, beta, -Infinity)
    decreases depth, 1
  {
    ghost var ts := Successors(game.rules, game.position, depth);
    ghost var evals: seq<int> := [];
    var moves := game.Moves();
    maxEval := -Infinity;
    var a := alpha;
    var i := 0;
    while i < |moves|
      invariant 0 <= i <= |moves| && |evals| == i
      invariant game.position == old(game.position) && game.history == old(game.history)
      invariant MaxLoop(ts, 0, depth, alpha, beta, -Infinity) == MaxLoop(ts, i, depth, a, beta, maxEval)
      invariant alpha <= a
      invariant forall j :: 0 <= j < i ==> evals[j] <= maxEval && evals[j] <= a
      invariant maxEval == -Infinity || maxEval in evals
      invariant i > 0 ==> a < beta
    {
      var ok := game.Move(moves[i]);
      var e := Minimax(game, depth, a, beta, false);
      ok := game.Undo();
      evals := evals + [e];
      maxEval := Max(maxEval, e);
      a := Max(a, e);
      if beta <= a {
        break;
      }
      i := i + 1;
    }
  }

  /**
   * The minimizing branch of `minimax`: `beta` only shrinks, `minEval` is the
   * smallest reply so far, and the loop leaves early exactly when `beta <= alpha`.
   */
  method MinimizingLoop<P(!new), M(==)>(game: Game<P, M>, depth: nat, alpha: int, beta: int)
    returns (minEval: int)
    modifies game
    ensures game.position == old(game.position) && game.history == old(game.history)
    ensures minEval == MinLoop(Successors(game.rules, old(game.position), depth), 0, depth, alpha, beta, Infinity)
    decreases depth, 1
  {
    ghost var ts := Successors(game.rules, game.position, depth);
    ghost var evals: seq<int> := [];
    var moves := game.Moves();
    minEval := Infinity;
    var b := beta;
    var i := 0;
    while i < |moves|
      invariant 0 <= i <= |moves| && |evals| == i
      invariant game.position == old(game.position) && game.history == old(game.history)
      invariant MinLoop(ts, 0, depth, alpha, beta, Infinity) == MinLoop(ts, i, depth, alpha, b, minEval)
      invariant b <= beta
      invariant forall j :: 0 <= j < i ==> minEval <= evals[j] && b <= evals[j]
      invariant minEval == Infinity || minEval in evals
      invariant i > 0 ==> alpha < b
    {
      var ok := game.Move(moves[i]);
      var e := Minimax(game, depth, alpha, b, true);
      ok := game.Undo();
      evals := evals + [e];
      minEval := Min(minEval, e);
      b := Min(b, e);
      if b <= alpha {
        break;
      }
      i := i + 1;
    }
  }

  /**
   * The body of `getBestMove`'s loop for move `i`: play it, score the reply
   * with a fresh (-Infinity, +Infinity) window, take it back.
   */
  method ScoreRootMove<P(!new), M(==)>(game: Game<P, M>, depth: nat, i: nat) returns (boardValue: int)
    requires depth >= 1 && i < |game.Moves()|
    modifies game
    ensures game.position == old(game.position) && game.history == old(game.history)
    ensures boardValue == RootScores(game.rules, old(game.position), depth)[i]
    ensures -MaxMaterial <= boardValue <= MaxMaterial
  {
    var ok := game.Move(game.Moves()[i]);
    boardValue := Minimax(game, depth - 1, -Infinity, Infinity, false);
    ok := game.Undo();
    RootScoreExact(game.rules, old(game.position), depth, i);
  }

  /** `getBestMove(depth)`: the first legal move of maximal score, or none when there are no legal moves. */
  method GetBestMove<P(!new), M(==)>(game: Game<P, M>, depth: nat) returns (best: Option<M>)
    requires depth >= 1
    modifies game
    ensures game.position == old(game.position) && game.history == old(game.history)
    ensures best == BestMove(game.rules, old(game.position), depth)
  {
    var bestValue := -Infinity;
    best := None;
    var moves := game.Moves();
    ghost var rules, p0 := game.rules, game.position;
    ghost var scores := RootScores(rules, p0, depth);
    ghost var k: nat := 0;
    var i := 0;
    while i < |moves|
      invariant 0 <= i <= |moves| && k <= i
      invariant game.position == p0 && game.history == old(game.history)
      invariant i == 0 ==> best == None && bestValue == -Infinity
      invariant i > 0 ==> k == FirstMax(scores[..i]) && best == Some(moves[k]) && bestValue == scores[k]
    {
      var boardValue := ScoreRootMove(game, depth, i);
      assert FirstMax(scores[..i + 1]) == if boardValue > bestValue then i else k by {
        FirstMaxExtend(scores, i, k, bestValue);
      }
      if boardValue > bestValue {
        bestValue := boardValue;
        best := Some(moves[i]);
        k := i;
      }
      i := i + 1;
    }
    assert scores[..|moves|] == scores;
  }
}
