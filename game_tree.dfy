/**
 * The search over an explicit game tree. Every node carries the evaluation of
 * its position and whether the rules engine reports the game as over there;
 * its children are the positions after each legal move, in the engine's order.
 *
 * `Value` is plain minimax with no pruning; `AlphaBeta` is the source's
 * `minimax`, with its loops written as the tail-recursive `MaxLoop` and
 * `MinLoop`. The lemmas relate the two.
 */
module GameTree {

  /** The integer that stands for the source's `Infinity`; every evaluation lies strictly inside. */
  const Infinity: int := 100000

  function Max(a: int, b: int): int { if a < b then b else a }

  function Min(a: int, b: int): int { if a < b then a else b }

  datatype Tree = Node(leafScore: int, gameOver: bool, children: seq<Tree>)

  // Plain minimax: the reference the pruned search is compared with

  /** The minimax value of `t` searched `depth` plies deep. */
  function Value(t: Tree, depth: nat, maximizing: bool): int
    decreases depth, 0, 0
  {
    if depth == 0 || t.gameOver then t.leafScore
    else if maximizing then MaxValue(t.children, 0, depth - 1)
    else MinValue(t.children, 0, depth - 1)
  }

  /** The largest value of `ts[i..]` with the minimizer to move, or -Infinity when there is none. */
  function MaxValue(ts: seq<Tree>, i: nat, depth: nat): int
    requires i <= |ts|
    decreases depth, 1, |ts| - i
  {
    if i == |ts| then -Infinity else Max(Value(ts[i], depth, false), MaxValue(ts, i + 1, depth))
  }

  /** The smallest value of `ts[i..]` with the maximizer to move, or +Infinity when there is none. */
  function MinValue(ts: seq<Tree>, i: nat, depth: nat): int
    requires i <= |ts|
    decreases depth, 1, |ts| - i
  {
    if i == |ts| then Infinity else Min(Value(ts[i], depth, true), MinValue(ts, i + 1, depth))
  }

  // The pruned search, as the source computes it

  /** `minimax(depth, alpha, beta, isMaximizingPlayer)` on the position `t`. */
  function AlphaBeta(t: Tree, depth: nat, alpha: int, beta: int, maximizing: bool): (r: int)
    ensures depth == 0 || t.gameOver ==> r == t.leafScore
    ensures depth > 0 && !t.gameOver && maximizing ==> r >= -Infinity
    ensures depth > 0 && !t.gameOver && !maximizing ==> r <= Infinity
    decreases depth, 0, 0
  {
    if depth == 0 || t.gameOver then t.leafScore
    else if maximizing then MaxLoop(t.children, 0, depth - 1, alpha, beta, -Infinity)
    else MinLoop(t.children, 0, depth - 1, alpha, beta, Infinity)
  }

  /**
   * The maximizing loop from child `i` on, with the current `alpha` and the
   * running `maxEval`; it stops after the child that makes `beta <= alpha`.
   */
  function MaxLoop(ts: seq<Tree>, i: nat, depth: nat, alpha: int, beta: int, maxEval: int): (r: int)
    requires i <= |ts|
    ensures r >= maxEval
    decreases depth, 1, |ts| - i
  {
    if i == |ts| then maxEval
    else
      var e := AlphaBeta(ts[i], depth, alpha, beta, false);
      var alpha' := Max(alpha, e);
      if beta <= alpha' then Max(maxEval, e)
      else MaxLoop(ts, i + 1, depth, alpha', beta, Max(maxEval, e))
  }

  /** The minimizing loop, symmetric to `MaxLoop` with `beta` and `minEval`. */
  function MinLoop(ts: seq<Tree>, i: nat, depth: nat, alpha: int, beta: int, minEval: int): (r: int)
    requires i <= |ts|
    ensures r <= minEval
    decreases depth, 1, |ts| - i
  {
    if i == |ts| then minEval
    else
      var e := AlphaBeta(ts[i], depth, alpha, beta, true);
      var beta' := Min(beta, e);
      if beta' <= alpha then Min(minEval, e)
      else MinLoop(ts, i + 1, depth, alpha, beta', Min(minEval, e))
  }

  // Fail-soft alpha-beta agrees with minimax

  /**
   * The bounds a fail-soft result carries: a result at or below `alpha` is an
   * upper bound of the true value, one at or above `beta` a lower bound, and
   * one strictly inside the window is the true value.
   */
  lemma {:induction false} AlphaBetaBounds(t: Tree, depth: nat, alpha: int, beta: int, maximizing: bool)
    requires -Infinity <= alpha < beta <= Infinity
    ensures var r, v := AlphaBeta(t, depth, alpha, beta, maximizing), Value(t, depth, maximizing);
      (r <= alpha ==> v <= r) && (alpha < r < beta ==> v == r) && (beta <= r ==> r <= v)
    decreases depth, 0, 0
  {
    if depth == 0 || t.gameOver {
    } else if maximizing {
      MaxLoopBounds(t.children, 0, depth - 1, alpha, beta, -Infinity);
    } else {
      MinLoopBounds(t.children, 0, depth - 1, alpha, beta, Infinity);
    }
  }

  lemma {:induction false} MaxLoopBounds(ts: seq<Tree>, i: nat, depth: nat, alpha: int, beta: int, maxEval: int)
    requires i <= |ts|
    requires -Infinity <= maxEval <= alpha < beta <= Infinity
    ensures var r, v := MaxLoop(ts, i, depth, alpha, beta, maxEval), MaxValue(ts, i, depth);
      maxEval <= r && (r <= alpha ==> v <= r) && (alpha < r < beta ==> v == r) && (beta <= r ==> r <= v)
    decreases depth, 1, |ts| - i
  {
    if i < |ts| {
      var e := AlphaBeta(ts[i], depth, alpha, beta, false);
      AlphaBetaBounds(ts[i], depth, alpha, beta, false);
      if Max(alpha, e) < beta {
        MaxLoopBounds(ts, i + 1, depth, Max(alpha, e), beta, Max(maxEval, e));
      }
    }
  }

  lemma {:induction false} MinLoopBounds(ts: seq<Tree>, i: nat, depth: nat, alpha: int, beta: int, minEval: int)
    requires i <= |ts|
    requires -Infinity <= alpha < beta <= minEval <= Infinity
    ensures var r, v := MinLoop(ts, i, depth, alpha, beta, minEval), MinValue(ts, i, depth);
      r <= minEval && (beta <= r ==> r <= v) && (alpha < r < beta ==> v == r) && (r <= alpha ==> v <= r)
    decreases depth, 1, |ts| - i
  {
    if i < |ts| {
      var e := AlphaBeta(ts[i], depth, alpha, beta, true);
      AlphaBetaBounds(ts[i], depth, alpha, beta, true);
      if alpha < Min(beta, e) {
        MinLoopBounds(ts, i + 1, depth, alpha, Min(beta, e), Min(minEval, e));
      }
    }
  }

  /**
   * Fail-soft alpha-beta in terms of the true value `v`: inside the window it
   * is exact, at or below `alpha` the result is too, at or above `beta` the
   * result is too.
   */
  lemma FailSoft(t: Tree, depth: nat, alpha: int, beta: int, maximizing: bool)
    requires -Infinity <= alpha < beta <= Infinity
    ensures var r, v := AlphaBeta(t, depth, alpha, beta, maximizing), Value(t, depth, maximizing);
      (alpha < v < beta ==> r == v) && (v <= alpha ==> r <= alpha) && (beta <= v ==> beta <= r)
  {
    AlphaBetaBounds(t, depth, alpha, beta, maximizing);
  }

  /** With the full window (-Infinity, +Infinity) the pruned search returns the exact minimax value. */
  lemma FullWindowExact(t: Tree, depth: nat, maximizing: bool)
    requires -Infinity < Value(t, depth, maximizing) < Infinity
    ensures AlphaBeta(t, depth, -Infinity, Infinity, maximizing) == Value(t, depth, maximizing)
  {
    FailSoft(t, depth, -Infinity, Infinity, maximizing);
  }

  // Bounded trees

  /**
   * Every position reachable within `depth` plies evaluates within [lo, hi],
   * and every such position that is not game over has a legal move.
   */
  ghost predicate Within(t: Tree, depth: nat, lo: int, hi: int)
    decreases depth
  {
    lo <= t.leafScore <= hi &&
    (depth > 0 && !t.gameOver ==>
      |t.children| > 0 &&
      forall j :: 0 <= j < |t.children| ==> Within(t.children[j], depth - 1, lo, hi))
  }

  lemma {:induction false} ValueWithin(t: Tree, depth: nat, maximizing: bool, lo: int, hi: int)
    requires -Infinity <= lo && hi <= Infinity
    requires Within(t, depth, lo, hi)
    ensures lo <= Value(t, depth, maximizing) <= hi
    decreases depth, 0, 0
  {
    if depth > 0 && !t.gameOver {
      if maximizing {
        MaxValueWithin(t.children, 0, depth - 1, lo, hi);
      } else {
        MinValueWithin(t.children, 0, depth - 1, lo, hi);
      }
    }
  }

  lemma {:induction false} MaxValueWithin(ts: seq<Tree>, i: nat, depth: nat, lo: int, hi: int)
    requires i < |ts|
    requires -Infinity <= lo && hi <= Infinity
    requires forall j :: i <= j < |ts| ==> Within(ts[j], depth, lo, hi)
    ensures lo <= MaxValue(ts, i, depth) <= hi
    decreases depth, 1, |ts| - i
  {
    ValueWithin(ts[i], depth, false, lo, hi);
    if i + 1 < |ts| {
      MaxValueWithin(ts, i + 1, depth, lo, hi);
    }
  }

  lemma {:induction false} MinValueWithin(ts: seq<Tree>, i: nat, depth: nat, lo: int, hi: int)
    requires i < |ts|
    requires -Infinity <= lo && hi <= Infinity
    requires forall j :: i <= j < |ts| ==> Within(ts[j], depth, lo, hi)
    ensures lo <= MinValue(ts, i, depth) <= hi
    decreases depth, 1, |ts| - i
  {
    ValueWithin(ts[i], depth, true, lo, hi);
    if i + 1 < |ts| {
      MinValueWithin(ts, i + 1, depth, lo, hi);
    }
  }

  // Reference minimax is a maximum and a minimum

  /** `MaxValue` is at least every child's value and, when there are children, equals one of them. */
  lemma {:induction false} MaxValueIsMaximum(ts: seq<Tree>, i: nat, depth: nat)
    requires i <= |ts|
    ensures forall j :: i <= j < |ts| ==> Value(ts[j], depth, false) <= MaxValue(ts, i, depth)
    ensures MaxValue(ts, i, depth) == -Infinity ||
            exists j :: i <= j < |ts| && Value(ts[j], depth, false) == MaxValue(ts, i, depth)
    decreases |ts| - i
  {
    if i < |ts| {
      MaxValueIsMaximum(ts, i + 1, depth);
    }
  }

  /** `MinValue` is at most every child's value and, when there are children, equals one of them. */
  lemma {:induction false} MinValueIsMinimum(ts: seq<Tree>, i: nat, depth: nat)
    requires i <= |ts|
    ensures forall j :: i <= j < |ts| ==> MinValue(ts, i, depth) <= Value(ts[j], depth, true)
    ensures MinValue(ts, i, depth) == Infinity ||
            exists j :: i <= j < |ts| && Value(ts[j], depth, true) == MinValue(ts, i, depth)
    decreases |ts| - i
  {
    if i < |ts| {
      MinValueIsMinimum(ts, i + 1, depth);
    }
  }

  // Root selection

  /** The first index holding the maximum of `s`: later ties do not replace it. */
  function FirstMax(s: seq<int>): (k: nat)
    requires |s| > 0
    ensures k < |s|
    ensures forall j :: 0 <= j < |s| ==> s[j] <= s[k]
    ensures forall j :: 0 <= j < k ==> s[j] < s[k]
  {
    if |s| == 1 then 0
    else
      var k := FirstMax(s[..|s| - 1]);
      if s[|s| - 1] > s[k] then |s| - 1 else k
  }

  /**
   * One step of the root loop: scanning score `s[i]` against the best so far
   * (`bestValue`, at index `k`, or -Infinity before any score) moves the best
   * index to `i` exactly when the new score is strictly greater.
   */
  lemma FirstMaxExtend(s: seq<int>, i: nat, k: nat, bestValue: int)
    requires i < |s| && -Infinity < s[i]
    requires i == 0 ==> bestValue == -Infinity
    requires i > 0 ==> k == FirstMax(s[..i]) && bestValue == s[k]
    ensures FirstMax(s[..i + 1]) == if s[i] > bestValue then i else k
  {
    if i > 0 {
      assert s[..i + 1][..i] == s[..i];
    }
  }
}
