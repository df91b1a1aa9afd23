/**
 * The rules engine the search talks to, seen only through its interface:
 * the legal moves of a position in enumeration order, the position a move
 * leads to, whether the game is over, and the board snapshot. `Game` is the
 * shared, mutable game object: the current position and the undo history.
 */
module Rules {
  import opened Evaluation
  import opened GameTree

  /** The rules engine's queries, as total functions of the position. */
  datatype Rules<!P, !M> = Rules(
    moves: P -> seq<M>,
    apply: (P, M) -> P,
    gameOver: P -> bool,
    board: P -> Grid)

  /** A position without legal moves is reported as game over (checkmate or stalemate). */
  ghost predicate Sound<P(!new), M>(rules: Rules<P, M>) {
    forall p :: rules.moves(p) == [] ==> rules.gameOver(p)
  }

  /** The engines the search is run against. */
  type RulesEngine<!P(!new), !M> = rules: Rules<P, M> | Sound(rules)
    witness Rules(_ => [], (p, _) => p, _ => true, _ => EmptyBoard)

  /**
   * The game tree below position `p`, cut off at `depth` plies: every node is
   * scored by the evaluator, and its children follow the engine's move order.
   */
  function Unfold<P, M>(rules: Rules<P, M>, p: P, depth: nat): (t: Tree)
    ensures t.leafScore == GridSum(rules.board(p)) && t.gameOver == rules.gameOver(p)
    ensures depth > 0 && !rules.gameOver(p) ==> t.children == Successors(rules, p, depth - 1)
    decreases depth, 0
  {
    var score := GridSum(rules.board(p));
    if depth == 0 || rules.gameOver(p) then Node(score, rules.gameOver(p), [])
    else Node(score, false, Successors(rules, p, depth - 1))
  }

  /** The trees, `depth` plies deep, of the positions each legal move of `p` leads to. */
  function Successors<P, M>(rules: Rules<P, M>, p: P, depth: nat): (ts: seq<Tree>)
    ensures |ts| == |rules.moves(p)|
    ensures forall j :: 0 <= j < |ts| ==> ts[j] == Unfold(rules, rules.apply(p, rules.moves(p)[j]), depth)
    decreases depth, 1
  {
    var ms := rules.moves(p);
    seq(|ms|, j requires 0 <= j < |ms| => Unfold(rules, rules.apply(p, ms[j]), depth))
  }

  /** Every tree a sound engine unfolds is scored within the material bound and has moves where play goes on. */
  lemma {:induction false} UnfoldWithin<P(!new), M>(rules: RulesEngine<P, M>, p: P, depth: nat)
    ensures Within(Unfold(rules, p, depth), depth, -MaxMaterial, MaxMaterial)
    decreases depth
  {
    GridSumBound(rules.board(p));
    if depth > 0 && !rules.gameOver(p) {
      var ms := rules.moves(p);
      forall j | 0 <= j < |ms|
        ensures Within(Unfold(rules, rules.apply(p, ms[j]), depth - 1), depth - 1, -MaxMaterial, MaxMaterial)
      {
        UnfoldWithin(rules, rules.apply(p, ms[j]), depth - 1);
      }
    }
  }

  /** The minimax value of any position searched to any depth lies within the material bound. */
  lemma UnfoldValueWithin<P(!new), M>(rules: RulesEngine<P, M>, p: P, depth: nat, maximizing: bool)
    ensures -MaxMaterial <= Value(Unfold(rules, p, depth), depth, maximizing) <= MaxMaterial
  {
    UnfoldWithin(rules, p, depth);
    ValueWithin(Unfold(rules, p, depth), depth, maximizing, -MaxMaterial, MaxMaterial);
  }

  /**
   * The game object: the current position and, most recent last, the positions
   * before each move not yet undone.
   */
  class Game<P(!new), M(==)> {
    const rules: RulesEngine<P, M>
    var position: P
    var history: seq<P>

    constructor (rules: RulesEngine<P, M>, start: P)
      ensures this.rules == rules && position == start && history == []
    {
      this.rules := rules;
      position := start;
      history := [];
    }

    /** `game.moves()` */
    function Moves(): seq<M>
      reads this
    {
      rules.moves(position)
    }

    /** `game.game_over()` */
    function GameOver(): bool
      reads this
    {
      rules.gameOver(position)
    }

    /** `game.board()` */
    function Board(): Grid
      reads this
    {
      rules.board(position)
    }

    /** `game.move(m)`: plays a legal move and records the position it left; an illegal move changes nothing. */
    method Move(m: M) returns (ok: bool)
      modifies this
      ensures ok == (m in old(Moves()))
      ensures ok ==> position == rules.apply(old(position), m) && history == old(history) + [old(position)]
      ensures !ok ==> position == old(position) && history == old(history)
    {
      ok := m in Moves();
      if ok {
        history := history + [position];
        position := rules.apply(position, m);
      }
    }

    /** `game.undo()`: returns to the position before the most recent move; with no move to undo it changes nothing. */
    method Undo() returns (ok: bool)
      modifies this
      ensures ok == (old(history) != [])
      ensures ok ==> position == old(history)[|old(history)| - 1] && history == old(history)[..|old(history)| - 1]
      ensures !ok ==> position == old(position) && history == old(history)
    {
      ok := history != [];
      if ok {
        position := history[|history| - 1];
        history := history[..|history| - 1];
      }
    }
  }
}
