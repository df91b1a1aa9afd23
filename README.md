# Chess opponent search, modelled in Dafny

This project models the move search of a browser chess game's computer
opponent (`script.js`). The search has three parts:

- a material evaluator (`getPieceValue`, `evaluateBoard`). It sums a fixed
  piece table over the 8x8 board, White positive and Black negative;
- depth-bounded, fail-soft minimax with alpha-beta pruning (`minimax`);
- the root driver (`getBestMove`). It scores every legal move with a fresh
  (-Infinity, +Infinity) window and keeps the first move of strictly
  greatest score.

The chess rules library is not part of this model. The search uses it only
through five queries: the legal moves, the position after a move, game
over, the board snapshot, and undo. So it is modelled abstractly:

- `Rules.Rules` is a datatype of total functions over an arbitrary position
  type `P` and move type `M`.
- `Rules.RulesEngine` is the subset type of engines that report game over
  whenever a position has no legal moves. Chess has this property:
  checkmate and stalemate are both game over.
- `Rules.Game` is the shared, mutable game object. It holds the current
  position and the undo history, and its `Move` and `Undo` methods update
  them in place.

Modules:

- `Wrappers` defines `Option`, which stands for the source's `null`.
- `Evaluation` defines pieces, the 8x8 `Grid`, `PieceValue`, the
  specification sum `GridSum`, and the imperative `EvaluateBoard`. It also
  proves the colour-swap and mirror lemmas and the material bound.
- `GameTree` defines an explicit game tree and two searches over it. `Value`
  is plain minimax without pruning, the reference. `AlphaBeta` (with
  `MaxLoop` and `MinLoop`) is the source's `minimax`, computed the same way.
  `GameTree` also proves the fail-soft characterisation linking the two, and
  defines `FirstMax`, the root's tie-breaking rule.
- `Rules` defines the rules-engine interface, `Unfold`, and the `Game` class.
  `Unfold` builds the tree the search explores from a position.
- `Search` holds the imperative `Minimax` (with `MaximizingLoop` and
  `MinimizingLoop`, one per branch of the source) and `GetBestMove` (with
  `ScoreRootMove`, one pass of its loop). Each plays moves on the `Game`
  and undoes them. Each is proved against the functions above, and to
  leave the position and the history as they were.

Scores are unbounded integers. The source's `Infinity` is the constant
`GameTree.Infinity` = 100000. Any 8x8 board scores within
`MaxMaterial` = 64 * 900 = 57600 (`Evaluation.GridSumBound`), so every
value the search can produce lies strictly between the two sentinels.

Behaviour of the code worth knowing:

- `getBestMove(0)` is not a one-ply search. The code calls
  `minimax(depth - 1, ...)` (script.js:85) and tests `depth === 0`
  (script.js:98). So with depth 0 it searches with depth -1 until the
  game ends. `GetBestMove` requires `depth >= 1`, and the only
  caller passes 2 (script.js:4, script.js:19).
- The code's terminal test is only `game.game_over()` (script.js:98). A
  position with no moves is terminal only because the rules engine reports
  it as game over. This is why engines are required to be `Sound`.
- The search always takes White's side. `getBestMove` maximises
  `evaluateBoard`, which counts White as positive (script.js:85, 88, 157),
  and the replies are searched with White minimising. Yet the computer plays
  Black: script.js:30 keeps the human from dragging black pieces. So the
  move chosen is the one best for White. The model reproduces this as
  written: `Search.BestMove` maximises `GridSum` with no side-to-move flip.

## Model

| member | source | states |
|---|---|---|
| Evaluation.PieceValue | script.js:147-158 | Non-negative for colour 'w' and non-positive otherwise. Magnitude is at most the king's 900, and exactly 900 for a king. Zero exactly when the type letter is none of p, r, n, b, q, k. |
| Evaluation.EvaluateBoard | script.js:133-145 | The row/column loops add up every occupied square's piece value: the result is the sum `GridSum` over all 64 squares, with empty squares adding 0. It lies within ±57600. It takes the board as a value and changes nothing. |
| Evaluation.GridSumSwapped | script.js:133-145 | Swapping the colour of every piece negates the evaluation. |
| Evaluation.GridSumMirrored | script.js:133-145 | Reflecting the ranks top to bottom and swapping every colour negates the evaluation. |
| Evaluation.GridSumBound | script.js:133-158 | Every 8x8 board evaluates within [-57600, 57600], strictly inside the ±Infinity sentinels. |
| GameTree.AlphaBeta | script.js:97-131 | Computes the source's `minimax` as written: the evaluation at depth 0 or game over, otherwise the maximizing or minimizing loop over the children. Its own contract gives the depth-0/game-over case, and that an interior maximizing node never returns below -Infinity and an interior minimizing node never above +Infinity. `GameTree.AlphaBetaBounds` and `GameTree.FailSoft` carry its relation to minimax. |
| GameTree.MaxLoop | script.js:104-116 | Computes the maximizing loop as written, including the break at `beta <= alpha` (script.js:112-114). Its own contract: the result is never below the running `maxEval`. `GameTree.MaxLoopBounds` carries its fail-soft bounds. |
| GameTree.MinLoop | script.js:117-130 | Computes the minimizing loop as written, including the break at `beta <= alpha` (script.js:125-127). Its own contract: the result is never above the running `minEval`. `GameTree.MinLoopBounds` carries its fail-soft bounds. |
| GameTree.AlphaBetaBounds | script.js:97-131 | For every tree, depth and window `-Infinity <= alpha < beta <= Infinity` (defined below the table), the pruned search result `r` and the plain minimax value `v` satisfy: `r <= alpha` implies `v <= r`; `alpha < r < beta` implies `v == r`; `r >= beta` implies `v >= r`. |
| GameTree.MaxLoopBounds | script.js:104-116 | The maximizing loop, with its break at `beta <= alpha`, never returns below its running `maxEval`. Against the maximum of the remaining children's minimax values, it keeps the three fail-soft bounds. |
| GameTree.MinLoopBounds | script.js:117-130 | The minimizing loop, with its break at `beta <= alpha`, never returns above its running `minEval`. Against the minimum of the remaining children's minimax values, it keeps the three fail-soft bounds. |
| GameTree.FailSoft | script.js:97-131 | With true value `v`: `alpha < v < beta` gives exactly `v`; `v <= alpha` gives a result `<= alpha`; `v >= beta` gives a result `>= beta`. |
| GameTree.FullWindowExact | script.js:85 | With the window (-Infinity, +Infinity), the pruned search returns the exact minimax value of any tree whose value lies between the sentinels. |
| GameTree.ValueWithin | script.js:97-131 | If every reachable position scores within [lo, hi] and has a move unless the game is over, the minimax value lies in [lo, hi]. |
| GameTree.MaxValueIsMaximum | script.js:104-116 | The reference maximizing value is at least every child's value. It is either the -Infinity start value or equal to some child's value. |
| GameTree.MinValueIsMinimum | script.js:117-130 | The reference minimizing value is at most every child's value. It is either the +Infinity start value or equal to some child's value. |
| GameTree.FirstMax | script.js:88-91 | The selected index holds a maximum of the scores, and every earlier index holds a strictly smaller score. So later ties never replace the first maximum. |
| GameTree.FirstMaxExtend | script.js:88-91 | Step lemma for the root loop: on a prefix one score longer, the first maximum moves to the new score exactly when it is strictly greater than the best so far, and otherwise stays where it was. |
| Rules.Unfold | script.js:98-109 | The explored tree: each node is scored by the evaluator and carries the engine's game-over flag. Below a non-terminal node at positive depth, the children are the positions after each legal move, in move order. |
| Rules.Successors | script.js:102-109 | One subtree for each legal move, in the engine's enumeration order, each for the position that move leads to. |
| Rules.UnfoldWithin | script.js:98-99 | For a sound engine, every position the search reaches scores within ±57600, and each one that is not game over has a legal move. |
| Rules.UnfoldValueWithin | script.js:97-131 | For a sound engine, the minimax value of any position at any depth lies within ±57600. |
| Rules.Game.constructor | script.js:1 | A new game is at its start position with an empty undo history. |
| Rules.Game.Move | script.js:84 | A legal move moves to the position the engine computes and pushes the old position on the history. An illegal move changes nothing. |
| Rules.Game.Undo | script.js:86 | Pops the most recent position back into place. With an empty history it changes nothing. |
| Search.RootScores | script.js:83-86 | Each root move's score is the exact minimax value, `depth - 1` plies deep with the opponent to move, of the position that move leads to. |
| Search.BestMove | script.js:78-95 | No move exactly when there are no legal moves. Otherwise one of the legal moves. |
| Search.BestMoveIsFirstMax | script.js:83-91 | When there are legal moves, `BestMove` is the move at an index `k` whose exact score is at least every root score, and every earlier score is strictly smaller: the first maximum. |
| Search.RootScoreExact | script.js:85 | For a sound engine, the fresh (-Infinity, +Infinity) window gives each root move exactly its minimax score, which lies within ±57600. |
| Search.Minimax | script.js:97-131 | Leaves the position and the undo history unchanged, because every move it plays is undone. Its result is the pruned search `AlphaBeta` of the explored tree. At depth 0 or game over it equals the evaluator's score. For windows within the sentinels, it satisfies the three fail-soft cases against plain minimax. |
| Search.MaximizingLoop | script.js:104-116 | Leaves the position and history unchanged and returns `MaxLoop` of the successor trees. Its loop invariants: `alpha` never decreases, `maxEval` is the largest reply examined, and the loop leaves early only when `beta <= alpha`. |
| Search.MinimizingLoop | script.js:117-130 | Leaves the position and history unchanged and returns `MinLoop` of the successor trees. Its loop invariants: `beta` never increases, `minEval` is the smallest reply examined, and the loop leaves early only when `beta <= alpha`. |
| Search.ScoreRootMove | script.js:84-86 | One pass of the root loop: playing move `i`, searching the reply with the window (-Infinity, +Infinity) and undoing the move leaves the position and history unchanged. It yields exactly move `i`'s minimax score, which lies within ±57600. |
| Search.GetBestMove | script.js:78-95 | Leaves the position and the undo history unchanged. Returns `BestMove`: no move exactly when there are no legal moves, otherwise the first move of maximal exact score. So pruning never changes the chosen move. |

In the table, "window" means the pair `alpha < beta`, and "the three
fail-soft bounds" are the three implications stated for
`GameTree.AlphaBetaBounds`.

## Left out

- User interface and input: `startGame`, `makeAIMove`, `onDragStart`, `onDrop`, `config` and the click handlers (script.js:7-47, script.js:67-76, script.js:160-166). They only render and capture input.
- `updateStatus` (script.js:49-65): it formats status text from rules-library queries and writes it into the page.
- The 250 ms `setTimeout` before the computer moves (script.js:45): it is scheduling, not logic.
- Chess legality, check, checkmate, draw detection and move generation. They belong to the external rules library, which is not part of this model. They appear only as the abstract `Rules` functions. `Rules.Game.Moves`, `Rules.Game.GameOver` and `Rules.Game.Board` stand for `game.moves()`, `game.game_over()` and `game.board()` (script.js:81, script.js:98, script.js:135). They only read the library's answer for the current position, so they carry no contract of their own. `Rules.Game.Move` takes a move value from the move list, not the library's notation or move objects.
- IEEE floating-point `Infinity`: it is replaced by the integer sentinel 100000. The evaluator bound keeps every score strictly inside that sentinel.
- The global `game`, `board` and `aiDepth`: `Search.Minimax` and `Search.GetBestMove` take the game object and the depth as parameters instead.
- The depth-2 search from the chess start position should pick a balanced move of score 0. That concrete scenario needs the real chess rules, so it is not modelled.
- Search.GetBestMove: requires `depth >= 1`. With depth 0 the code would search with negative depth until the game is over. That case is not modelled.
- GameTree.FailSoft: stated only for windows with `-Infinity <= alpha < beta <= Infinity`. Every call the source makes has such a window: the root window is (-Infinity, +Infinity), and a child is searched only while `alpha < beta`. The lemma says nothing about other windows.
- Search.RootScoreExact: holds only for engines that report game over whenever no move is legal (`Rules.RulesEngine`). For another engine, a position with no moves that is not game over would make the source's loops return ±Infinity. The model says nothing about such engines.
