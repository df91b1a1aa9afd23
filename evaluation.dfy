/**
 * The material evaluator: a board snapshot is an 8x8 grid of optional pieces,
 * and its score is the sum of the pieces' values, positive for White and
 * negative for Black, whoever is to move.
 */
module Evaluation {
  import opened Wrappers

  /** A piece as the rules engine reports it: a type letter and a colour letter. */
  datatype Piece = Piece(kind: char, color: char)

  /** An empty square is `None`, the source's `null`. */
  type Square = Option<Piece>

  const Size: int := 8

  /** The value of the most valuable piece, the king. */
  const KingValue: int := 900

  /** No 8x8 board can score more than this in absolute value. */
  const MaxMaterial: int := Size * Size * KingValue

  predicate IsGrid(rows: seq<seq<Square>>) {
    |rows| == Size && forall r :: 0 <= r < |rows| ==> |rows[r]| == Size
  }

  /** The snapshot `game.board()` returns: 8 rows of 8 squares. */
  type Grid = rows: seq<seq<Square>> | IsGrid(rows) witness seq(Size, _ => seq(Size, _ => None))

  /** A board with no pieces on it. */
  const EmptyBoard: Grid := seq(Size, _ => seq(Size, _ => None))

  /** The fixed material table; a type letter outside it is worth nothing. */
  function Material(kind: char): int {
    if kind == 'p' then 10
    else if kind == 'r' then 50
    else if kind == 'n' then 30
    else if kind == 'b' then 30
    else if kind == 'q' then 90
    else if kind == 'k' then KingValue
    else 0
  }

  /** `getPieceValue`: the material value, signed by colour. */
  function PieceValue(p: Piece): (v: int)
    ensures -KingValue <= v <= KingValue
    ensures p.color == 'w' ==> v >= 0
    ensures p.color != 'w' ==> v <= 0
    ensures v == 0 <==> p.kind !in "prnbqk"
    ensures p.kind == 'k' ==> (v == KingValue || v == -KingValue)
  {
    if p.color == 'w' then Material(p.kind) else -Material(p.kind)
  }

  function SquareValue(sq: Square): int {
    match sq
    case None => 0
    case Some(p) => PieceValue(p)
  }

  /** Sum of the square values of a row, accumulated left to right. */
  function RowSum(row: seq<Square>): int {
    if row == [] then 0 else RowSum(row[..|row| - 1]) + SquareValue(row[|row| - 1])
  }

  /** Sum of the row sums, accumulated top to bottom. */
  function GridSum(rows: seq<seq<Square>>): int {
    if rows == [] then 0 else GridSum(rows[..|rows| - 1]) + RowSum(rows[|rows| - 1])
  }

  /** `evaluateBoard`: the nested row/column loops over the snapshot. */
  method EvaluateBoard(board: Grid) returns (total: int)
    ensures total == GridSum(board)
    ensures -MaxMaterial <= total <= MaxMaterial
  {
    total := 0;
    for row := 0 to Size
      invariant total == GridSum(board[..row])
    {
      for col := 0 to Size
        invariant total == GridSum(board[..row]) + RowSum(board[row][..col])
      {
        var piece := board[row][col];
        if piece.Some? {
          total := total + PieceValue(piece.value);
        }
        assert board[row][..col + 1][..col] == board[row][..col];
      }
      assert board[row][..Size] == board[row];
      assert board[..row + 1][..row] == board[..row];
    }
    assert board[..Size] == board;
    GridSumBound(board);
  }

  // Colour swap and mirroring

  function Opposite(color: char): char {
    if color == 'w' then 'b' else 'w'
  }

  function SwapSquare(sq: Square): Square {
    match sq
    case None => None
    case Some(p) => Some(Piece(p.kind, Opposite(p.color)))
  }

  function SwapRow(row: seq<Square>): (r: seq<Square>)
    ensures |r| == |row|
    ensures forall c :: 0 <= c < |row| ==> r[c] == SwapSquare(row[c])
  {
    seq(|row|, c requires 0 <= c < |row| => SwapSquare(row[c]))
  }

  /** Every piece changes colour; the squares stay where they are. */
  function SwapColours(rows: seq<seq<Square>>): (r: seq<seq<Square>>)
    ensures |r| == |rows|
    ensures forall i :: 0 <= i < |rows| ==> r[i] == SwapRow(rows[i])
  {
    seq(|rows|, i requires 0 <= i < |rows| => SwapRow(rows[i]))
  }

  /** The colour-mirrored position: ranks reflected top to bottom and every piece's colour swapped. */
  function Mirror(rows: seq<seq<Square>>): (r: seq<seq<Square>>)
    ensures |r| == |rows|
    ensures forall i :: 0 <= i < |rows| ==> r[i] == SwapRow(rows[|rows| - 1 - i])
  {
    seq(|rows|, i requires 0 <= i < |rows| => SwapRow(rows[|rows| - 1 - i]))
  }

  lemma SquareValueSwapped(sq: Square)
    ensures SquareValue(SwapSquare(sq)) == -SquareValue(sq)
  {
  }

  lemma {:induction false} RowSumSwapped(row: seq<Square>)
    ensures RowSum(SwapRow(row)) == -RowSum(row)
    decreases |row|
  {
    if row != [] {
      var n := |row| - 1;
      assert SwapRow(row)[..n] == SwapRow(row[..n]);
      RowSumSwapped(row[..n]);
      SquareValueSwapped(row[n]);
    }
  }

  /** Swapping every piece's colour negates the evaluation. */
  lemma {:induction false} GridSumSwapped(rows: seq<seq<Square>>)
    ensures GridSum(SwapColours(rows)) == -GridSum(rows)
    decreases |rows|
  {
    if rows != [] {
      var n := |rows| - 1;
      assert SwapColours(rows)[..n] == SwapColours(rows[..n]);
      GridSumSwapped(rows[..n]);
      RowSumSwapped(rows[n]);
    }
  }

  lemma {:induction false} GridSumCons(row: seq<Square>, rows: seq<seq<Square>>)
    ensures GridSum([row] + rows) == RowSum(row) + GridSum(rows)
    decreases |rows|
  {
    if rows != [] {
      var n := |rows| - 1;
      assert ([row] + rows)[..n + 1] == [row] + rows[..n];
      GridSumCons(row, rows[..n]);
    }
  }

  /** Reflecting the ranks and swapping the colours negates the evaluation. */
  lemma {:induction false} GridSumMirrored(rows: seq<seq<Square>>)
    ensures GridSum(Mirror(rows)) == -GridSum(rows)
    decreases |rows|
  {
    if rows != [] {
      var n := |rows| - 1;
      assert Mirror(rows) == [SwapRow(rows[n])] + Mirror(rows[..n]);
      GridSumCons(SwapRow(rows[n]), Mirror(rows[..n]));
      GridSumMirrored(rows[..n]);
      RowSumSwapped(rows[n]);
    }
  }

  lemma {:induction false} RowSumBound(row: seq<Square>)
    ensures -KingValue * |row| <= RowSum(row) <= KingValue * |row|
    decreases |row|
  {
    if row != [] {
      RowSumBound(row[..|row| - 1]);
    }
  }

  lemma {:induction false} RowsSumBound(rows: seq<seq<Square>>)
    requires forall r :: 0 <= r < |rows| ==> |rows[r]| == Size
    ensures -Size * KingValue * |rows| <= GridSum(rows) <= Size * KingValue * |rows|
    decreases |rows|
  {
    if rows != [] {
      RowsSumBound(rows[..|rows| - 1]);
      RowSumBound(rows[|rows| - 1]);
    }
  }

  /** Every 8x8 snapshot scores within [-MaxMaterial, MaxMaterial]. */
  lemma GridSumBound(board: Grid)
    ensures -MaxMaterial <= GridSum(board) <= MaxMaterial
  {
    RowsSumBound(board);
  }
}
