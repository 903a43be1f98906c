/** The static evaluation both search agents use: material count, material
    balance, piece-square score and the heuristic that combines them.  The
    scout agent carries a verbatim copy of the minimax agent's evaluator;
    it is modelled once, here. */
module Evaluator {
  import opened Chess

  /** The material weights, pawn 1 up to queen 9; the king carries none. */
  const Weights: seq<(real, PieceType)> :=
    [(1.0, Pawn), (3.1, Knight), (3.2, Bishop), (4.5, Rook), (9.0, Queen)]

  /** The piece types looked up in the piece-square tables: rooks are not. */
  const TablePieces: seq<PieceType> := [Pawn, Knight, Bishop, Queen, King]

  /** The heuristic's coefficients for material balance and piece-square score. */
  const MaterialCoefficient: real := 1.0
  const PositionCoefficient: real := 6.0

  /** The checkmate sentinel. */
  const MateScore: real := 500.0

  /** The piece-square tables, an external module of per-square values:
      `value(White, k, s)` is the white table for piece type `k` at square
      `s` and `value(Black, k, s)` the black one. */
  datatype Tables = Tables(value: (Color, PieceType, Square) -> real)

  /** Weighted piece count of one colour over a list of weights. */
  function Material(r: Rules, p: Position, c: Color, ws: seq<(real, PieceType)>): real {
    if ws == [] then 0.0
    else
      var w := ws[|ws| - 1];
      Material(r, p, c, ws[..|ws| - 1]) + w.0 * (|r.pieces(p, w.1, c)| as real)
  }

  /** Material of both colours together. */
  function MaterialCountOf(r: Rules, p: Position): real {
    Material(r, p, White, Weights) + Material(r, p, Black, Weights)
  }

  /** White's material minus Black's. */
  function BalanceOf(r: Rules, p: Position): real {
    Material(r, p, White, Weights) - Material(r, p, Black, Weights)
  }

  /** One square's contribution for `c`: the white table added for White,
      the black table subtracted for Black. */
  function SquareTerm(t: Tables, c: Color, k: PieceType, s: Square): real {
    if c == White then t.value(White, k, s) else -t.value(Black, k, s)
  }

  /** Sum of the contributions of a list of squares holding pieces of type `k`. */
  function SquareSum(t: Tables, c: Color, k: PieceType, squares: seq<Square>): real {
    if squares == [] then 0.0
    else SquareSum(t, c, k, squares[..|squares| - 1]) + SquareTerm(t, c, k, squares[|squares| - 1])
  }

  /** Sum over a list of piece types of the contributions of `c`'s pieces of that type. */
  function TableSum(r: Rules, t: Tables, p: Position, c: Color, kinds: seq<PieceType>): real {
    if kinds == [] then 0.0
    else
      var k := kinds[|kinds| - 1];
      TableSum(r, t, p, c, kinds[..|kinds| - 1]) + SquareSum(t, c, k, r.pieces(p, k, c))
  }

  /** The piece-square score of `c`'s pieces, in thousandths. */
  function PieceSquareOf(r: Rules, t: Tables, p: Position, c: Color): real {
    TableSum(r, t, p, c, TablePieces) / 1000.0
  }

  /** The heuristic value of a position evaluated for `player`: the mate
      sentinel keyed on the evaluated player, zero for the draws the
      engine detects, and otherwise material balance plus six times the
      piece-square score. */
  function Heuristic(r: Rules, t: Tables, p: Position, player: Color): real {
    if r.isCheckmate(p) then
      (if player == Black then MateScore else -MateScore)
    else if r.isStalemate(p) || r.isInsufficientMaterial(p) || r.isFivefoldRepetition(p) then
      0.0
    else
      MaterialCoefficient * BalanceOf(r, p) + PositionCoefficient * PieceSquareOf(r, t, p, player)
  }

  /** The material count below which the search agents search two plies
      deeper than their set depth. */
  const EndgameMaterial: real := 15.0
  const EndgameExtension: nat := 2

  /** The depth a search agent with set depth `depth` searches from `p`:
      two plies deeper once the material count has fallen below the
      endgame threshold. */
  function SearchDepth(depth: nat, r: Rules, p: Position): (d: nat)
    ensures d >= depth
    ensures MaterialCountOf(r, p) < EndgameMaterial <==> d == depth + EndgameExtension
  {
    if MaterialCountOf(r, p) < EndgameMaterial then depth + EndgameExtension else depth
  }

  /** The material count loop: both colours' weighted counts, type by type. */
  method MaterialCount(board: Board) returns (count: real)
    ensures count == MaterialCountOf(board.rules, board.history)
  {
    count := 0.0;
    for i := 0 to |Weights|
      invariant count == Material(board.rules, board.history, White, Weights[..i])
                         + Material(board.rules, board.history, Black, Weights[..i])
    {
      var piece := Weights[i];
      assert Weights[..i + 1][..i] == Weights[..i];
      count := count + piece.0 * (|board.rules.pieces(board.history, piece.1, White)| as real);
      count := count + piece.0 * (|board.rules.pieces(board.history, piece.1, Black)| as real);
    }
    assert Weights[..|Weights|] == Weights;
  }

  /** The material balance loop: White's and Black's weighted counts
      accumulated separately, then subtracted. */
  method MaterialBalance(board: Board) returns (balance: real)
    ensures balance == BalanceOf(board.rules, board.history)
  {
    var wBalance, bBalance := 0.0, 0.0;
    for i := 0 to |Weights|
      invariant wBalance == Material(board.rules, board.history, White, Weights[..i])
      invariant bBalance == Material(board.rules, board.history, Black, Weights[..i])
    {
      var piece := Weights[i];
      assert Weights[..i + 1][..i] == Weights[..i];
      wBalance := wBalance + piece.0 * (|board.rules.pieces(board.history, piece.1, White)| as real);
      bBalance := bBalance + piece.0 * (|board.rules.pieces(board.history, piece.1, Black)| as real);
    }
    assert Weights[..|Weights|] == Weights;
    balance := wBalance - bBalance;
  }

  /** The piece-square loop: for each table piece type, for each square
      holding such a piece of `player`'s, add or subtract the table value. */
  method PieceSquareEvaluation(board: Board, t: Tables, player: Color) returns (evaluation: real)
    ensures evaluation == PieceSquareOf(board.rules, t, board.history, player)
  {
    var sum := 0.0;
    for i := 0 to |TablePieces|
      invariant sum == TableSum(board.rules, t, board.history, player, TablePieces[..i])
    {
      var kind := TablePieces[i];
      var squares := board.rules.pieces(board.history, kind, player);
      ghost var before := sum;
      for j := 0 to |squares|
        invariant sum == before + SquareSum(t, player, kind, squares[..j])
      {
        assert squares[..j + 1][..j] == squares[..j];
        sum := if player == White then sum + t.value(White, kind, squares[j])
               else sum - t.value(Black, kind, squares[j]);
      }
      assert squares[..|squares|] == squares;
      assert TablePieces[..i + 1][..i] == TablePieces[..i];
    }
    assert TablePieces[..|TablePieces|] == TablePieces;
    evaluation := sum / 1000.0;
  }

  /** With non-negative weights, material is never negative. */
  lemma {:induction false} MaterialNonNegative(r: Rules, p: Position, c: Color, ws: seq<(real, PieceType)>)
    requires forall i :: 0 <= i < |ws| ==> ws[i].0 >= 0.0
    ensures Material(r, p, c, ws) >= 0.0
  {
    if ws != [] {
      MaterialNonNegative(r, p, c, ws[..|ws| - 1]);
    }
  }

  /** The material count is non-negative and bounds the balance either way. */
  lemma CountBoundsBalance(r: Rules, p: Position)
    ensures MaterialCountOf(r, p) >= 0.0
    ensures -MaterialCountOf(r, p) <= BalanceOf(r, p) <= MaterialCountOf(r, p)
  {
    MaterialNonNegative(r, p, White, Weights);
    MaterialNonNegative(r, p, Black, Weights);
  }

  /** Weighted count of the standard starting set of one colour. */
  lemma StartingMaterial(r: Rules, p: Position, c: Color)
    requires |r.pieces(p, Pawn, c)| == 8 && |r.pieces(p, Knight, c)| == 2
    requires |r.pieces(p, Bishop, c)| == 2 && |r.pieces(p, Rook, c)| == 2
    requires |r.pieces(p, Queen, c)| == 1
    ensures Material(r, p, c, Weights) == 38.6
  {
    var ws := Weights;
    assert ws[..1][..0] == [];
    assert Material(r, p, c, ws[..1]) == 8.0;
    assert ws[..2][..1] == ws[..1];
    assert Material(r, p, c, ws[..2]) == 14.2;
    assert ws[..3][..2] == ws[..2];
    assert Material(r, p, c, ws[..3]) == 20.6;
    assert ws[..4][..3] == ws[..3];
    assert Material(r, p, c, ws[..4]) == 29.6;
    assert |ws| == 5 && ws[..|ws| - 1] == ws[..4] && ws[4] == (9.0, Queen);
    assert Material(r, p, c, ws) == Material(r, p, c, ws[..4]) + 9.0 * (|r.pieces(p, Queen, c)| as real);
  }

  /** On the starting piece counts (eight pawns, two knights, two bishops,
      two rooks and a queen a side) the material count is 77.2 and the
      balance is 0. */
  lemma StartingPosition(r: Rules, p: Position)
    requires forall c: Color :: |r.pieces(p, Pawn, c)| == 8 && |r.pieces(p, Knight, c)| == 2
                                && |r.pieces(p, Bishop, c)| == 2 && |r.pieces(p, Rook, c)| == 2
                                && |r.pieces(p, Queen, c)| == 1
    ensures MaterialCountOf(r, p) == 77.2
    ensures BalanceOf(r, p) == 0.0
  {
    StartingMaterial(r, p, White);
    StartingMaterial(r, p, Black);
  }

  /** The table sum over a list of piece types without rooks ignores rooks. */
  lemma {:induction false} TableSumIgnoresRooks(r: Rules, t: Tables, p: Position, q: Position, c: Color, kinds: seq<PieceType>)
    requires Rook !in kinds
    requires forall k :: k != Rook ==> r.pieces(p, k, c) == r.pieces(q, k, c)
    ensures TableSum(r, t, p, c, kinds) == TableSum(r, t, q, c, kinds)
  {
    if kinds != [] {
      assert kinds[|kinds| - 1] in kinds;
      TableSumIgnoresRooks(r, t, p, q, c, kinds[..|kinds| - 1]);
    }
  }

  /** The piece-square score depends only on the evaluated colour's pawns,
      knights, bishops, queens and king: rooks and the opponent's pieces
      do not count. */
  lemma PieceSquareIgnoresRooks(r: Rules, t: Tables, p: Position, q: Position, c: Color)
    requires forall k :: k != Rook ==> r.pieces(p, k, c) == r.pieces(q, k, c)
    ensures PieceSquareOf(r, t, p, c) == PieceSquareOf(r, t, q, c)
  {
    TableSumIgnoresRooks(r, t, p, q, c, TablePieces);
  }

  /** The mate sentinel is keyed on the evaluated player, not on the mated
      side: on a checkmate it agrees with the actual winner (+500 when White
      wins, -500 when Black wins) exactly when the evaluated player is the
      side to move, which is the mated side. */
  lemma MateScoreMatchesWinner(r: Rules, t: Tables, p: Position, player: Color)
    requires Valid(r) && r.isCheckmate(p)
    ensures Heuristic(r, t, p, player) == (if r.winner(p) == Some(White) then MateScore else -MateScore)
            <==> player == SideToMove(p)
  {
  }

  /** The draw rules override material: a drawn position that is not mate
      scores 0 for either player under any tables. */
  lemma DrawScoresZero(r: Rules, t: Tables, p: Position, player: Color)
    requires !r.isCheckmate(p)
    requires r.isStalemate(p) || r.isInsufficientMaterial(p) || r.isFivefoldRepetition(p)
    ensures Heuristic(r, t, p, player) == 0.0
  {
  }
}
