/** The rules-engine interface the agents are written against.

    The chess rules themselves (move generation, check and mate detection,
    piece sets, the opening book file format) belong to an external library.
    Here they are uninterpreted: a `Rules` value bundles the queries the
    agents make, and `Valid` collects the few facts about them the agents
    rely on.  A position is the stack of moves pushed since the standard
    starting position, exactly the library's move stack, so that pushing
    and popping a move are sequence operations. */
module Chess {

  datatype Option<T> = None | Some(value: T)

  datatype Color = White | Black

  function Other(c: Color): Color {
    if c == White then Black else White
  }

  datatype PieceType = Pawn | Knight | Bishop | Rook | Queen | King

  /** The library's numeric piece-type constants: pawn 1, knight 2, bishop 3,
      rook 4, queen 5, king 6. */
  function TypeCode(t: PieceType): nat {
    match t
    case Pawn => 1
    case Knight => 2
    case Bishop => 3
    case Rook => 4
    case Queen => 5
    case King => 6
  }

  type Square = s: int | 0 <= s < 64

  datatype Move = Move(from: Square, to: Square, promotion: Option<PieceType>)

  /** The moves pushed since the standard starting position, oldest first. */
  type Position = seq<Move>

  /** White moves first and the sides alternate. */
  function SideToMove(p: Position): Color {
    if |p| % 2 == 0 then White else Black
  }

  /** The queries the agents put to the rules engine.  `pieces` lists the
      squares holding pieces of one type and colour in ascending order,
      `horizon` bounds the number of plies a game can still last. */
  datatype Rules = Rules(
    legalMoves: Position -> seq<Move>,
    isGameOver: Position -> bool,
    isCheckmate: Position -> bool,
    isStalemate: Position -> bool,
    isInsufficientMaterial: Position -> bool,
    isFivefoldRepetition: Position -> bool,
    pieces: (Position, PieceType, Color) -> seq<Square>,
    isCapture: (Position, Move) -> bool,
    isEnPassant: (Position, Move) -> bool,
    pieceAt: (Position, Square) -> Option<PieceType>,
    winner: Position -> Option<Color>,
    horizon: Position -> nat)

  /** What the agents assume of the rules engine: a position that is not
      over has a legal move; every legal move from such a position brings
      the end of the game closer; checkmate ends the game and the side not
      to move wins; a capture that is not en passant lands on an occupied
      square. */
  ghost predicate Valid(r: Rules) {
    (forall p :: !r.isGameOver(p) ==> |r.legalMoves(p)| > 0) &&
    (forall p, m :: !r.isGameOver(p) && m in r.legalMoves(p) ==> r.horizon(p + [m]) < r.horizon(p)) &&
    (forall p :: r.isCheckmate(p) ==> r.isGameOver(p) && r.winner(p) == Some(Other(SideToMove(p)))) &&
    (forall p, m :: r.isCapture(p, m) && !r.isEnPassant(p, m) ==> r.pieceAt(p, m.to).Some?)
  }

  /** The result of a finished game. */
  datatype Outcome = Outcome(winner: Option<Color>)

  /** The library's outcome query: nothing while the game is still on. */
  function OutcomeOf(r: Rules, p: Position): (o: Option<Outcome>)
    ensures o.Some? <==> r.isGameOver(p)
  {
    if r.isGameOver(p) then Some(Outcome(r.winner(p))) else None
  }

  /** An opening book: the weighted entries stored for a position, empty
      when the book has none. */
  datatype Book = Book(entries: Position -> seq<Move>)

  /** Every move the book offers is legal where it is offered. */
  ghost predicate BookLegal(r: Rules, b: Book) {
    forall p, m :: m in b.entries(p) ==> m in r.legalMoves(p)
  }

  /** The book's weighted random choice: any of its entries. */
  method WeightedChoice(b: Book, p: Position) returns (m: Move)
    requires b.entries(p) != []
    ensures m in b.entries(p)
  {
    assert b.entries(p)[0] in b.entries(p);
    m :| m in b.entries(p);
  }

  /** A uniformly random element: any element. */
  method RandomChoice(moves: seq<Move>) returns (m: Move)
    requires moves != []
    ensures m in moves
  {
    assert moves[0] in moves;
    m :| m in moves;
  }

  /** The library's mutable board, shared by every frame of a search. */
  class Board {
    const rules: Rules
    var history: Position

    /** A fresh board at the standard starting position. */
    constructor (rules: Rules)
      ensures this.rules == rules && history == []
    {
      this.rules := rules;
      history := [];
    }

    function LegalMoves(): seq<Move>
      reads this
    {
      rules.legalMoves(history)
    }

    predicate IsGameOver()
      reads this
    {
      rules.isGameOver(history)
    }

    function Turn(): Color
      reads this
    {
      SideToMove(history)
    }

    method Push(m: Move)
      modifies this
      ensures history == old(history) + [m]
    {
      history := history + [m];
    }

    /** Takes back the last move and returns it. */
    method Pop() returns (m: Move)
      requires history != []
      modifies this
      ensures history == old(history)[..|old(history)| - 1]
      ensures m == old(history)[|old(history)| - 1]
    {
      m := history[|history| - 1];
      history := history[..|history| - 1];
    }
  }
}
