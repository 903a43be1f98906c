/** The greedy agent: a book move when the book knows the position,
    otherwise the first legal move that captures the most valuable piece by
    type code, or any legal move when no move captures. */
module GreedyAgent {
  import opened Chess

  datatype Agent = Agent(color: Color, book: Book)

  /** The material a move gains: nothing unless it captures; the pawn's
      type code for an en-passant capture; otherwise the type code of the
      piece on the target square. */
  function MaterialGained(r: Rules, p: Position, m: Move): (gain: nat)
    requires Valid(r)
    ensures gain == 0 <==> !r.isCapture(p, m)
    ensures r.isCapture(p, m) && r.isEnPassant(p, m) ==> gain == TypeCode(Pawn)
    ensures r.isCapture(p, m) && !r.isEnPassant(p, m) ==>
              exists k :: r.pieceAt(p, m.to) == Some(k) && gain == TypeCode(k)
    ensures gain <= TypeCode(King)
  {
    if r.isCapture(p, m) then
      if r.isEnPassant(p, m) then TypeCode(Pawn)
      else TypeCode(r.pieceAt(p, m.to).value)
    else 0
  }

  /** The agent's move.  Without a book entry the loop keeps the first move
      with the largest gain, so the move played gains at least as much as
      every legal move, and when it gains anything no earlier legal move
      gains as much. */
  method Play(agent: Agent, board: Board)
    requires Valid(board.rules) && BookLegal(board.rules, agent.book)
    requires !board.rules.isGameOver(board.history)
    modifies board
    ensures |board.history| == |old(board.history)| + 1
    ensures board.history[..|old(board.history)|] == old(board.history)
    ensures board.history[|old(board.history)|] in board.rules.legalMoves(old(board.history))
    ensures agent.book.entries(old(board.history)) != [] ==>
              board.history[|old(board.history)|] in agent.book.entries(old(board.history))
    ensures agent.book.entries(old(board.history)) == [] ==>
              forall m :: m in board.rules.legalMoves(old(board.history)) ==>
                MaterialGained(board.rules, old(board.history), m)
                <= MaterialGained(board.rules, old(board.history), board.history[|old(board.history)|])
    ensures agent.book.entries(old(board.history)) == [] &&
            MaterialGained(board.rules, old(board.history), board.history[|old(board.history)|]) > 0 ==>
              FirstBest(board.rules, old(board.history), board.rules.legalMoves(old(board.history)),
                        board.history[|old(board.history)|])
  {
    var r := board.rules;
    ghost var p := board.history;
    var legalMoves := board.LegalMoves();
    var maxMaterial := 0;
    var bestMove: Option<Move> := None;
    ghost var bestIdx := 0;

    if agent.book.entries(board.history) != [] {
      var m := WeightedChoice(agent.book, board.history);
      bestMove := Some(m);
    } else {
      for i := 0 to |legalMoves|
        invariant forall j :: 0 <= j < i ==> MaterialGained(r, p, legalMoves[j]) <= maxMaterial
        invariant maxMaterial == 0 <==> bestMove == None
        invariant maxMaterial > 0 ==>
                    bestIdx < i && bestMove == Some(legalMoves[bestIdx]) &&
                    MaterialGained(r, p, legalMoves[bestIdx]) == maxMaterial &&
                    forall j :: 0 <= j < bestIdx ==> MaterialGained(r, p, legalMoves[j]) < maxMaterial
      {
        var move := legalMoves[i];
        var gained := MaterialGained(r, board.history, move);
        if gained > maxMaterial {
          maxMaterial := gained;
          bestMove := Some(move);
          bestIdx := i;
        }
      }
      if maxMaterial == 0 {
        var m := RandomChoice(legalMoves);
        bestMove := Some(m);
      }
    }
    board.Push(bestMove.value);
    assert board.history[..|p|] == p;
  }

  /** `m` is the first of `ms` with the largest gain. */
  ghost predicate FirstBest(r: Rules, p: Position, ms: seq<Move>, m: Move)
    requires Valid(r)
  {
    exists k :: 0 <= k < |ms| && ms[k] == m &&
      forall j :: 0 <= j < k ==> MaterialGained(r, p, ms[j]) < MaterialGained(r, p, m)
  }

  /** Gains rank captures by type code: with a queen capture and a pawn
      capture on offer and no other capture, a move of largest gain is the
      queen capture. */
  lemma PrefersQueenCapture(r: Rules, p: Position, ms: seq<Move>, queenTake: Move, pawnTake: Move, chosen: Move)
    requires Valid(r)
    requires queenTake in ms && r.isCapture(p, queenTake) && !r.isEnPassant(p, queenTake)
    requires r.pieceAt(p, queenTake.to) == Some(Queen)
    requires r.isCapture(p, pawnTake) && (r.isEnPassant(p, pawnTake) || r.pieceAt(p, pawnTake.to) == Some(Pawn))
    requires forall m :: m in ms && m != queenTake && m != pawnTake ==> !r.isCapture(p, m)
    requires chosen in ms && forall m :: m in ms ==> MaterialGained(r, p, m) <= MaterialGained(r, p, chosen)
    ensures chosen == queenTake
  {
    assert MaterialGained(r, p, queenTake) == TypeCode(Queen);
  }
}
