/** The minimax agent: depth-limited fail-soft alpha-beta search over a
    shuffled move list on the shared board, and the move it plays. */
module MinimaxAgent {
  import opened Chess
  import opened Score
  import opened Evaluator
  import opened GameTree

  /** The agent's fixed parameters: its colour, its search depth, its
      opening book and the piece-square tables its evaluator reads. */
  datatype Agent = Agent(color: Color, depth: nat, book: Book, tables: Tables)

  /** The library's in-place shuffle, swapping each slot from the last down
      with a randomly chosen slot at or below it: the random choice is
      arbitrary here, so callers may rely only on getting some permutation. */
  method Shuffle(moves: seq<Move>) returns (shuffled: seq<Move>)
    ensures multiset(shuffled) == multiset(moves)
  {
    shuffled := moves;
    var i := |shuffled|;
    while i > 1
      invariant 0 <= i <= |shuffled|
      invariant multiset(shuffled) == multiset(moves)
    {
      i := i - 1;
      var j :| 0 <= j <= i;
      shuffled := shuffled[i := shuffled[j]][j := shuffled[i]];
    }
  }

  /** Alpha-beta search from the board's position with `player` to choose.
      The board is pushed and popped in step and is left as it was found.
      At depth 0 or at the end of the game the result is the heuristic
      value with no move; otherwise it is a legal move and its score, and
      both the score of the move and the score against the position's
      minimax value obey the fail-soft bounds of the window. */
  method Minimax(board: Board, t: Tables, player: Color, depth: nat, alpha: Ext, beta: Ext)
    returns (move: Option<Move>, score: Ext)
    requires Valid(board.rules)
    requires Less(alpha, beta)
    modifies board
    decreases depth, 2
    ensures board.history == old(board.history)
    ensures score.Fin?
    ensures depth == 0 || board.rules.isGameOver(board.history) ==>
              move == None && score == Fin(Heuristic(board.rules, t, board.history, player))
    ensures depth > 0 && !board.rules.isGameOver(board.history) ==>
              move.Some? && move.value in board.rules.legalMoves(board.history) &&
              FailSoft(alpha, beta, score, ChildValue(board.rules, t, board.history, player, depth, move.value))
    ensures FailSoft(alpha, beta, score, Value(board.rules, t, board.history, player, depth))
  {
    var r := board.rules;
    if depth == 0 || board.IsGameOver() {
      return None, Fin(Heuristic(r, t, board.history, player));
    }
    ghost var p := board.history;
    var legalMoves := Shuffle(board.LegalMoves());
    SameElements(board.LegalMoves(), legalMoves);
    BestOfIgnoresOrder(r, t, p, player, depth, r.legalMoves(p), legalMoves);
    if player == White {
      move, score := SearchMax(board, t, depth, alpha, beta, legalMoves);
    } else {
      move, score := SearchMin(board, t, depth, alpha, beta, legalMoves);
    }
  }

  /** White's branch of the search: the moves in the given order, each
      searched for Black one ply shallower in the window whose lower edge
      rises with the best score, until the window closes.  The move found
      is one of the moves offered, and its score is fail-soft both against
      that move's value and against the best value over all the moves. */
  method SearchMax(board: Board, t: Tables, depth: nat, alpha: Ext, beta: Ext, moves: seq<Move>)
    returns (move: Option<Move>, score: Ext)
    requires Valid(board.rules) && Less(alpha, beta) && depth >= 1 && moves != []
    modifies board
    decreases depth, 1
    ensures board.history == old(board.history)
    ensures score.Fin? && move.Some? && move.value in moves
    ensures FailSoft(alpha, beta, score, ChildValue(board.rules, t, board.history, White, depth, move.value))
    ensures FailSoft(alpha, beta, score, BestOf(board.rules, t, board.history, White, depth, moves))
  {
    var r := board.rules;
    ghost var p := board.history;
    ghost var bestIdx := 0;
    ghost var vals: seq<real> := [];
    var bestScore: Ext, bestMove: Option<Move> := NegInf, None;
    var a := alpha;
    var i := 0;
    while i < |moves|
      invariant 0 <= i <= |moves|
      invariant board.history == p
      invariant Less(a, beta) && a == Max(alpha, bestScore)
      invariant i == 0 ==> bestScore == NegInf && bestMove == None
      invariant i > 0 ==> bestScore.Fin? && bestIdx < i && bestMove == Some(moves[bestIdx])
      invariant i > 0 ==> FailSoft(alpha, beta, bestScore, ChildValue(r, t, p, White, depth, moves[bestIdx]))
      invariant |vals| == i && forall j :: 0 <= j < i ==> vals[j] == ChildValue(r, t, p, White, depth, moves[j])
      invariant forall j :: 0 <= j < i ==> vals[j] <= bestScore.v
    {
      var m := moves[i];
      var s := SearchChild(board, t, White, depth, a, beta, m);
      ghost var c := ChildValue(r, t, p, White, depth, m);
      MaxChildStep(alpha, beta, a, bestScore, s, c);
      if Less(bestScore, s) {
        bestScore := s;
        bestMove := Some(m);
        a := Max(a, bestScore);
        bestIdx := i;
      }
      vals := vals + [c];
      i := i + 1;
      if AtMost(beta, a) {
        break;
      }
    }
    move, score := bestMove, bestScore;
    BestOfIsExtreme(r, t, p, White, depth, moves);
    assert moves[bestIdx] in moves;
    MaxResult(alpha, beta, bestScore, ChildValue(r, t, p, White, depth, moves[bestIdx]), BestOf(r, t, p, White, depth, moves));
  }

  /** Black's branch of the search: the mirror image of `SearchMax`, the
      upper edge of the window falling with the best score. */
  method SearchMin(board: Board, t: Tables, depth: nat, alpha: Ext, beta: Ext, moves: seq<Move>)
    returns (move: Option<Move>, score: Ext)
    requires Valid(board.rules) && Less(alpha, beta) && depth >= 1 && moves != []
    modifies board
    decreases depth, 1
    ensures board.history == old(board.history)
    ensures score.Fin? && move.Some? && move.value in moves
    ensures FailSoft(alpha, beta, score, ChildValue(board.rules, t, board.history, Black, depth, move.value))
    ensures FailSoft(alpha, beta, score, BestOf(board.rules, t, board.history, Black, depth, moves))
  {
    var r := board.rules;
    ghost var p := board.history;
    ghost var bestIdx := 0;
    ghost var vals: seq<real> := [];
    var bestScore: Ext, bestMove: Option<Move> := PosInf, None;
    var b := beta;
    var i := 0;
    while i < |moves|
      invariant 0 <= i <= |moves|
      invariant board.history == p
      invariant Less(alpha, b) && b == Min(beta, bestScore)
      invariant i == 0 ==> bestScore == PosInf && bestMove == None
      invariant i > 0 ==> bestScore.Fin? && bestIdx < i && bestMove == Some(moves[bestIdx])
      invariant i > 0 ==> FailSoft(alpha, beta, bestScore, ChildValue(r, t, p, Black, depth, moves[bestIdx]))
      invariant |vals| == i && forall j :: 0 <= j < i ==> vals[j] == ChildValue(r, t, p, Black, depth, moves[j])
      invariant forall j :: 0 <= j < i ==> bestScore.v <= vals[j]
    {
      var m := moves[i];
      var s := SearchChild(board, t, Black, depth, alpha, b, m);
      ghost var c := ChildValue(r, t, p, Black, depth, m);
      MinChildStep(alpha, beta, b, bestScore, s, c);
      if Less(s, bestScore) {
        bestScore := s;
        bestMove := Some(m);
        b := Min(b, bestScore);
        bestIdx := i;
      }
      vals := vals + [c];
      i := i + 1;
      if AtMost(b, alpha) {
        break;
      }
    }
    move, score := bestMove, bestScore;
    BestOfIsExtreme(r, t, p, Black, depth, moves);
    assert moves[bestIdx] in moves;
    MinResult(alpha, beta, bestScore, ChildValue(r, t, p, Black, depth, moves[bestIdx]), BestOf(r, t, p, Black, depth, moves));
  }

  /** One step of either branch: play `m`, search the reply one ply
      shallower for the other side, and take `m` back.  The score is
      fail-soft against the value of playing `m`. */
  method SearchChild(board: Board, t: Tables, player: Color, depth: nat, alpha: Ext, beta: Ext, m: Move)
    returns (score: Ext)
    requires Valid(board.rules) && Less(alpha, beta) && depth >= 1
    modifies board
    decreases depth, 0
    ensures board.history == old(board.history)
    ensures score.Fin?
    ensures FailSoft(alpha, beta, score, ChildValue(board.rules, t, board.history, player, depth, m))
  {
    ghost var p := board.history;
    board.Push(m);
    var reply;
    reply, score := Minimax(board, t, Other(player), depth - 1, alpha, beta);
    var undone := board.Pop();
    assert (p + [m])[..|p|] == p;
  }

  /** The agent's move: a book move when the book knows the position,
      otherwise the move a full-window search finds, which is optimal at
      the search depth. */
  method Play(agent: Agent, board: Board)
    requires Valid(board.rules) && BookLegal(board.rules, agent.book)
    requires !board.rules.isGameOver(board.history) && agent.depth >= 1
    modifies board
    ensures |board.history| == |old(board.history)| + 1
    ensures board.history[..|old(board.history)|] == old(board.history)
    ensures board.history[|old(board.history)|] in board.rules.legalMoves(old(board.history))
    ensures agent.book.entries(old(board.history)) != [] ==>
              board.history[|old(board.history)|] in agent.book.entries(old(board.history))
    ensures agent.book.entries(old(board.history)) == [] ==>
              OptimalMove(board.rules, agent.tables, old(board.history), agent.color,
                          SearchDepth(agent.depth, board.rules, old(board.history)), board.history[|old(board.history)|])
  {
    ghost var p := board.history;
    var move: Move;
    if agent.book.entries(board.history) != [] {
      move := WeightedChoice(agent.book, board.history);
    } else {
      var count := MaterialCount(board);
      var result: Option<Move>, score: Ext;
      if count < EndgameMaterial {
        result, score := Minimax(board, agent.tables, agent.color, agent.depth + EndgameExtension, NegInf, PosInf);
      } else {
        result, score := Minimax(board, agent.tables, agent.color, agent.depth, NegInf, PosInf);
      }
      move := result.value;
      ghost var d := SearchDepth(agent.depth, board.rules, p);
      FullWindowIsExact(score, ChildValue(board.rules, agent.tables, p, agent.color, d, move));
      FullWindowIsExact(score, Value(board.rules, agent.tables, p, agent.color, d));
    }
    board.Push(move);
    assert board.history[..|p|] == p;
  }
}
