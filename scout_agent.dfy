/** The scout agent: principal variation search over moves ordered by the
    material balance they leave, probing every move after the first with a
    window one unit wide and searching again when the probe lands inside
    the window. */
module ScoutAgent {
  import opened Chess
  import opened Score
  import opened Evaluator
  import opened GameTree

  /** The agent's fixed parameters, as for the minimax agent. */
  datatype Agent = Agent(color: Color, depth: nat, book: Book, tables: Tables)

  /** A move paired with the material balance after it. */
  type Scored = (Move, real)

  // ---------------------------------------------------------------------
  // Move ordering

  /** `x` sorts strictly before `y`: a higher balance when sorting for
      White (descending), a lower one when sorting for Black. */
  predicate Ahead(x: Scored, y: Scored, descending: bool) {
    if descending then x.1 > y.1 else x.1 < y.1
  }

  /** No element sorts strictly before an earlier one. */
  predicate SortedBy(ys: seq<Scored>, descending: bool) {
    forall i, j :: 0 <= i < j < |ys| ==> !Ahead(ys[j], ys[i], descending)
  }

  /** Places `x` in front of the first element that does not sort strictly
      before it, so that it stays ahead of every element with its key. */
  function Insert(x: Scored, ys: seq<Scored>, descending: bool): seq<Scored> {
    if ys == [] || !Ahead(ys[0], x, descending) then [x] + ys
    else [ys[0]] + Insert(x, ys[1..], descending)
  }

  /** The library's stable sort by balance, reversed for White: an
      insertion sort of each element into the sorted rest. */
  function SortByScore(xs: seq<Scored>, descending: bool): seq<Scored> {
    if xs == [] then [] else Insert(xs[0], SortByScore(xs[1..], descending), descending)
  }

  /** The elements of `xs` with balance `k`, in their order. */
  function WithScore(xs: seq<Scored>, k: real): seq<Scored> {
    if xs == [] then []
    else (if xs[0].1 == k then [xs[0]] else []) + WithScore(xs[1..], k)
  }

  /** The moves of a scored list, in order. */
  function Firsts(xs: seq<Scored>): (ms: seq<Move>)
    ensures |ms| == |xs| && forall i :: 0 <= i < |xs| ==> ms[i] == xs[i].0
  {
    if xs == [] then [] else [xs[0].0] + Firsts(xs[1..])
  }

  /** Each move paired with the balance after playing it from `p`. */
  function ScoreMoves(r: Rules, p: Position, ms: seq<Move>): seq<Scored> {
    if ms == [] then [] else [(ms[0], BalanceOf(r, p + [ms[0]]))] + ScoreMoves(r, p, ms[1..])
  }

  /** Scoring keeps the moves in order and pairs each with its balance. */
  lemma {:induction false} ScoreMovesSpec(r: Rules, p: Position, ms: seq<Move>)
    ensures Firsts(ScoreMoves(r, p, ms)) == ms
    ensures |ScoreMoves(r, p, ms)| == |ms|
    ensures forall i :: 0 <= i < |ms| ==> ScoreMoves(r, p, ms)[i].1 == BalanceOf(r, p + [ms[i]])
  {
    if ms != [] {
      ScoreMovesSpec(r, p, ms[1..]);
      assert ms == [ms[0]] + ms[1..];
    }
  }

  /** What `order_moves` returns: the legal moves scored and sorted best
      first for `player`. */
  function Ordered(r: Rules, p: Position, player: Color): seq<Scored> {
    SortByScore(ScoreMoves(r, p, r.legalMoves(p)), player == White)
  }

  lemma {:induction false} InsertPermutes(x: Scored, ys: seq<Scored>, descending: bool)
    ensures multiset(Insert(x, ys, descending)) == multiset([x] + ys)
  {
    if ys != [] && Ahead(ys[0], x, descending) {
      InsertPermutes(x, ys[1..], descending);
      assert ys == [ys[0]] + ys[1..];
    }
  }

  /** Sorting only re-arranges: the result is a permutation of the input. */
  lemma {:induction false} SortPermutes(xs: seq<Scored>, descending: bool)
    ensures multiset(SortByScore(xs, descending)) == multiset(xs)
  {
    if xs != [] {
      SortPermutes(xs[1..], descending);
      InsertPermutes(xs[0], SortByScore(xs[1..], descending), descending);
      assert xs == [xs[0]] + xs[1..];
    }
  }

  lemma {:induction false} InsertSorted(x: Scored, ys: seq<Scored>, descending: bool)
    requires SortedBy(ys, descending)
    ensures SortedBy(Insert(x, ys, descending), descending)
  {
    if ys != [] && Ahead(ys[0], x, descending) {
      InsertSorted(x, ys[1..], descending);
      InsertPermutes(x, ys[1..], descending);
      var zs := Insert(x, ys[1..], descending);
      forall j | 0 <= j < |zs|
        ensures !Ahead(zs[j], ys[0], descending)
      {
        assert zs[j] in multiset([x] + ys[1..]);
        assert zs[j] == x || zs[j] in ys[1..];
      }
    }
  }

  /** The sort's output is in order: descending balance for White,
      ascending for Black. */
  lemma {:induction false} SortSorted(xs: seq<Scored>, descending: bool)
    ensures SortedBy(SortByScore(xs, descending), descending)
  {
    if xs != [] {
      SortSorted(xs[1..], descending);
      InsertSorted(xs[0], SortByScore(xs[1..], descending), descending);
    }
  }

  lemma {:induction false} WithScoreAppend(xs: seq<Scored>, ys: seq<Scored>, k: real)
    ensures WithScore(xs + ys, k) == WithScore(xs, k) + WithScore(ys, k)
  {
    if xs != [] {
      WithScoreAppend(xs[1..], ys, k);
      var head := if xs[0].1 == k then [xs[0]] else [];
      assert (xs + ys)[0] == xs[0] && (xs + ys)[1..] == xs[1..] + ys;
      assert WithScore(xs + ys, k) == head + WithScore(xs[1..] + ys, k);
      assert WithScore(xs, k) == head + WithScore(xs[1..], k);
    } else {
      assert xs + ys == ys;
    }
  }

  lemma {:induction false} InsertStable(x: Scored, ys: seq<Scored>, descending: bool, k: real)
    ensures WithScore(Insert(x, ys, descending), k) == WithScore([x] + ys, k)
  {
    if ys != [] && Ahead(ys[0], x, descending) {
      InsertStable(x, ys[1..], descending, k);
      WithScoreAppend([ys[0]], Insert(x, ys[1..], descending), k);
      WithScoreAppend([x], ys[1..], k);
      WithScoreAppend([ys[0]], [x] + ys[1..], k);
      WithScoreAppend([x], ys, k);
      assert ys == [ys[0]] + ys[1..];
      WithScoreAppend([ys[0]], ys[1..], k);
    }
  }

  /** The sort is stable: moves with equal balance keep the order in which
      the move generator produced them. */
  lemma {:induction false} SortStable(xs: seq<Scored>, descending: bool, k: real)
    ensures WithScore(SortByScore(xs, descending), k) == WithScore(xs, k)
  {
    if xs != [] {
      SortStable(xs[1..], descending, k);
      InsertStable(xs[0], SortByScore(xs[1..], descending), descending, k);
      WithScoreAppend([xs[0]], SortByScore(xs[1..], descending), k);
      WithScoreAppend([xs[0]], xs[1..], k);
      assert xs == [xs[0]] + xs[1..];
    }
  }

  lemma {:induction false} InsertKeepsMoves(x: Scored, ys: seq<Scored>, descending: bool)
    ensures multiset(Firsts(Insert(x, ys, descending))) == multiset([x.0] + Firsts(ys))
  {
    if ys != [] && Ahead(ys[0], x, descending) {
      InsertKeepsMoves(x, ys[1..], descending);
      assert Firsts(ys) == [ys[0].0] + Firsts(ys[1..]);
    }
  }

  /** Sorting re-arranges the moves and loses or repeats none. */
  lemma {:induction false} SortKeepsMoves(xs: seq<Scored>, descending: bool)
    ensures multiset(Firsts(SortByScore(xs, descending))) == multiset(Firsts(xs))
  {
    if xs != [] {
      SortKeepsMoves(xs[1..], descending);
      InsertKeepsMoves(xs[0], SortByScore(xs[1..], descending), descending);
      assert Firsts(xs) == [xs[0].0] + Firsts(xs[1..]);
    }
  }

  /** Lists with the same elements offer the same moves. */
  lemma SameFirsts(xs: seq<Scored>, ys: seq<Scored>)
    requires forall x :: x in xs <==> x in ys
    ensures forall m :: m in Firsts(xs) <==> m in Firsts(ys)
  {
    forall m | m in Firsts(xs)
      ensures m in Firsts(ys)
    {
      var i :| 0 <= i < |xs| && Firsts(xs)[i] == m;
      assert xs[i] in ys;
      var j :| 0 <= j < |ys| && ys[j] == xs[i];
      assert Firsts(ys)[j] == m;
    }
    forall m | m in Firsts(ys)
      ensures m in Firsts(xs)
    {
      var j :| 0 <= j < |ys| && Firsts(ys)[j] == m;
      assert ys[j] in xs;
      var i :| 0 <= i < |xs| && xs[i] == ys[j];
      assert Firsts(xs)[i] == m;
    }
  }

  /** A permutation has the same length and the same elements. */
  lemma PermutationMembers(xs: seq<Scored>, ys: seq<Scored>)
    requires multiset(xs) == multiset(ys)
    ensures |xs| == |ys|
    ensures forall x :: x in xs <==> x in ys
  {
    assert |xs| == |multiset(xs)| == |multiset(ys)| == |ys|;
    forall x
      ensures x in xs <==> x in ys
    {
      assert x in xs <==> x in multiset(xs);
      assert x in ys <==> x in multiset(ys);
    }
  }

  /** The ordered list holds each legal move exactly once, each with the
      balance it leaves, best first for the player. */
  lemma OrderedSpec(r: Rules, p: Position, player: Color)
    ensures |Ordered(r, p, player)| == |r.legalMoves(p)|
    ensures multiset(Firsts(Ordered(r, p, player))) == multiset(r.legalMoves(p))
    ensures forall m :: m in Firsts(Ordered(r, p, player)) <==> m in r.legalMoves(p)
    ensures forall x :: x in Ordered(r, p, player) ==> x.1 == BalanceOf(r, p + [x.0])
    ensures SortedBy(Ordered(r, p, player), player == White)
  {
    var xs := ScoreMoves(r, p, r.legalMoves(p));
    ScoreMovesSpec(r, p, r.legalMoves(p));
    var ys := Ordered(r, p, player);
    SortPermutes(xs, player == White);
    SortSorted(xs, player == White);
    SortKeepsMoves(xs, player == White);
    PermutationMembers(xs, ys);
    SameFirsts(xs, ys);
    forall x | x in ys
      ensures x.1 == BalanceOf(r, p + [x.0])
    {
      var j :| 0 <= j < |xs| && xs[j] == x;
    }
  }

  /** `order_moves`: every legal move is played, the balance after it is
      recorded and the move taken back, and the list is sorted for the
      player. */
  method OrderMoves(board: Board, player: Color) returns (result: seq<Scored>)
    modifies board
    ensures board.history == old(board.history)
    ensures result == Ordered(board.rules, board.history, player)
  {
    ghost var p := board.history;
    var legalMoves := board.LegalMoves();
    var scored: seq<Scored> := [];
    for i := 0 to |legalMoves|
      invariant board.history == p
      invariant scored == ScoreMoves(board.rules, p, legalMoves[..i])
    {
      var move := legalMoves[i];
      var score := BalanceAfter(board, move);
      scored := scored + [(move, score)];
      ScoreMovesSnoc(board.rules, p, legalMoves[..i], move);
      assert legalMoves[..i + 1] == legalMoves[..i] + [move];
    }
    assert legalMoves[..|legalMoves|] == legalMoves;
    result := SortByScore(scored, player == White);
  }

  /** Plays `move`, reads the material balance and takes the move back. */
  method BalanceAfter(board: Board, move: Move) returns (score: real)
    modifies board
    ensures board.history == old(board.history)
    ensures score == BalanceOf(board.rules, board.history + [move])
  {
    ghost var p := board.history;
    board.Push(move);
    score := MaterialBalance(board);
    var undone := board.Pop();
    assert (p + [move])[..|p|] == p;
  }

  lemma {:induction false} ScoreMovesSnoc(r: Rules, p: Position, ms: seq<Move>, m: Move)
    ensures ScoreMoves(r, p, ms + [m]) == ScoreMoves(r, p, ms) + [(m, BalanceOf(r, p + [m]))]
  {
    if ms != [] {
      ScoreMovesSnoc(r, p, ms[1..], m);
      assert (ms + [m])[1..] == ms[1..] + [m];
    }
  }

  // ---------------------------------------------------------------------
  // Probes and re-searches

  /** A probe in the unit window just above a finite alpha, and the
      re-search from the probe's score up to beta when the probe lands
      strictly inside (alpha, beta).  Without a re-search the probe's score
      is fail-soft for (alpha, beta); with one, the re-search's score is. */
  lemma AlphaProbe(alpha: Ext, beta: Ext, s: Ext, c: real)
    requires alpha.Fin? && Less(alpha, beta) && s.Fin?
    requires FailSoft(alpha, Shift(alpha, 1.0), s, c)
    ensures !(Less(alpha, s) && Less(s, beta)) ==> FailSoft(alpha, beta, s, c)
    ensures Less(alpha, s) && Less(s, beta) ==> s.v <= c
  {
  }

  lemma AlphaResearch(alpha: Ext, beta: Ext, s: Ext, s2: Ext, c: real)
    requires Less(alpha, s) && Less(s, beta) && s.Fin? && s2.Fin? && s.v <= c
    requires FailSoft(s, beta, s2, c)
    ensures FailSoft(alpha, beta, s2, c)
  {
  }

  /** A probe in the unit window just below a finite beta when alpha is
      minus infinity.  A probe at or above beta is fail-soft for the
      window as it stands; one below beta is an upper bound on the value. */
  lemma BetaProbe(alpha: Ext, beta: Ext, s: Ext, c: real)
    requires alpha == NegInf && beta.Fin? && s.Fin?
    requires FailSoft(Shift(beta, -1.0), beta, s, c)
    ensures !Less(s, beta) ==> FailSoft(alpha, beta, s, c)
    ensures Less(s, beta) ==> c <= s.v
  {
  }

  /** Re-searching below an upper bound, in (alpha, s), gives a score that
      is fail-soft for (alpha, beta). */
  lemma BetaResearch(alpha: Ext, beta: Ext, s: Ext, s2: Ext, c: real)
    requires alpha == NegInf && Less(s, beta) && s.Fin? && s2.Fin? && c <= s.v
    requires FailSoft(alpha, s, s2, c)
    ensures FailSoft(alpha, beta, s2, c)
  {
  }

  /** Re-searching above an upper bound, in (s, beta) as the scout agent
      does after a probe below beta, can return a score inside the window
      that is not the value: a probe of -3 bounding a value of -6 from
      above, and a re-search that fails low again at -3, leave -3 standing
      for a value of -6. */
  lemma BetaResearchAsWrittenNotExact()
    ensures var alpha, beta, s, s2, c := NegInf, Fin(0.0), Fin(-3.0), Fin(-3.0), -6.0;
            FailSoft(Shift(beta, -1.0), beta, s, c) && Less(alpha, s) && Less(s, beta) &&
            FailSoft(s, beta, s2, c) && !FailSoft(alpha, beta, s2, c)
  {
  }

  // ---------------------------------------------------------------------
  // The search

  /** Principal variation search from the board's position with `player`
      to choose.  The board is left as it was found.  At depth 0 or at the
      end of the game the result is the heuristic value with no move;
      otherwise it is a legal move, and its score obeys the fail-soft
      bounds of the window both against the move's value and against the
      position's minimax value. */
  method Scout(board: Board, t: Tables, player: Color, depth: nat, alpha: Ext, beta: Ext)
    returns (move: Option<Move>, score: Ext)
    requires Valid(board.rules)
    requires Less(alpha, beta)
    modifies board
    decreases depth, 2
    ensures board.history == old(board.history)
    ensures score.Fin?
    ensures depth == 0 || board.rules.isGameOver(board.history) ==>
              move == None && score == Fin(Heuristic(board.rules, t, board.history, player))
    ensures depth > 0 && !board.rules.isGameOver(board.history) ==>
              move.Some? && move.value in board.rules.legalMoves(board.history) &&
              FailSoft(alpha, beta, score, ChildValue(board.rules, t, board.history, player, depth, move.value))
    ensures FailSoft(alpha, beta, score, Value(board.rules, t, board.history, player, depth))
  {
    var r := board.rules;
    if depth == 0 || board.IsGameOver() {
      return None, Fin(Heuristic(r, t, board.history, player));
    }
    ghost var p := board.history;
    var orderedMoves := OrderMoves(board, player);
    OrderedSpec(r, p, player);
    var moves := Firsts(orderedMoves);
    BestOfIgnoresOrder(r, t, p, player, depth, r.legalMoves(p), moves);
    if player == White {
      move, score := ScoutMax(board, t, depth, alpha, beta, moves);
    } else {
      move, score := ScoutMin(board, t, depth, alpha, beta, moves);
    }
  }

  /** White's side of the loop: the best score raises alpha, and the loop
      stops once the window closes. */
  method ScoutMax(board: Board, t: Tables, depth: nat, alpha: Ext, beta: Ext, moves: seq<Move>)
    returns (move: Option<Move>, score: Ext)
    requires Valid(board.rules) && Less(alpha, beta) && depth >= 1 && moves != []
    modifies board
    decreases depth, 1
    ensures board.history == old(board.history)
    ensures score.Fin? && move.Some? && move.value in moves
    ensures FailSoft(alpha, beta, score, ChildValue(board.rules, t, board.history, White, depth, move.value))
    ensures FailSoft(alpha, beta, score, BestOf(board.rules, t, board.history, White, depth, moves))
  {
    var r := board.rules;
    ghost var p := board.history;
    ghost var bestIdx := 0;
    ghost var vals: seq<real> := [];
    var bestScore: Ext, bestMove: Option<Move> := NegInf, None;
    var a := alpha;
    var i := 0;
    while i < |moves|
      invariant 0 <= i <= |moves|
      invariant board.history == p
      invariant Less(a, beta) && a == Max(alpha, bestScore)
      invariant i == 0 ==> bestScore == NegInf && bestMove == None
      invariant i > 0 ==> bestScore.Fin? && bestIdx < i && bestMove == Some(moves[bestIdx])
      invariant i > 0 ==> FailSoft(alpha, beta, bestScore, ChildValue(r, t, p, White, depth, moves[bestIdx]))
      invariant |vals| == i && forall j :: 0 <= j < i ==> vals[j] == ChildValue(r, t, p, White, depth, moves[j])
      invariant forall j :: 0 <= j < i ==> vals[j] <= bestScore.v
    {
      var m := moves[i];
      var s := ScoutChild(board, t, White, depth, a, beta, bestMove == None, m);
      ghost var c := ChildValue(r, t, p, White, depth, m);
      MaxChildStep(alpha, beta, a, bestScore, s, c);
      if Less(bestScore, s) {
        bestScore := s;
        bestMove := Some(m);
        a := Max(a, s);
        bestIdx := i;
      }
      vals := vals + [c];
      i := i + 1;
      if AtMost(beta, a) {
        break;
      }
    }
    move, score := bestMove, bestScore;
    BestOfIsExtreme(r, t, p, White, depth, moves);
    assert moves[bestIdx] in moves;
    MaxResult(alpha, beta, bestScore, ChildValue(r, t, p, White, depth, moves[bestIdx]), BestOf(r, t, p, White, depth, moves));
  }

  /** Black's side of the loop: the best score lowers beta. */
  method ScoutMin(board: Board, t: Tables, depth: nat, alpha: Ext, beta: Ext, moves: seq<Move>)
    returns (move: Option<Move>, score: Ext)
    requires Valid(board.rules) && Less(alpha, beta) && depth >= 1 && moves != []
    modifies board
    decreases depth, 1
    ensures board.history == old(board.history)
    ensures score.Fin? && move.Some? && move.value in moves
    ensures FailSoft(alpha, beta, score, ChildValue(board.rules, t, board.history, Black, depth, move.value))
    ensures FailSoft(alpha, beta, score, BestOf(board.rules, t, board.history, Black, depth, moves))
  {
    var r := board.rules;
    ghost var p := board.history;
    ghost var bestIdx := 0;
    ghost var vals: seq<real> := [];
    var bestScore: Ext, bestMove: Option<Move> := PosInf, None;
    var b := beta;
    var i := 0;
    while i < |moves|
      invariant 0 <= i <= |moves|
      invariant board.history == p
      invariant Less(alpha, b) && b == Min(beta, bestScore)
      invariant i == 0 ==> bestScore == PosInf && bestMove == None
      invariant i > 0 ==> bestScore.Fin? && bestIdx < i && bestMove == Some(moves[bestIdx])
      invariant i > 0 ==> FailSoft(alpha, beta, bestScore, ChildValue(r, t, p, Black, depth, moves[bestIdx]))
      invariant |vals| == i && forall j :: 0 <= j < i ==> vals[j] == ChildValue(r, t, p, Black, depth, moves[j])
      invariant forall j :: 0 <= j < i ==> bestScore.v <= vals[j]
    {
      var m := moves[i];
      var s := ScoutChild(board, t, Black, depth, alpha, b, bestMove == None, m);
      ghost var c := ChildValue(r, t, p, Black, depth, m);
      MinChildStep(alpha, beta, b, bestScore, s, c);
      if Less(s, bestScore) {
        bestScore := s;
        bestMove := Some(m);
        b := Min(b, s);
        bestIdx := i;
      }
      vals := vals + [c];
      i := i + 1;
      if AtMost(b, alpha) {
        break;
      }
    }
    move, score := bestMove, bestScore;
    BestOfIsExtreme(r, t, p, Black, depth, moves);
    assert moves[bestIdx] in moves;
    MinResult(alpha, beta, bestScore, ChildValue(r, t, p, Black, depth, moves[bestIdx]), BestOf(r, t, p, Black, depth, moves));
  }

  /** One move of the loop: play it; search the first move in the full
      window; probe every later one in a unit window above a finite alpha,
      or else below beta; search again when the probe lands strictly inside
      the window; take the move back.  After a probe below beta the search
      is repeated between alpha and the probe's score, where the value is
      known to lie.  The score is fail-soft for the window against the
      value of the move.  After the first move one edge of the window is
      always finite, so a probe is always possible. */
  method ScoutChild(board: Board, t: Tables, player: Color, depth: nat, alpha: Ext, beta: Ext,
                    first: bool, m: Move)
    returns (score: Ext)
    requires Valid(board.rules) && Less(alpha, beta) && depth >= 1
    requires first || alpha != NegInf || beta != PosInf
    modifies board
    decreases depth, 0
    ensures board.history == old(board.history)
    ensures score.Fin?
    ensures FailSoft(alpha, beta, score, ChildValue(board.rules, t, board.history, player, depth, m))
  {
    ghost var p := board.history;
    ghost var c := ChildValue(board.rules, t, p, player, depth, m);
    board.Push(m);
    var nextPlayer := Other(player);
    var reply;
    if first {
      reply, score := Scout(board, t, nextPlayer, depth - 1, alpha, beta);
    } else if alpha != NegInf {
      reply, score := Scout(board, t, nextPlayer, depth - 1, alpha, Shift(alpha, 1.0));
      AlphaProbe(alpha, beta, score, c);
      if Less(alpha, score) && Less(score, beta) {
        var research;
        reply, research := Scout(board, t, nextPlayer, depth - 1, score, beta);
        AlphaResearch(alpha, beta, score, research, c);
        score := research;
      }
    } else {
      reply, score := Scout(board, t, nextPlayer, depth - 1, Shift(beta, -1.0), beta);
      BetaProbe(alpha, beta, score, c);
      if Less(alpha, score) && Less(score, beta) {
        var research;
        reply, research := Scout(board, t, nextPlayer, depth - 1, alpha, score);
        BetaResearch(alpha, beta, score, research, c);
        score := research;
      }
    }
    var undone := board.Pop();
    assert (p + [m])[..|p|] == p;
  }

  /** The agent's move: a book move when the book knows the position,
      otherwise the move a full-window scout search finds, which is optimal
      at the search depth. */
  method Play(agent: Agent, board: Board)
    requires Valid(board.rules) && BookLegal(board.rules, agent.book)
    requires !board.rules.isGameOver(board.history) && agent.depth >= 1
    modifies board
    ensures |board.history| == |old(board.history)| + 1
    ensures board.history[..|old(board.history)|] == old(board.history)
    ensures board.history[|old(board.history)|] in board.rules.legalMoves(old(board.history))
    ensures agent.book.entries(old(board.history)) != [] ==>
              board.history[|old(board.history)|] in agent.book.entries(old(board.history))
    ensures agent.book.entries(old(board.history)) == [] ==>
              OptimalMove(board.rules, agent.tables, old(board.history), agent.color,
                          SearchDepth(agent.depth, board.rules, old(board.history)), board.history[|old(board.history)|])
  {
    ghost var p := board.history;
    var move: Move;
    if agent.book.entries(board.history) != [] {
      move := WeightedChoice(agent.book, board.history);
    } else {
      var count := MaterialCount(board);
      var result: Option<Move>, score: Ext;
      if count < EndgameMaterial {
        result, score := Scout(board, agent.tables, agent.color, agent.depth + EndgameExtension, NegInf, PosInf);
      } else {
        result, score := Scout(board, agent.tables, agent.color, agent.depth, NegInf, PosInf);
      }
      move := result.value;
      ghost var d := SearchDepth(agent.depth, board.rules, p);
      FullWindowIsExact(score, ChildValue(board.rules, agent.tables, p, agent.color, d, move));
      FullWindowIsExact(score, Value(board.rules, agent.tables, p, agent.color, d));
    }
    board.Push(move);
    assert board.history[..|p|] == p;
  }
}
