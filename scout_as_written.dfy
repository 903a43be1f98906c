/** The scout search exactly as the agent's code has it, as a function of
    the position, and a position where it misses the minimax value.

    The difference from `ScoutAgent.ScoutChild` is one window: after a
    probe in the unit window below a finite beta (alpha being minus
    infinity) lands inside the window, the code searches again between the
    probe's score and beta.  Such a probe score is an upper bound on the
    value, so the value lies below it and the second search, starting above
    it, can only confirm the bound; its score is then taken as exact. */
module ScoutAsWritten {
  import opened Chess
  import opened Score
  import opened Evaluator
  import opened GameTree
  import opened ScoutAgent

  /** The search from `p` with `player` to choose: the move found and its score. */
  function Search(r: Rules, t: Tables, p: Position, player: Color, depth: nat, alpha: Ext, beta: Ext)
    : (Option<Move>, Ext)
    decreases depth, 1
  {
    if depth == 0 || r.isGameOver(p) then (None, Fin(Heuristic(r, t, p, player)))
    else
      var initial := if player == White then NegInf else PosInf;
      Loop(r, t, p, player, depth, alpha, beta, Firsts(Ordered(r, p, player)), initial, None, initial)
  }

  /** The loop over the ordered moves.  `last` is the score the previous
      move left in the loop variable, which a move after the first would
      keep if neither edge of the window were finite. */
  function Loop(r: Rules, t: Tables, p: Position, player: Color, depth: nat, alpha: Ext, beta: Ext,
                moves: seq<Move>, best: Ext, bestMove: Option<Move>, last: Ext): (Option<Move>, Ext)
    requires depth >= 1
    decreases depth, 0, |moves|
  {
    if moves == [] then (bestMove, best)
    else
      var m := moves[0];
      var s := Child(r, t, p + [m], Other(player), depth, alpha, beta, bestMove == None, last);
      var improves := if player == White then Less(best, s) else Less(s, best);
      var best', bestMove' := if improves then s else best, if improves then Some(m) else bestMove;
      var alpha' := if player == White && improves then Max(alpha, s) else alpha;
      var beta' := if player == Black && improves then Min(beta, s) else beta;
      if AtMost(beta', alpha') then (bestMove', best')
      else Loop(r, t, p, player, depth, alpha', beta', moves[1..], best', bestMove', s)
  }

  /** The score of one move, searched from `q`, the position after it:
      the first move in the full window, later ones by a probe and, when the
      probe lands strictly inside the window, a second search from the
      probe's score up to beta. */
  function Child(r: Rules, t: Tables, q: Position, next: Color, depth: nat, alpha: Ext, beta: Ext,
                 first: bool, last: Ext): Ext
    requires depth >= 1
    decreases depth, 0, 0
  {
    if first then Search(r, t, q, next, depth - 1, alpha, beta).1
    else
      var probe :=
        if alpha != NegInf then Search(r, t, q, next, depth - 1, alpha, Shift(alpha, 1.0)).1
        else if beta != PosInf then Search(r, t, q, next, depth - 1, Shift(beta, -1.0), beta).1
        else last;
      if Less(alpha, probe) && Less(probe, beta) then Search(r, t, q, next, depth - 1, probe, beta).1
      else probe
  }

  // ---------------------------------------------------------------------
  // A game tree on which the search as written goes wrong

  const MoveA := Move(0, 1, None)
  const MoveB := Move(0, 2, None)
  const Move1 := Move(1, 2, None)
  const Move2 := Move(1, 3, None)

  /** Black to move first chooses between A and B.  After A White and Black
      each have one reply and the game ends level.  After B White has one
      reply, and Black then chooses between a line ending at -3 and one
      ending at -6.  Every game ends after three plies; the only piece on
      the board is the white king, whose square at the end tells the
      leaves apart. */
  function Tree(): Rules {
    Rules(
      p => if p == [] then [MoveA, MoveB] else if p == [MoveB, Move1] then [Move1, Move2] else [Move1],
      p => |p| >= 3,
      p => false,
      p => false,
      p => false,
      p => false,
      (p, k, c) => if k == King && c == White then [KingSquare(p)] else [],
      (p, m) => false,
      (p, m) => false,
      (p, s) => None,
      p => None,
      p => if |p| < 3 then 3 - |p| else 0)
  }

  function KingSquare(p: Position): Square {
    if p == [MoveB, Move1, Move1] then 1 else if p == [MoveB, Move1, Move2] then 2 else 0
  }

  /** The white king's table: -500 thousandths on square 1, -1000 on
      square 2, nothing elsewhere, so that the leaves score -3, -6 and 0. */
  function KingTable(): Tables {
    Tables((c, k, s) => if s == 1 then -500.0 else if s == 2 then -1000.0 else 0.0)
  }

  lemma {:induction false} NoMaterial(r: Rules, p: Position, c: Color, ws: seq<(real, PieceType)>)
    requires forall i :: 0 <= i < |ws| ==> r.pieces(p, ws[i].1, c) == []
    ensures Material(r, p, c, ws) == 0.0
  {
    if ws != [] {
      NoMaterial(r, p, c, ws[..|ws| - 1]);
    }
  }

  lemma {:induction false} NoTableScore(p: Position, kinds: seq<PieceType>)
    requires King !in kinds
    ensures TableSum(Tree(), KingTable(), p, White, kinds) == 0.0
  {
    if kinds != [] {
      assert kinds[|kinds| - 1] in kinds;
      NoTableScore(p, kinds[..|kinds| - 1]);
    }
  }

  /** Every position of the tree leaves the balance level and scores its
      white king's table entry. */
  lemma LeafScore(p: Position)
    ensures BalanceOf(Tree(), p) == 0.0
    ensures Heuristic(Tree(), KingTable(), p, White) == 6.0 * KingTable().value(White, King, KingSquare(p)) / 1000.0
  {
    var r := Tree();
    NoMaterial(r, p, White, Weights);
    NoMaterial(r, p, Black, Weights);
    var ks := TablePieces;
    assert ks[..|ks| - 1] == [Pawn, Knight, Bishop, Queen];
    NoTableScore(p, ks[..|ks| - 1]);
    var sq := [KingSquare(p)];
    assert sq[..|sq| - 1] == [];
    assert SquareSum(KingTable(), White, King, sq) == KingTable().value(White, King, KingSquare(p));
  }

  lemma {:induction false} SortKeepsLevelOrder(xs: seq<Scored>, descending: bool)
    requires forall i :: 0 <= i < |xs| ==> xs[i].1 == 0.0
    ensures SortByScore(xs, descending) == xs
  {
    if xs != [] {
      SortKeepsLevelOrder(xs[1..], descending);
    }
  }

  /** Every move of the tree leaves the balance level, so the ordering
      keeps the generator's order. */
  lemma LevelOrder(p: Position, player: Color)
    ensures Firsts(Ordered(Tree(), p, player)) == Tree().legalMoves(p)
  {
    var xs := ScoreMoves(Tree(), p, Tree().legalMoves(p));
    ScoreMovesSpec(Tree(), p, Tree().legalMoves(p));
    forall i | 0 <= i < |xs|
      ensures xs[i].1 == 0.0
    {
      LeafScore(p + [Tree().legalMoves(p)[i]]);
    }
    SortKeepsLevelOrder(xs, player == White);
    assert Ordered(Tree(), p, player) == xs;
  }

  lemma LeafValues()
    ensures Heuristic(Tree(), KingTable(), [MoveA, Move1, Move1], White) == 0.0
    ensures Heuristic(Tree(), KingTable(), [MoveB, Move1, Move1], White) == -3.0
    ensures Heuristic(Tree(), KingTable(), [MoveB, Move1, Move2], White) == -6.0
  {
    LeafScore([MoveA, Move1, Move1]);
    LeafScore([MoveB, Move1, Move1]);
    LeafScore([MoveB, Move1, Move2]);
  }

  lemma ValueAfterB1()
    ensures Valid(Tree())
    ensures Value(Tree(), KingTable(), [MoveB, Move1], Black, 1) == -6.0
  {
    var r, t := Tree(), KingTable();
    LeafValues();
    assert [MoveB, Move1] + [Move1] == [MoveB, Move1, Move1];
    assert [MoveB, Move1] + [Move2] == [MoveB, Move1, Move2];
    assert ChildValue(r, t, [MoveB, Move1], Black, 1, Move1) == -3.0;
    assert ChildValue(r, t, [MoveB, Move1], Black, 1, Move2) == -6.0;
    assert r.legalMoves([MoveB, Move1]) == [Move1, Move2];
    assert [Move1, Move2][1..] == [Move2];
    assert BestOf(r, t, [MoveB, Move1], Black, 1, [Move2]) == -6.0;
  }

  lemma ValueAfterB()
    ensures Valid(Tree())
    ensures Value(Tree(), KingTable(), [MoveB], White, 2) == -6.0
  {
    var r, t := Tree(), KingTable();
    ValueAfterB1();
    assert [MoveB] + [Move1] == [MoveB, Move1];
    assert r.legalMoves([MoveB]) == [Move1];
    assert ChildValue(r, t, [MoveB], White, 2, Move1) == -6.0;
  }

  lemma ValueAfterA()
    ensures Valid(Tree())
    ensures Value(Tree(), KingTable(), [MoveA], White, 2) == 0.0
  {
    var r, t := Tree(), KingTable();
    LeafValues();
    assert [MoveA, Move1] + [Move1] == [MoveA, Move1, Move1];
    assert r.legalMoves([MoveA, Move1]) == [Move1];
    assert ChildValue(r, t, [MoveA, Move1], Black, 1, Move1) == 0.0;
    assert Value(r, t, [MoveA, Move1], Black, 1) == 0.0;
    assert [MoveA] + [Move1] == [MoveA, Move1];
    assert r.legalMoves([MoveA]) == [Move1];
    assert ChildValue(r, t, [MoveA], White, 2, Move1) == 0.0;
  }

  /** The minimax value of the tree, Black to move and three plies deep, is
      -6: Black goes into B and then into the line ending at -6. */
  lemma TreeValue()
    ensures Valid(Tree())
    ensures Value(Tree(), KingTable(), [], Black, 3) == -6.0
  {
    var r, t := Tree(), KingTable();
    ValueAfterA();
    ValueAfterB();
    assert [] + [MoveA] == [MoveA] && [] + [MoveB] == [MoveB];
    assert ChildValue(r, t, [], Black, 3, MoveA) == 0.0;
    assert ChildValue(r, t, [], Black, 3, MoveB) == -6.0;
    assert r.legalMoves([]) == [MoveA, MoveB];
    assert [MoveA, MoveB][1..] == [MoveB];
    assert BestOf(r, t, [], Black, 3, [MoveB]) == -6.0;
  }

  /** The search as written, over the full window, after A. */
  lemma SearchAfterA()
    ensures Search(Tree(), KingTable(), [MoveA], White, 2, NegInf, PosInf) == (Some(Move1), Fin(0.0))
  {
    var r, t := Tree(), KingTable();
    LeafValues();
    LevelOrder([MoveA], White);
    LevelOrder([MoveA, Move1], Black);
    assert [MoveA, Move1] + [Move1] == [MoveA, Move1, Move1];
    assert [MoveA] + [Move1] == [MoveA, Move1];
    assert [Move1][1..] == [];
    assert Child(r, t, [MoveA, Move1, Move1], White, 1, NegInf, PosInf, true, PosInf) == Fin(0.0);
    assert Loop(r, t, [MoveA, Move1], Black, 1, NegInf, PosInf, [Move1], PosInf, None, PosInf) == (Some(Move1), Fin(0.0));
    assert Search(r, t, [MoveA, Move1], Black, 1, NegInf, PosInf) == (Some(Move1), Fin(0.0));
    assert Child(r, t, [MoveA, Move1], Black, 2, NegInf, PosInf, true, NegInf) == Fin(0.0);
    assert Loop(r, t, [MoveA], White, 2, NegInf, PosInf, [Move1], NegInf, None, NegInf) == (Some(Move1), Fin(0.0));
  }

  /** After B and White's reply, Black's first reply scores -3 and closes
      any window (lo, 0) with lo at least -3. */
  lemma SearchAfterB1(lo: real)
    requires -3.0 <= lo < 0.0
    ensures Search(Tree(), KingTable(), [MoveB, Move1], Black, 1, Fin(lo), Fin(0.0)) == (Some(Move1), Fin(-3.0))
  {
    var r, t := Tree(), KingTable();
    LeafValues();
    LevelOrder([MoveB, Move1], Black);
    assert [MoveB, Move1] + [Move1] == [MoveB, Move1, Move1];
    assert Child(r, t, [MoveB, Move1, Move1], White, 1, Fin(lo), Fin(0.0), true, PosInf) == Fin(-3.0);
    assert Loop(r, t, [MoveB, Move1], Black, 1, Fin(lo), Fin(0.0), [Move1, Move2], PosInf, None, PosInf)
           == (Some(Move1), Fin(-3.0));
  }

  /** After B, any window (lo, 0) with lo at least -3 gets -3. */
  lemma SearchAfterB(lo: real)
    requires -3.0 <= lo < 0.0
    ensures Search(Tree(), KingTable(), [MoveB], White, 2, Fin(lo), Fin(0.0)) == (Some(Move1), Fin(-3.0))
  {
    var r, t := Tree(), KingTable();
    SearchAfterB1(lo);
    LevelOrder([MoveB], White);
    assert [MoveB] + [Move1] == [MoveB, Move1];
    assert [Move1][1..] == [];
    assert Child(r, t, [MoveB, Move1], Black, 2, Fin(lo), Fin(0.0), true, NegInf) == Fin(-3.0);
    assert Loop(r, t, [MoveB], White, 2, Fin(lo), Fin(0.0), [Move1], NegInf, None, NegInf) == (Some(Move1), Fin(-3.0));
  }

  /** B, searched after A's score of 0 has lowered beta to 0: the probe in
      (-1, 0) fails low at -3, which is only an upper bound, and the second
      search, in (-3, 0), can only fail low at -3 again. */
  lemma SearchB()
    ensures Child(Tree(), KingTable(), [MoveB], White, 3, NegInf, Fin(0.0), false, Fin(0.0)) == Fin(-3.0)
  {
    SearchAfterB(-1.0);
    SearchAfterB(-3.0);
  }

  /** On that tree the search as written, called over the full window,
      answers B with a score of -3, although the value is -6. */
  lemma MissesMinimaxValue()
    ensures Valid(Tree())
    ensures Search(Tree(), KingTable(), [], Black, 3, NegInf, PosInf) == (Some(MoveB), Fin(-3.0))
    ensures Value(Tree(), KingTable(), [], Black, 3) == -6.0
  {
    TreeValue();
    var r, t := Tree(), KingTable();
    SearchAfterA();
    SearchB();
    LevelOrder([], Black);
    assert [] + [MoveA] == [MoveA] && [] + [MoveB] == [MoveB];
    assert Child(r, t, [MoveA], White, 3, NegInf, PosInf, true, PosInf) == Fin(0.0);
    assert [MoveA, MoveB][1..] == [MoveB];
    assert [MoveB][1..] == [];
    assert Loop(r, t, [], Black, 3, NegInf, Fin(0.0), [MoveB], Fin(0.0), Some(MoveA), Fin(0.0)) == (Some(MoveB), Fin(-3.0));
    assert Loop(r, t, [], Black, 3, NegInf, PosInf, [MoveA, MoveB], PosInf, None, PosInf) == (Some(MoveB), Fin(-3.0));
  }
}
