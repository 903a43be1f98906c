/** The plain depth-limited minimax value both search agents are measured
    against: White maximises, Black minimises, and a position at depth 0
    or at the end of the game scores its heuristic value for the player
    evaluated there. */
module GameTree {
  import opened Chess
  import opened Evaluator

  function RealMax(x: real, y: real): real { if x < y then y else x }
  function RealMin(x: real, y: real): real { if y < x then y else x }

  /** The minimax value of `p` searched `depth` plies deep with `player` to choose. */
  ghost function Value(r: Rules, t: Tables, p: Position, player: Color, depth: nat): real
    requires Valid(r)
    decreases depth, 1
  {
    if depth == 0 || r.isGameOver(p) then Heuristic(r, t, p, player)
    else BestOf(r, t, p, player, depth, r.legalMoves(p))
  }

  /** The value of playing `m` from `p`: the opponent chooses next, one ply shallower. */
  ghost function ChildValue(r: Rules, t: Tables, p: Position, player: Color, depth: nat, m: Move): real
    requires Valid(r) && depth >= 1
    decreases depth, 0, 0
  {
    Value(r, t, p + [m], Other(player), depth - 1)
  }

  /** The best child value over a non-empty list of moves: the largest for
      White, the smallest for Black. */
  ghost function BestOf(r: Rules, t: Tables, p: Position, player: Color, depth: nat, ms: seq<Move>): real
    requires Valid(r) && depth >= 1 && ms != []
    decreases depth, 0, |ms|
  {
    var v := ChildValue(r, t, p, player, depth, ms[0]);
    if |ms| == 1 then v
    else if player == White then RealMax(v, BestOf(r, t, p, player, depth, ms[1..]))
    else RealMin(v, BestOf(r, t, p, player, depth, ms[1..]))
  }

  /** A move is optimal when it is legal and its child value is the value of the position. */
  ghost predicate OptimalMove(r: Rules, t: Tables, p: Position, player: Color, depth: nat, m: Move)
    requires Valid(r) && depth >= 1
  {
    m in r.legalMoves(p) && ChildValue(r, t, p, player, depth, m) == Value(r, t, p, player, depth)
  }

  /** BestOf is the extreme child value and is attained by one of the moves. */
  lemma {:induction false} BestOfIsExtreme(r: Rules, t: Tables, p: Position, player: Color, depth: nat, ms: seq<Move>)
    requires Valid(r) && depth >= 1 && ms != []
    ensures player == White ==> forall m :: m in ms ==> ChildValue(r, t, p, player, depth, m) <= BestOf(r, t, p, player, depth, ms)
    ensures player == Black ==> forall m :: m in ms ==> ChildValue(r, t, p, player, depth, m) >= BestOf(r, t, p, player, depth, ms)
    ensures exists m :: m in ms && ChildValue(r, t, p, player, depth, m) == BestOf(r, t, p, player, depth, ms)
  {
    if |ms| > 1 {
      BestOfIsExtreme(r, t, p, player, depth, ms[1..]);
      var w :| w in ms[1..] && ChildValue(r, t, p, player, depth, w) == BestOf(r, t, p, player, depth, ms[1..]);
      assert w in ms;
      forall m | m in ms
        ensures player == White ==> ChildValue(r, t, p, player, depth, m) <= BestOf(r, t, p, player, depth, ms)
        ensures player == Black ==> ChildValue(r, t, p, player, depth, m) >= BestOf(r, t, p, player, depth, ms)
      {
        if m != ms[0] {
          assert m in ms[1..];
        }
      }
    } else {
      assert ms[0] in ms;
    }
  }

  /** At a position that is not over, with plies left, the value is the
      largest (White) or smallest (Black) child value over the legal moves,
      and some legal move attains it. */
  lemma ValueIsExtreme(r: Rules, t: Tables, p: Position, player: Color, depth: nat)
    requires Valid(r) && depth >= 1 && !r.isGameOver(p)
    ensures player == White ==> forall m :: m in r.legalMoves(p) ==> ChildValue(r, t, p, player, depth, m) <= Value(r, t, p, player, depth)
    ensures player == Black ==> forall m :: m in r.legalMoves(p) ==> ChildValue(r, t, p, player, depth, m) >= Value(r, t, p, player, depth)
    ensures exists m :: OptimalMove(r, t, p, player, depth, m)
  {
    BestOfIsExtreme(r, t, p, player, depth, r.legalMoves(p));
    var m :| m in r.legalMoves(p) && ChildValue(r, t, p, player, depth, m) == BestOf(r, t, p, player, depth, r.legalMoves(p));
    assert OptimalMove(r, t, p, player, depth, m);
  }

  /** The best child value depends only on which moves are offered, not on
      their order: a shuffled or re-ordered move list has the same value. */
  lemma BestOfIgnoresOrder(r: Rules, t: Tables, p: Position, player: Color, depth: nat, ms: seq<Move>, ns: seq<Move>)
    requires Valid(r) && depth >= 1 && ms != []
    requires forall m :: m in ms <==> m in ns
    ensures ns != [] && BestOf(r, t, p, player, depth, ms) == BestOf(r, t, p, player, depth, ns)
  {
    assert ms[0] in ns;
    BestOfIsExtreme(r, t, p, player, depth, ms);
    BestOfIsExtreme(r, t, p, player, depth, ns);
    var a :| a in ms && ChildValue(r, t, p, player, depth, a) == BestOf(r, t, p, player, depth, ms);
    var b :| b in ns && ChildValue(r, t, p, player, depth, b) == BestOf(r, t, p, player, depth, ns);
    assert a in ns && b in ms;
  }

  /** Two lists with the same multiset of moves offer the same moves. */
  lemma SameElements(ms: seq<Move>, ns: seq<Move>)
    requires multiset(ms) == multiset(ns)
    ensures forall m :: m in ms <==> m in ns
  {
    forall m
      ensures m in ms <==> m in ns
    {
      assert m in ms <==> m in multiset(ms);
      assert m in ns <==> m in multiset(ns);
    }
  }
}
