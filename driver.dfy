/** The driver: games between two agents on a fresh board, and the tally
    of a series of games. */
module Driver {
  import opened Chess
  import MinimaxAgent
  import ScoutAgent
  import GreedyAgent

  /** The agents a game can be played between. */
  datatype Policy =
    | RandomPolicy(color: Color)
    | GreedyPolicy(greedy: GreedyAgent.Agent)
    | MinimaxPolicy(minimax: MinimaxAgent.Agent)
    | ScoutPolicy(scout: ScoutAgent.Agent)

  function ColorOf(policy: Policy): Color {
    match policy
    case RandomPolicy(c) => c
    case GreedyPolicy(a) => a.color
    case MinimaxPolicy(a) => a.color
    case ScoutPolicy(a) => a.color
  }

  /** What an agent needs of the rules to play: its book offers only legal
      moves, and a search agent searches at least one ply. */
  ghost predicate Ready(r: Rules, policy: Policy) {
    match policy
    case RandomPolicy(_) => true
    case GreedyPolicy(a) => BookLegal(r, a.book)
    case MinimaxPolicy(a) => BookLegal(r, a.book) && a.depth >= 1
    case ScoutPolicy(a) => BookLegal(r, a.book) && a.depth >= 1
  }

  /** Every move of `game` was legal where it was played, in a position
      where the game was still on. */
  ghost predicate LegalGame(r: Rules, game: Position) {
    forall k :: 0 <= k < |game| ==> !r.isGameOver(game[..k]) && game[k] in r.legalMoves(game[..k])
  }

  /** A legal game that is not over stays legal with one more legal move. */
  lemma LegalGameExtend(r: Rules, game: Position, m: Move)
    requires LegalGame(r, game) && !r.isGameOver(game) && m in r.legalMoves(game)
    ensures LegalGame(r, game + [m])
  {
    var h := game + [m];
    forall k | 0 <= k < |h|
      ensures !r.isGameOver(h[..k]) && h[k] in r.legalMoves(h[..k])
    {
      if k < |game| {
        assert h[..k] == game[..k] && h[k] == game[k];
      } else {
        assert h[..k] == game;
      }
    }
  }

  /** An outcome some legal game played to its end can have. */
  ghost predicate Reachable(r: Rules, o: Outcome) {
    exists game :: LegalGame(r, game) && r.isGameOver(game) && o == Outcome(r.winner(game))
  }

  /** The random agent: any legal move. */
  method PlayRandom(board: Board)
    requires Valid(board.rules) && !board.rules.isGameOver(board.history)
    modifies board
    ensures |board.history| == |old(board.history)| + 1
    ensures board.history[..|old(board.history)|] == old(board.history)
    ensures board.history[|old(board.history)|] in board.rules.legalMoves(old(board.history))
  {
    ghost var p := board.history;
    var legalMoves := board.LegalMoves();
    var move := RandomChoice(legalMoves);
    board.Push(move);
    assert board.history[..|p|] == p;
  }

  /** One turn: the agent moves and the board gains one legal move. */
  method PlayTurn(policy: Policy, board: Board)
    requires Valid(board.rules) && Ready(board.rules, policy)
    requires !board.rules.isGameOver(board.history)
    modifies board
    ensures |board.history| == |old(board.history)| + 1
    ensures board.history[..|old(board.history)|] == old(board.history)
    ensures board.history[|old(board.history)|] in board.rules.legalMoves(old(board.history))
  {
    match policy
    case RandomPolicy(_) => PlayRandom(board);
    case GreedyPolicy(a) => GreedyAgent.Play(a, board);
    case MinimaxPolicy(a) => MinimaxAgent.Play(a, board);
    case ScoutPolicy(a) => ScoutAgent.Play(a, board);
  }

  /** One move of the game on `board`: `p1` moves when it is its colour's
      turn, `p2` otherwise.  The game so far stays legal and the end of the
      game comes one ply closer. */
  method Step(p1: Policy, p2: Policy, board: Board, ghost game: Position)
    requires Valid(board.rules) && Ready(board.rules, p1) && Ready(board.rules, p2)
    requires !board.rules.isGameOver(board.history)
    requires board.history == game && LegalGame(board.rules, game)
    modifies board
    ensures LegalGame(board.rules, board.history)
    ensures board.rules.horizon(board.history) < board.rules.horizon(game)
  {
    if board.Turn() == ColorOf(p1) {
      PlayTurn(p1, board);
    } else {
      PlayTurn(p2, board);
    }
    assert board.history == game + [board.history[|game|]];
    LegalGameExtend(board.rules, game, board.history[|game|]);
  }

  /** A game from the starting position until the rules end it.  The
      result is the outcome of a legal game played to its end. */
  method PlayGame(p1: Policy, p2: Policy, rules: Rules) returns (result: Outcome, ghost game: Position)
    requires Valid(rules) && Ready(rules, p1) && Ready(rules, p2)
    ensures LegalGame(rules, game) && rules.isGameOver(game)
    ensures result == Outcome(rules.winner(game))
  {
    var board := new Board(rules);
    while !board.IsGameOver()
      invariant board.rules == rules && LegalGame(rules, board.history)
      decreases rules.horizon(board.history)
    {
      Step(p1, p2, board, board.history);
    }
    game := board.history;
    result := OutcomeOf(rules, board.history).value;
  }

  /** A game shown on the display, which the user may quit between moves.
      The result is the outcome when the game was played to its end, and
      nothing when it was quit first. */
  method PlayGameWithViz(p1: Policy, p2: Policy, rules: Rules) returns (result: Option<Outcome>, ghost game: Position)
    requires Valid(rules) && Ready(rules, p1) && Ready(rules, p2)
    ensures LegalGame(rules, game)
    ensures result.Some? <==> rules.isGameOver(game)
    ensures result.Some? ==> result.value == Outcome(rules.winner(game))
  {
    var board := new Board(rules);
    while !board.IsGameOver()
      invariant board.rules == rules && LegalGame(rules, board.history)
      decreases rules.horizon(board.history)
    {
      var quit: bool :| true;
      if quit {
        break;
      }
      Step(p1, p2, board, board.history);
    }
    game := board.history;
    result := OutcomeOf(rules, board.history);
  }

  /** White wins, draws and Black wins. */
  datatype Tally = Tally(whiteWins: nat, draws: nat, blackWins: nat)

  /** The tally of a list of outcomes. */
  function Count(outcomes: seq<Outcome>): (tally: Tally)
    ensures tally.whiteWins + tally.draws + tally.blackWins == |outcomes|
  {
    if outcomes == [] then Tally(0, 0, 0)
    else
      var t := Count(outcomes[..|outcomes| - 1]);
      match outcomes[|outcomes| - 1].winner
      case Some(White) => t.(whiteWins := t.whiteWins + 1)
      case Some(Black) => t.(blackWins := t.blackWins + 1)
      case None => t.(draws := t.draws + 1)
  }

  /** A series of `simulations` games between the two agents, tallied by
      winner.  A quit game has no winner to read, which ends the series
      with no tally. */
  method ComparePolicies(p1: Policy, p2: Policy, rules: Rules, simulations: int, visualize: bool)
    returns (tally: Option<Tally>, ghost outcomes: seq<Outcome>)
    requires Valid(rules) && Ready(rules, p1) && Ready(rules, p2)
    ensures !visualize ==> tally.Some?
    ensures tally.Some? ==> |outcomes| == (if simulations > 0 then simulations else 0)
    ensures tally.Some? ==> tally.value == Count(outcomes)
    ensures forall o :: o in outcomes ==> Reachable(rules, o)
  {
    var whiteWins, draws, blackWins := 0, 0, 0;
    outcomes := [];
    var n := if simulations > 0 then simulations else 0;
    for i := 0 to n
      invariant |outcomes| == i
      invariant Count(outcomes) == Tally(whiteWins, draws, blackWins)
      invariant forall o :: o in outcomes ==> Reachable(rules, o)
    {
      var result: Outcome;
      ghost var game: Position;
      if visualize {
        var shown;
        shown, game := PlayGameWithViz(p1, p2, rules);
        if shown.None? {
          return None, outcomes;
        }
        result := shown.value;
      } else {
        result, game := PlayGame(p1, p2, rules);
      }
      assert Reachable(rules, result);
      assert (outcomes + [result])[..|outcomes|] == outcomes;
      outcomes := outcomes + [result];
      match result.winner
      case Some(White) => whiteWins := whiteWins + 1;
      case Some(Black) => blackWins := blackWins + 1;
      case None => draws := draws + 1;
    }
    tally := Some(Tally(whiteWins, draws, blackWins));
  }
}
