# Chess agents: evaluator, alpha-beta, scout, greedy and the driver

This project models the decision-making core of a small chess program in
which four agents play against one another on a python-chess board:

- the **evaluator** shared by the search agents: material count, material
  balance (White minus Black, pawn 1, knight 3.1, bishop 3.2, rook 4.5,
  queen 9), the piece-square score read from per-square tables and scaled
  by 1/1000, and the heuristic that combines them (1 × balance + 6 ×
  piece-square score, ±500 on checkmate, 0 on the draw rules);
- the **minimax agent**: depth-limited fail-soft alpha-beta search over a
  shuffled move list, pushing and popping moves on one shared board, two
  plies deeper once the material count falls below 15, and an opening book
  consulted first;
- the **scout agent**: the same evaluator, moves ordered by the material
  balance after each move (best first for the side to move, stable for
  ties), and a principal variation search that searches the first move in
  the full window and later ones with a unit-width probe and a re-search;
- the **greedy agent**: the book move, otherwise the first move capturing
  the piece with the highest type code, otherwise a random legal move;
- the **random agent** and the **driver**: one game from the starting
  position until the rules end it (optionally on a display the user can
  quit), and a series of games tallied as White wins, draws and Black wins.

The chess rules themselves are not modelled: `Chess.Rules` is a record of
functions (legal moves, game over, checkmate, the draw rules, captures,
the pieces on the board, the winner, and a `horizon` that falls with every
legal move), and `Chess.Valid` lists what the agents rely on of it.  A
position is the list of moves played from the start, the side to move is
its parity, and `Chess.Board` is the mutable board the agents push moves on.

Scores are exact reals extended with ±infinity (`Score.Ext`).  The search
methods are proved against `GameTree.Value`, the plain minimax value of a
position at a depth, through the fail-soft bound `Score.FailSoft`: a score
at or below alpha bounds the value from above, a score at or above beta
bounds it from below, and a score strictly inside the window is the value.
In the full window this makes the score exact, so both search agents play
a move whose value is the position's minimax value (`GameTree.OptimalMove`).

Both search agents carry their own copy of the evaluator and of the
endgame depth rule (scout_agent.py:12-75 repeats minimax_agent.py:14-74);
module `Evaluator` defines them once for both.

With the weights above the standard starting set counts 38.6 per side, so
the starting material count is 77.2 (`Evaluator.StartingPosition`), not
78.4.

The scout agent's re-search after a probe below beta is wrong as written
(see "## Findings"); `ScoutAgent` models the corrected search and
`ScoutAsWritten` the code as it stands.

## Model

| member | source | states |
|---|---|---|
| Chess.OutcomeOf | driver.py:37 | the board's outcome exists exactly when the game is over |
| Chess.WeightedChoice | minimax_agent.py:124-125 | a book choice is one of the book's entries for the position |
| Chess.RandomChoice | greedy_agent.py:40-41 | a random choice is an element of the list it is drawn from |
| Chess.Board.constructor | driver.py:32 | a new board holds the starting position (no moves) |
| Chess.Board.Push | minimax_agent.py:89 | pushing appends the move to the board's history |
| Chess.Board.Pop | minimax_agent.py:97 | popping removes and returns the last move |
| Score.FullWindowIsExact | minimax_agent.py:127 | a fail-soft score for the full window equals the value |
| Score.MaxChildStep | minimax_agent.py:92-98 | after a child score, White's best score and raised alpha keep the fail-soft bounds, and a cutoff score bounds the value from below |
| Score.MinChildStep | minimax_agent.py:109-115 | the mirror image for Black's best score and lowered beta |
| Score.MaxResult | minimax_agent.py:86-101 | White's best score is fail-soft against the best value over all moves |
| Score.MinResult | minimax_agent.py:103-118 | Black's best score is fail-soft against the lowest value over all moves |
| Evaluator.MaterialCount | minimax_agent.py:14-26 | the count is the weighted number of pieces of both colours |
| Evaluator.MaterialBalance | minimax_agent.py:28-41 | the balance is White's weighted material minus Black's |
| Evaluator.PieceSquareEvaluation | minimax_agent.py:43-58 | the sum of the player's table values over pawns, knights, bishops, queens and king, added for White and subtracted for Black, divided by 1000 |
| Evaluator.MaterialNonNegative | minimax_agent.py:19-24 | a weighted count with non-negative weights is non-negative |
| Evaluator.CountBoundsBalance | minimax_agent.py:14-41 | the count is non-negative and bounds the balance on both sides |
| Evaluator.StartingMaterial | minimax_agent.py:19-24 | a full starting set of one colour weighs 38.6 |
| Evaluator.StartingPosition | minimax_agent.py:14-41 | the starting position counts 77.2 with a balance of 0 |
| Evaluator.TableSumIgnoresRooks | minimax_agent.py:48-57 | the table sum does not depend on where the rooks stand |
| Evaluator.PieceSquareIgnoresRooks | minimax_agent.py:43-58 | the piece-square score does not depend on where the rooks stand |
| Evaluator.MateScoreMatchesWinner | minimax_agent.py:68-69 | on checkmate the ±500 score has the sign of the actual winner exactly when the evaluated player is the side to move |
| Evaluator.SearchDepth | minimax_agent.py:126-129 | the search depth is never below the set depth, and is two plies deeper exactly when material is below 15 |
| Evaluator.DrawScoresZero | minimax_agent.py:70-71 | stalemate, insufficient material or fivefold repetition score 0 for either player |
| GameTree.BestOfIsExtreme | minimax_agent.py:86-118 | the best value over a list of moves is one of the moves' values and bounds all of them |
| GameTree.ValueIsExtreme | minimax_agent.py:76-118 | a position's minimax value is the best child value for the side to move |
| GameTree.BestOfIgnoresOrder | minimax_agent.py:83-84 | the best value over the moves does not depend on their order |
| GameTree.SameElements | minimax_agent.py:83-84 | a permutation of the moves has the same members |
| MinimaxAgent.Shuffle | minimax_agent.py:84 | the shuffled list is a permutation of the legal moves |
| MinimaxAgent.Minimax | minimax_agent.py:76-118 | the board is restored; at depth 0 or game over the heuristic with no move; otherwise a legal move, and the score is fail-soft against that move's value and against the position's minimax value |
| MinimaxAgent.SearchMax | minimax_agent.py:86-101 | White's loop with cutoff returns one of the moves, fail-soft against its value and against the best value over all moves |
| MinimaxAgent.SearchMin | minimax_agent.py:103-118 | Black's loop with cutoff, the mirror image |
| MinimaxAgent.SearchChild | minimax_agent.py:89-97 | push, search the other side one ply shallower, pop: the board is restored and the score is fail-soft against the move's value |
| MinimaxAgent.Play | minimax_agent.py:120-131 | one legal move is pushed: a book move when the book has one, otherwise a move optimal at the search depth |
| ScoutAgent.ScoreMovesSpec | scout_agent.py:81-87 | each move is paired with the balance after it, in the order of the legal moves |
| ScoutAgent.InsertPermutes | scout_agent.py:89-92 | inserting into the sorted list adds exactly that element |
| ScoutAgent.SortPermutes | scout_agent.py:89-92 | sorting is a permutation |
| ScoutAgent.InsertSorted | scout_agent.py:89-92 | inserting keeps the list sorted |
| ScoutAgent.SortSorted | scout_agent.py:89-92 | the sorted list is in descending score order for White and ascending for Black |
| ScoutAgent.WithScoreAppend | scout_agent.py:89-92 | the moves with a given score split over a concatenation |
| ScoutAgent.InsertStable | scout_agent.py:89-92 | inserting keeps the relative order of equal scores |
| ScoutAgent.SortStable | scout_agent.py:89-92 | the sort is stable: moves with equal scores keep their order |
| ScoutAgent.InsertKeepsMoves | scout_agent.py:89-92 | inserting keeps the multiset of moves |
| ScoutAgent.SortKeepsMoves | scout_agent.py:89-92 | sorting keeps the multiset of moves |
| ScoutAgent.SameFirsts | scout_agent.py:89-92 | permuted pairs have permuted moves |
| ScoutAgent.PermutationMembers | scout_agent.py:89-92 | permuted lists have the same members |
| ScoutAgent.OrderedSpec | scout_agent.py:77-93 | the ordered list holds every legal move once with the balance after it, sorted best first for the side to move |
| ScoutAgent.OrderMoves | scout_agent.py:77-93 | the board is restored and the result is the ordered list of the position |
| ScoutAgent.BalanceAfter | scout_agent.py:84-87 | push, balance, pop: the board is restored and the score is the balance after the move |
| ScoutAgent.ScoreMovesSnoc | scout_agent.py:83-86 | scoring one more move appends one pair |
| ScoutAgent.AlphaProbe | scout_agent.py:113-114 | a probe in (alpha, alpha+1) is fail-soft for the window unless it lands inside, where it bounds the value from below |
| ScoutAgent.AlphaResearch | scout_agent.py:117-118 | re-searching from such a lower bound up to beta is fail-soft for the window |
| ScoutAgent.BetaProbe | scout_agent.py:115-116 | a probe in (beta-1, beta) at or above beta is fail-soft; below beta it bounds the value from above |
| ScoutAgent.BetaResearch | scout_agent.py:115-118 | re-searching from alpha up to such an upper bound is fail-soft for the window |
| ScoutAgent.BetaResearchAsWrittenNotExact | scout_agent.py:115-118 | re-searching from the upper bound up to beta can return a score inside the window that is not the value |
| ScoutAgent.Scout | scout_agent.py:95-136 | the board is restored; at depth 0 or game over the heuristic with no move; otherwise a legal move, and the score is fail-soft against the move's value and the position's minimax value |
| ScoutAgent.ScoutMax | scout_agent.py:105-136 | White's loop returns one of the moves, fail-soft against its value and against the best value over all moves |
| ScoutAgent.ScoutMin | scout_agent.py:105-136 | Black's loop, the mirror image |
| ScoutAgent.ScoutChild | scout_agent.py:108-119 | first move in the full window, later ones by probe and re-search: the board is restored and the score is fail-soft against the move's value |
| ScoutAgent.Play | scout_agent.py:138-149 | one legal move is pushed: a book move when the book has one, otherwise a move optimal at the search depth |
| ScoutAsWritten.MissesMinimaxValue | scout_agent.py:95-136 | on a three-ply tree with Black to move the search as written returns a score of -3 while the minimax value is -6 |
| GreedyAgent.MaterialGained | greedy_agent.py:9-19 | the gain is 0 exactly for non-captures, the pawn's code for en passant, otherwise the code of the captured piece |
| GreedyAgent.Play | greedy_agent.py:21-43 | one legal move is pushed: the book move when there is one, otherwise a move of largest gain, the first such when it gains anything |
| GreedyAgent.PrefersQueenCapture | greedy_agent.py:34-37 | a queen capture beats a pawn capture |
| Driver.LegalGameExtend | driver.py:34-35 | a legal game followed by a legal move is a legal game |
| Driver.PlayRandom | random_agent.py:8-14 | one legal move is pushed |
| Driver.PlayTurn | driver.py:35 | whichever agent moves, one legal move is pushed |
| Driver.Step | driver.py:34-35 | the game stays legal and comes one ply closer to its end |
| Driver.PlayGame | driver.py:28-38 | the game is legal and finished, and the result is its outcome |
| Driver.PlayGameWithViz | driver.py:40-53 | the game is legal; there is a result exactly when it was played to its end, and then it is its outcome |
| Driver.Count | driver.py:22-24 | the three tallies add up to the number of games |
| Driver.ComparePolicies | driver.py:14-26 | without the display a tally is returned, over as many games as requested (none for a negative count), equal to the count of the outcomes, each an outcome of a legal finished game |

## Left out

- The chess rules (move generation, check, draws, outcome) belong to the
  python-chess library and are parameters (`Chess.Rules`); only the facts
  in `Chess.Valid` are assumed of them.
- The polyglot opening book file is not read: a book is the list of
  entries it holds for each position, and its weighted choice is any entry.
- The contents of the piece-square tables (module PSE) are not part of
  this model: the tables are a parameter (`Evaluator.Tables`).
- Floating point: weights and scores are exact reals, so rounding of sums
  such as 3.1 + 3.2 is not modelled.
- Randomness: `random.shuffle`, `random.choice` and the book's weighted
  choice are nondeterministic choices; only membership or permutation is
  stated.
- The user interface and the entry points (app.py, main.py), the display
  calls, the progress print in `compare_policies` and timing are not
  modelled; quitting the display is a nondeterministic choice between moves.
- The minimax agent's unused `tt` field is not modelled.
- The scout loop's case where neither edge of the window is finite after
  the first move cannot arise (the first move makes one edge finite);
  `ScoutAgent.ScoutChild` requires that one edge is finite or the move is
  the first, and `ScoutAsWritten.Child` keeps the stale score for it.
- MinimaxAgent.SearchMax and MinimaxAgent.SearchMin split the one loop of
  `minimax` by colour; ScoutAgent.ScoutMax and ScoutAgent.ScoutMin do the
  same for `scout`.
- MinimaxAgent.Play and ScoutAgent.Play require a search depth of at least
  one; at depth 0 with material of 15 or more the search returns no move
  and the source's push fails.
- MinimaxAgent.Minimax and ScoutAgent.Scout require alpha below beta, which
  every call in the source guarantees.
- Driver.Step states that the game stays legal, not which agent moved; the
  choice by colour is in its body.
- Driver.ComparePolicies returns no tally when a displayed game is quit:
  the source then reads the winner of a missing outcome and fails.

## Findings

| source | as written | input that shows it | evidently intended | confidence | as-written member | corrected member |
|---|---|---|---|---|---|---|
| scout_agent.py:115-118 | with alpha at minus infinity, a later move is probed in (beta-1, beta) and, when the probe lands inside the window, searched again in (probe, beta) | the three-ply tree `ScoutAsWritten.Tree()` with the table `ScoutAsWritten.KingTable()`, Black to move at depth 3 in the full window: the probe of move B fails low at -3, an upper bound, and the re-search from -3 fails low again, so the search answers B with -3 while the minimax value is -6 | a probe below beta bounds the value from above, so the re-search belongs in (alpha, probe) and then returns the minimax value | not executed | ScoutAsWritten.MissesMinimaxValue | ScoutAgent.ScoutChild |
