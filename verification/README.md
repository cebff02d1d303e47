# chess-ai search core, modelled in Dafny

This project models the move-search engine of the `chessai` package: a static
evaluator and two depth-limited game-tree searches over it.

- **Evaluator** (`evaluation.dfy`). `EvaluateMaterial` returns the checkmate sentinel
  −9999 for the side to move (the mated side) and +9999 for the other side. It returns
  −9999 for every other finished game. Otherwise it returns the signed piece-value sum
  (pawn 1, knight 3, bishop 3, rook 5, queen 9, king 0) divided by 39.
  `EvaluateMobility` is the number of legal moves divided by 218, whatever the perspective.
- **Minimax** (`minimax.dfy`). Leaves are scored with material + mobility. A node
  maximises when the perspective side is to move and minimises otherwise. The running
  best is replaced only on a strict improvement.
- **Alpha-beta** (`alphabeta.dfy`). The same walk with leaves scored at half of
  material + mobility. Alpha is raised where the perspective side is to move and beta is
  lowered elsewhere. The move loop breaks off once alpha ≥ beta (fail-soft).
- **In place** (`in_place.dfy`). Both searches written as the Python loops: one board
  that each iteration pushes a move onto and pops it off again.

The python-chess board is abstracted (`chess.dfy`) as an immutable tree node. A node
holds the side to move, the pieces on the occupied squares, the engine's checkmate and
game-over verdicts, and the legal moves in enumeration order, each with the position it
leads to. `Chess.Valid` states the rules-engine facts the code relies on:
- checkmate implies game over;
- a mated side has no legal move;
- a game that is not over has a legal move;
- every move passes the turn;
- at most 64 pieces and 218 legal moves.

Scores are exact reals extended with −∞ and +∞ (`scores.dfy`), which stand for Python's
`float('inf')` as the initial best score and alpha-beta window. `GameTree.Value` is the
textbook minimax value of a tree for a given leaf evaluator. Both searches are proved
against it.

Where the code and its tests or design notes disagree, the model follows the code:
- The tests expect raw piece values such as −9 for a lone black queen
  (tests/test_evaluate.py:49-54). The code divides by 39 (chessai/evaluation.py:27), so
  `Evaluation.LoneQueenScore` proves −9/39 and +9/39.
- The tests expect 0 for insufficient material and stalemate
  (tests/test_evaluate.py:117-138). The code returns −9999 for every game-over position
  that is not checkmate (chessai/evaluation.py:17-18); see `Evaluation.DrawScoredAsLoss`.
- Mobility counts only the side to move's legal moves, not a difference between the two
  sides.
- The code orders nothing: moves are searched in the library's enumeration order.

## Model

| member | source | states |
|---|---|---|
| `Scores.Max` | chessai/alphabeta.py:26 | Python's `max` on scores: an upper bound of both arguments and one of them |
| `Scores.Min` | chessai/alphabeta.py:33 | Python's `min` on scores: a lower bound of both arguments and one of them |
| `Scores.Half` | chessai/alphabeta.py:5 | division by 2: twice the result is the argument; infinities stay put |
| `Evaluation.MaterialIsBalance` | chessai/evaluation.py:20-27 | the square-by-square sum equals Σ value(k) × (own count of k − enemy count of k) over the six kinds |
| `Evaluation.MaterialIgnoresOrder` | chessai/evaluation.py:23-26 | the material sum depends only on the multiset of pieces on the board |
| `Evaluation.MaterialAntisymmetric` | chessai/evaluation.py:25-26 | swapping the perspective negates the material sum |
| `Evaluation.MaterialBounded` | chessai/evaluation.py:4-11 | each piece moves the sum by at most 9, so it lies within ±9 per piece |
| `Evaluation.CheckmateSentinels` | chessai/evaluation.py:15-16 | at checkmate the two perspectives score opposite; +9999 exactly for the side not to move, −9999 exactly for the side to move |
| `Evaluation.DrawScoredAsLoss` | chessai/evaluation.py:17-18 | any other finished game scores −9999 for both perspectives |
| `Evaluation.MaterialScoreAntisymmetric` | chessai/evaluation.py:20-27 | in a running game White's material score is minus Black's |
| `Evaluation.EqualArmiesScoreLevel` | chessai/evaluation.py:4-11 | armies equal in every kind but the king score 0 for both sides, since the king is worth 0 |
| `Evaluation.ExtraEnemyPiece` | chessai/evaluation.py:25-27 | one more enemy piece of kind k, on any square, lowers the score by value(k)/39 and raises the enemy's by as much |
| `Evaluation.MaterialBelowSentinels` | chessai/evaluation.py:13-27 | a running game's material score lies within ±576/39, strictly inside the ±9999 sentinels |
| `Evaluation.MobilityProperties` | chessai/evaluation.py:30-33 | mobility is the same for both perspectives, is at least 0 and at most 1, and is 0 exactly when there is no legal move |
| `Evaluation.StartPositionLevel` | tests/test_evaluate.py:16-21 | the starting position scores 0 for both sides |
| `Evaluation.LoneQueenScore` | chessai/evaluation.py:27 | king against king and queen: −9/39 for White and +9/39 for Black, not the ±9 the test expects |
| `GameTree.Extreme` | chessai/minimax.py:36-53 | the best of the first n child values is at least (maximising) or at most (minimising) every one of them and equals one of them, and it is ∓∞ when n is 0 |
| `GameTree.ValueIsReachableLeaf` | chessai/minimax.py:32-41 | on a valid tree the value is finite and is the root perspective's leaf score of a position reachable within depth moves |
| `MinimaxSearch.MinimaxIsGameValue` | chessai/minimax.py:32-55 | minimax returns the game value of the tree under the material + mobility leaf score |
| `MinimaxSearch.BestAfterIsFirstBest` | chessai/minimax.py:44-53 | after scanning i children with finite scores, the best move is that of the first child whose score equals the best score |
| `MinimaxSearch.MinimaxMove` | chessai/minimax.py:32-55 | the move is absent exactly at depth 0 or a finished game; otherwise it is a legal move, the first in enumeration order whose child score equals the result |
| `MinimaxSearch.CheckmateEvaluation` | chessai/minimax.py:16 | the leaf score at checkmate is exactly −9999 for the mated side and +9999 for the other, and minimax returns it with no move at any depth |
| `MinimaxSearch.EvaluateBounds` | chessai/minimax.py:16 | a running game's leaf score lies strictly between the sentinels; other finished games score between −9999 and −9998 |
| `MinimaxSearch.MateInOneFound` | chessai/minimax.py:35-55 | with a mating move available, a depth-1 search for the side to move scores +9999 and recommends the first mating move |
| `AlphaBetaSearch.WindowBounds` | chessai/alphabeta.py:15-37 | within a node alpha never falls and changes only where the perspective side moves; beta never rises and changes only elsewhere; the loop has broken off exactly when alpha ≥ beta |
| `AlphaBetaSearch.WindowNarrows` | chessai/alphabeta.py:22-33 | between any two points of the loop alpha has not fallen and beta has not risen |
| `AlphaBetaSearch.CutIsFinal` | chessai/alphabeta.py:35-37 | once the loop breaks off, no later move changes the state |
| `AlphaBetaSearch.LaterSiblingsIgnored` | chessai/alphabeta.py:15-37 | after the break at move k, replacing every later move by anything leaves the result unchanged |
| `AlphaBetaSearch.FailSoft` | chessai/alphabeta.py:8-38 | for alpha < beta: a result inside the window is the game value, one ≤ alpha bounds it from above, one ≥ beta bounds it from below |
| `AlphaBetaSearch.FullWindowIsGameValue` | chessai/alphabeta.py:8 | with the default window (−∞, +∞) the result is the unpruned game value |
| `AlphaBetaSearch.ValueHalves` | chessai/alphabeta.py:5 | halving every leaf score halves the game value |
| `AlphaBetaSearch.AlphaBetaHalvesMinimax` | chessai/alphabeta.py:4-10 | `alphabeta(b, d, c)` scores exactly half of `minimax(b, d, c)` |
| `AlphaBetaSearch.AlphaBetaAgreesWithMinimax` | chessai/alphabeta.py:12-38 | with the default window alpha-beta recommends the same move as minimax, with half its score |
| `AlphaBetaSearch.AlphaBetaMove` | chessai/alphabeta.py:12-38 | the move is absent exactly at depth 0 or a finished game; otherwise it is a legal move that the loop searched before any break |
| `InPlace.MinimaxInPlace` | chessai/minimax.py:19-55 | the push/pop loop computes minimax and hands the board back exactly as it received it |
| `InPlace.AlphaBetaInPlace` | chessai/alphabeta.py:8-38 | the push/pop loop with its break computes alpha-beta and hands the board back unchanged, the break included |

## Left out

- `chessgame.py` (console input, a UCI engine subprocess, the argument parser and the game loop) and `chessai/utils.py` (board printing) are I/O.
- python-chess itself is not modelled. Move generation, check, mate, stalemate and insufficient-material detection, and FEN parsing become the fields of `Chess.Board` plus the facts in `Chess.Valid`. `push` and `pop` become `InPlace.Push` and `InPlace.Pop`.
- Draws by repetition or the move-count rules are not told apart: they are part of the engine's game-over verdict, which the model takes as given.
- Floating point is not modelled. Scores are exact reals, so dividing by 39, 218 and 2 is exact, and `float('inf')` is an explicit infinity.
- Negative depth is not modelled: the depth is a natural number. The code would recurse until a finished game.
- `tests/test_minimax.py` plays a whole game and checks that it ends. That depends on the rules of chess, which are outside the model.
- Move-ordering heuristics (captures, checks, promotions) do not appear in the code, so moves are searched in the library's order.
