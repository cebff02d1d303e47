/**
  The searches as the Python code runs them: one board object that each
  loop iteration `push`es a move onto and `pop`s it off again. A `Position`
  is the board together with its move stack, so the methods thread it
  through and hand it back.
 */
module InPlace {
  import opened Wrappers
  import opened Chess
  import opened Scores
  import opened GameTree
  import MinimaxSearch
  import AlphaBetaSearch

  /** The current node and, under it, the nodes the pushed moves were made from. */
  datatype Position = Position(history: seq<Board>, current: Board)

  /** `board.push(move)` for the `i`-th legal move. */
  function Push(p: Position, i: nat): (q: Position)
    requires i < |p.current.edges|
    ensures q.current == p.current.edges[i].child
    ensures |q.history| == |p.history| + 1
  {
    Position(p.history + [p.current], p.current.edges[i].child)
  }

  /** `board.pop()`: back to the node the last move was made from. */
  function Pop(p: Position): (q: Position)
    requires |p.history| > 0
    ensures |q.history| == |p.history| - 1
  {
    Position(p.history[..|p.history| - 1], p.history[|p.history| - 1])
  }

  lemma PopUndoesPush(p: Position, i: nat)
    requires i < |p.current.edges|
    ensures Pop(Push(p, i)) == p
  {
    assert (p.history + [p.current])[..|p.history|] == p.history;
  }

  /** chessai/minimax.py's `minimax`, pushing and popping each move; the board comes back as it was. */
  method MinimaxInPlace(pos: Position, depth: nat, maximizingPlayer: Color)
    returns (score: Score, move: Option<Move>, board: Position)
    ensures board == pos
    ensures SearchResult(score, move) == MinimaxSearch.Minimax(pos.current, depth, maximizingPlayer)
    decreases pos.current
  {
    board := pos;
    if depth == 0 || board.current.gameOver {
      return Fin(MinimaxSearch.Evaluate(board.current, maximizingPlayer)), None, board;
    }
    var node := board.current;
    var bestMove: Option<Move> := None;
    var bestScore := if node.turn == maximizingPlayer then NegInf else PosInf;
    var i := 0;
    while i < |node.edges|
      invariant i <= |node.edges|
      invariant board == pos
      invariant SearchResult(bestScore, bestMove) == MinimaxSearch.BestAfter(node, depth, maximizingPlayer, i)
    {
      var m := node.edges[i].move;
      PopUndoesPush(board, i);
      board := Push(board, i);
      var s, _, back := MinimaxInPlace(board, depth - 1, maximizingPlayer);
      board := Pop(back);
      if board.current.turn == maximizingPlayer {
        if Less(bestScore, s) {
          bestScore, bestMove := s, Some(m);
        }
      } else {
        if Less(s, bestScore) {
          bestScore, bestMove := s, Some(m);
        }
      }
      i := i + 1;
    }
    score, move := bestScore, bestMove;
  }

  /**
    chessai/alphabeta.py's `alphabeta`: the move is popped before the
    pruning test, so the board comes back as it was even when the loop
    breaks off early.
   */
  method AlphaBetaInPlace(pos: Position, depth: nat, color: Color, alpha0: Score, beta0: Score)
    returns (score: Score, move: Option<Move>, board: Position)
    ensures board == pos
    ensures SearchResult(score, move) == AlphaBetaSearch.AlphaBeta(pos.current, depth, color, alpha0, beta0)
    decreases pos.current
  {
    board := pos;
    if depth == 0 || board.current.gameOver {
      return Fin(AlphaBetaSearch.Evaluate(board.current, color)), None, board;
    }
    var node := board.current;
    var alpha, beta := alpha0, beta0;
    var bestMove: Option<Move> := None;
    var bestScore := if node.turn == color then NegInf else PosInf;
    var i := 0;
    while i < |node.edges|
      invariant i <= |node.edges|
      invariant board == pos
      invariant AlphaBetaSearch.Scan(alpha, beta, bestScore, bestMove, false)
             == AlphaBetaSearch.AfterChildren(node, depth, color, alpha0, beta0, i)
    {
      var m := node.edges[i].move;
      ghost var before := AlphaBetaSearch.Scan(alpha, beta, bestScore, bestMove, false);
      PopUndoesPush(board, i);
      board := Push(board, i);
      var s, _, back := AlphaBetaInPlace(board, depth - 1, color, alpha, beta);
      board := Pop(back);
      AlphaBetaSearch.NextScan(node, depth, color, alpha0, beta0, i, s);
      if board.current.turn == color {
        if Less(bestScore, s) {
          bestScore, bestMove := s, Some(m);
        }
        alpha := Max(alpha, s);
      } else {
        if Less(s, bestScore) {
          bestScore, bestMove := s, Some(m);
        }
        beta := Min(beta, s);
      }
      assert AlphaBetaSearch.Scan(alpha, beta, bestScore, bestMove, Le(beta, alpha))
          == AlphaBetaSearch.Visit(node, color, before, m, s);
      if Le(beta, alpha) {
        AlphaBetaSearch.CutIsFinal(node, depth, color, alpha0, beta0, i + 1, |node.edges|);
        break;
      }
      i := i + 1;
    }
    score, move := bestScore, bestMove;
  }
}
