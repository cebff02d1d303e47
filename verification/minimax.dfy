/**
  Depth-limited minimax (chessai/minimax.py): leaves are scored with
  material + mobility for the root's maximizing player; a node maximises
  when that player is to move and minimises otherwise; the best score is
  replaced only on a strict improvement.
 */
module MinimaxSearch {
  import opened Wrappers
  import opened Chess
  import opened Scores
  import opened Evaluation
  import opened GameTree

  function Evaluate(b: Board, maximizingPlayer: Color): real {
    EvaluateMaterial(b, maximizingPlayer) + EvaluateMobility(b, maximizingPlayer)
  }

  function Minimax(b: Board, depth: nat, maximizingPlayer: Color): SearchResult
    decreases b, 1, 0
  {
    if depth == 0 || b.gameOver then SearchResult(Fin(Evaluate(b, maximizingPlayer)), None)
    else BestAfter(b, depth, maximizingPlayer, |b.edges|)
  }

  /** The running (best score, best move) after the loop has seen the first `i` moves. */
  function BestAfter(b: Board, depth: nat, maximizingPlayer: Color, i: nat): SearchResult
    requires 0 < depth && i <= |b.edges|
    decreases b, 0, i
  {
    if i == 0 then SearchResult(Worst(b, maximizingPlayer), None)
    else
      var acc := BestAfter(b, depth, maximizingPlayer, i - 1);
      var e := b.edges[i - 1];
      var score := Minimax(e.child, depth - 1, maximizingPlayer).score;
      if Maximizing(b, maximizingPlayer) then
        (if Less(acc.score, score) then SearchResult(score, Some(e.move)) else acc)
      else
        (if Less(score, acc.score) then SearchResult(score, Some(e.move)) else acc)
  }

  /** The score minimax gives the `j`-th child of `b`. */
  function ChildScore(b: Board, depth: nat, maximizingPlayer: Color, j: nat): Score
    requires 0 < depth && j < |b.edges|
  {
    Minimax(b.edges[j].child, depth - 1, maximizingPlayer).score
  }

  /** Minimax computes the textbook game value with its own leaf evaluator. */
  lemma {:induction false} MinimaxIsGameValue(b: Board, depth: nat, player: Color)
    ensures Minimax(b, depth, player).score == Value(b, depth, player, Evaluate)
    decreases b, 1, 0
  {
    if depth > 0 && !b.gameOver {
      BestAfterIsExtreme(b, depth, player, |b.edges|);
    }
  }

  lemma {:induction false} BestAfterIsExtreme(b: Board, depth: nat, player: Color, i: nat)
    requires 0 < depth && i <= |b.edges|
    ensures BestAfter(b, depth, player, i).score == Extreme(b, depth, player, Evaluate, i)
    decreases b, 0, i
  {
    if i > 0 {
      BestAfterIsExtreme(b, depth, player, i - 1);
      MinimaxIsGameValue(b.edges[i - 1].child, depth - 1, player);
    }
  }

  /**
    After `i` moves, when every child score seen is an ordinary score, the
    best move is the first of them whose score equals the best score.
   */
  lemma {:induction false} BestAfterIsFirstBest(b: Board, depth: nat, player: Color, i: nat)
    requires 0 < depth && 0 < i <= |b.edges|
    requires forall j :: 0 <= j < i ==> ChildScore(b, depth, player, j).Fin?
    ensures var r := BestAfter(b, depth, player, i);
      exists k :: 0 <= k < i
        && r.move == Some(b.edges[k].move)
        && ChildScore(b, depth, player, k) == r.score
        && forall j :: 0 <= j < k ==> ChildScore(b, depth, player, j) != r.score
    decreases i
  {
    var r := BestAfter(b, depth, player, i);
    BestAfterIsExtreme(b, depth, player, i);
    if i == 1 {
      assert BestAfter(b, depth, player, 0).score == Worst(b, player);
      assert ChildScore(b, depth, player, 0).Fin?;
    } else {
      var acc := BestAfter(b, depth, player, i - 1);
      BestAfterIsFirstBest(b, depth, player, i - 1);
      BestAfterIsExtreme(b, depth, player, i - 1);
      forall j | 0 <= j < i - 1
        ensures ChildScore(b, depth, player, j) == ChildValue(b, depth, player, Evaluate, j)
      {
        MinimaxIsGameValue(b.edges[j].child, depth - 1, player);
      }
      if r != acc {
        assert r.move == Some(b.edges[i - 1].move);
      }
    }
  }

  /**
    A search of positive depth from a running game recommends a legal move:
    the first in enumeration order whose score is the best one. A leaf
    recommends nothing.
   */
  lemma MinimaxMove(b: Board, depth: nat, player: Color)
    requires Valid(b)
    ensures Minimax(b, depth, player).move == None <==> depth == 0 || b.gameOver
    ensures depth > 0 && !b.gameOver ==>
      var r := Minimax(b, depth, player);
      && r.move.value in LegalMoves(b)
      && (exists k :: 0 <= k < |b.edges|
            && r.move == Some(b.edges[k].move)
            && ChildScore(b, depth, player, k) == r.score
            && forall j :: 0 <= j < k ==> ChildScore(b, depth, player, j) != r.score)
  {
    if depth > 0 && !b.gameOver {
      forall j | 0 <= j < |b.edges|
        ensures ChildScore(b, depth, player, j).Fin?
      {
        MinimaxIsGameValue(b.edges[j].child, depth - 1, player);
        ValueIsReachableLeaf(b.edges[j].child, depth - 1, player, Evaluate);
      }
      BestAfterIsFirstBest(b, depth, player, |b.edges|);
    }
  }

  /** Minimax's leaf score at a checkmate is exactly the sentinel: no legal move adds mobility. */
  lemma CheckmateEvaluation(b: Board, depth: nat, player: Color)
    requires Valid(b) && b.checkmate
    ensures Evaluate(b, player) == (if player == b.turn then -MateScore else MateScore)
    ensures Minimax(b, depth, player) == SearchResult(Fin(Evaluate(b, player)), None)
  {
  }

  /**
    The sentinels dominate: a running game scores strictly between them,
    and any other finished game scores within one of -9999.
   */
  lemma EvaluateBounds(b: Board, player: Color)
    requires Valid(b)
    ensures !b.gameOver ==> -MateScore < Evaluate(b, player) < MateScore
    ensures b.gameOver && !b.checkmate ==> -MateScore <= Evaluate(b, player) <= 1.0 - MateScore
  {
    if !b.gameOver {
      MaterialBelowSentinels(b, player);
    }
  }

  /** The score minimax gives a child at depth 1: its leaf evaluation. */
  lemma ChildScoreAtDepthOne(b: Board, player: Color, j: nat)
    requires Valid(b) && b.turn == player && j < |b.edges|
    ensures b.edges[j].child.checkmate ==> ChildScore(b, 1, player, j) == Fin(MateScore)
    ensures !b.edges[j].child.checkmate ==> Less(ChildScore(b, 1, player, j), Fin(MateScore))
  {
    var c := b.edges[j].child;
    assert Valid(c) && c.turn == Opponent(player);
    EvaluateBounds(c, player);
  }

  /**
    With a mate in one available, a depth-1 search for the side to move
    scores +9999 and recommends the first mating move.
   */
  lemma MateInOneFound(b: Board, player: Color, k: nat)
    requires Valid(b) && b.turn == player && !b.gameOver
    requires k < |b.edges| && b.edges[k].child.checkmate
    requires forall j :: 0 <= j < k ==> !b.edges[j].child.checkmate
    ensures Minimax(b, 1, player) == SearchResult(Fin(MateScore), Some(b.edges[k].move))
  {
    var r := Minimax(b, 1, player);
    MinimaxIsGameValue(b, 1, player);
    BestAfterIsExtreme(b, 1, player, |b.edges|);
    forall j | 0 <= j < |b.edges|
      ensures ChildScore(b, 1, player, j) == ChildValue(b, 1, player, Evaluate, j)
      ensures Le(ChildScore(b, 1, player, j), Fin(MateScore))
    {
      MinimaxIsGameValue(b.edges[j].child, 0, player);
      ChildScoreAtDepthOne(b, player, j);
    }
    ChildScoreAtDepthOne(b, player, k);
    assert r.score == Fin(MateScore);
    MinimaxMove(b, 1, player);
    var k' :| 0 <= k' < |b.edges| && r.move == Some(b.edges[k'].move)
      && ChildScore(b, 1, player, k') == r.score
      && forall j :: 0 <= j < k' ==> ChildScore(b, 1, player, j) != r.score;
    if k' < k {
      ChildScoreAtDepthOne(b, player, k');
    }
  }
}
