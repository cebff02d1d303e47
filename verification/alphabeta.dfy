/**
  Fail-soft alpha-beta (chessai/alphabeta.py): the same walk as minimax,
  with leaves scored at half of material + mobility, alpha raised at nodes
  where the perspective side is to move, beta lowered elsewhere, and the
  move loop broken off once alpha >= beta.
 */
module AlphaBetaSearch {
  import opened Wrappers
  import opened Chess
  import opened Scores
  import opened Evaluation
  import opened GameTree
  import MinimaxSearch

  function Evaluate(b: Board, color: Color): real {
    (EvaluateMaterial(b, color) + EvaluateMobility(b, color)) / 2.0
  }

  /** The move loop's state: the window, the running best, and whether it has broken off. */
  datatype Scan = Scan(alpha: Score, beta: Score, best: Score, bestMove: Option<Move>, cut: bool)

  /** One iteration of the move loop, after move `m` came back with `score`. */
  function Visit(b: Board, color: Color, s: Scan, m: Move, score: Score): Scan {
    if Maximizing(b, color) then
      var alpha := Max(s.alpha, score);
      if Less(s.best, score) then Scan(alpha, s.beta, score, Some(m), Le(s.beta, alpha))
      else Scan(alpha, s.beta, s.best, s.bestMove, Le(s.beta, alpha))
    else
      var beta := Min(s.beta, score);
      if Less(score, s.best) then Scan(s.alpha, beta, score, Some(m), Le(beta, s.alpha))
      else Scan(s.alpha, beta, s.best, s.bestMove, Le(beta, s.alpha))
  }

  function AlphaBeta(b: Board, depth: nat, color: Color, alpha: Score, beta: Score): SearchResult
    decreases b, 1, 0
  {
    if depth == 0 || b.gameOver then SearchResult(Fin(Evaluate(b, color)), None)
    else
      var s := AfterChildren(b, depth, color, alpha, beta, |b.edges|);
      SearchResult(s.best, s.bestMove)
  }

  /**
    The loop state once the first `i` moves have been offered to it; a move
    offered after the break is not searched.
   */
  function AfterChildren(b: Board, depth: nat, color: Color, alpha: Score, beta: Score, i: nat): Scan
    requires 0 < depth && i <= |b.edges|
    decreases b, 0, i
  {
    if i == 0 then Scan(alpha, beta, Worst(b, color), None, false)
    else
      var s := AfterChildren(b, depth, color, alpha, beta, i - 1);
      if s.cut then s
      else
        var e := b.edges[i - 1];
        Visit(b, color, s, e.move, AlphaBeta(e.child, depth - 1, color, s.alpha, s.beta).score)
  }

  /** The `j`-th move is searched: the loop has not broken off before reaching it. */
  predicate Examined(b: Board, depth: nat, color: Color, alpha: Score, beta: Score, j: nat)
    requires 0 < depth
  {
    j < |b.edges| && !AfterChildren(b, depth, color, alpha, beta, j).cut
  }

  /*** The loop ***/

  /** Offering move `i` to a running loop is one `Visit` with that move's search result. */
  lemma NextScan(b: Board, depth: nat, color: Color, alpha: Score, beta: Score, i: nat, r: Score)
    requires 0 < depth && i < |b.edges|
    requires !AfterChildren(b, depth, color, alpha, beta, i).cut
    requires var s := AfterChildren(b, depth, color, alpha, beta, i);
      r == AlphaBeta(b.edges[i].child, depth - 1, color, s.alpha, s.beta).score
    ensures AfterChildren(b, depth, color, alpha, beta, i + 1)
         == Visit(b, color, AfterChildren(b, depth, color, alpha, beta, i), b.edges[i].move, r)
  {
  }

  /**
    Alpha only rises from its entry value, and only at nodes where `color`
    is to move; beta only falls, and only at the other nodes; the loop has
    broken off exactly when the window has closed.
   */
  lemma {:induction false} WindowBounds(b: Board, depth: nat, color: Color, alpha: Score, beta: Score, i: nat)
    requires 0 < depth && i <= |b.edges|
    ensures var s := AfterChildren(b, depth, color, alpha, beta, i);
      && Le(alpha, s.alpha) && Le(s.beta, beta)
      && (Maximizing(b, color) ==> s.beta == beta)
      && (!Maximizing(b, color) ==> s.alpha == alpha)
      && (i > 0 ==> (s.cut <==> Le(s.beta, s.alpha)))
      && (i == 0 ==> !s.cut)
    decreases i
  {
    if i > 0 {
      WindowBounds(b, depth, color, alpha, beta, i - 1);
    }
  }

  /** Across the loop, alpha never falls and beta never rises. */
  lemma {:induction false} WindowNarrows(b: Board, depth: nat, color: Color, alpha: Score, beta: Score, i: nat, j: nat)
    requires 0 < depth && i <= j <= |b.edges|
    ensures Le(AfterChildren(b, depth, color, alpha, beta, i).alpha, AfterChildren(b, depth, color, alpha, beta, j).alpha)
    ensures Le(AfterChildren(b, depth, color, alpha, beta, j).beta, AfterChildren(b, depth, color, alpha, beta, i).beta)
    decreases j
  {
    if i < j {
      WindowNarrows(b, depth, color, alpha, beta, i, j - 1);
    }
  }

  /** Once the loop has broken off, no later move changes anything. */
  lemma {:induction false} CutIsFinal(b: Board, depth: nat, color: Color, alpha: Score, beta: Score, i: nat, j: nat)
    requires 0 < depth && i <= j <= |b.edges|
    requires AfterChildren(b, depth, color, alpha, beta, i).cut
    ensures AfterChildren(b, depth, color, alpha, beta, j) == AfterChildren(b, depth, color, alpha, beta, i)
    decreases j
  {
    if i < j {
      CutIsFinal(b, depth, color, alpha, beta, i, j - 1);
    }
  }

  /** The loop state after `i` moves depends only on those `i` moves. */
  lemma {:induction false} PrefixDetermines(b: Board, b': Board, depth: nat, color: Color, alpha: Score, beta: Score, i: nat)
    requires 0 < depth && i <= |b.edges| && i <= |b'.edges|
    requires b'.turn == b.turn && b'.edges[..i] == b.edges[..i]
    ensures AfterChildren(b', depth, color, alpha, beta, i) == AfterChildren(b, depth, color, alpha, beta, i)
    decreases i
  {
    if i > 0 {
      assert b'.edges[..i - 1] == b.edges[..i - 1];
      assert b'.edges[i - 1] == b'.edges[..i][i - 1];
      PrefixDetermines(b, b', depth, color, alpha, beta, i - 1);
    }
  }

  /**
    Pruning: once the window closes after move `k`, the moves after it are
    never searched, so replacing them by anything leaves the result alone.
   */
  lemma LaterSiblingsIgnored(b: Board, depth: nat, color: Color, alpha: Score, beta: Score, k: nat, rest: seq<Edge>)
    requires 0 < depth && !b.gameOver && k <= |b.edges|
    requires AfterChildren(b, depth, color, alpha, beta, k).cut
    ensures AlphaBeta(b.(edges := b.edges[..k] + rest), depth, color, alpha, beta)
         == AlphaBeta(b, depth, color, alpha, beta)
  {
    var b' := b.(edges := b.edges[..k] + rest);
    assert b'.edges[..k] == b.edges[..k];
    PrefixDetermines(b, b', depth, color, alpha, beta, k);
    CutIsFinal(b, depth, color, alpha, beta, k, |b.edges|);
    CutIsFinal(b', depth, color, alpha, beta, k, |b'.edges|);
  }

  /*** Fail-soft correctness against the game value ***/

  /**
    The fail-soft relation between a result `r` searched with window
    (alpha, beta) and the true value `v`: inside the window the result is
    the value; at or below alpha it bounds the value from above; at or
    above beta it bounds it from below.
   */
  predicate FailSoftAt(alpha: Score, beta: Score, r: Score, v: Score) {
    && (Less(alpha, r) && Less(r, beta) ==> r == v)
    && (Le(r, alpha) ==> Le(v, r))
    && (Le(beta, r) ==> Le(r, v))
  }

  lemma {:induction false} FailSoft(b: Board, depth: nat, color: Color, alpha: Score, beta: Score)
    requires Less(alpha, beta)
    ensures FailSoftAt(alpha, beta, AlphaBeta(b, depth, color, alpha, beta).score, Value(b, depth, color, Evaluate))
    decreases b, 1, 0
  {
    if depth > 0 && !b.gameOver {
      var n := |b.edges|;
      if Maximizing(b, color) {
        MaxScan(b, depth, color, alpha, beta, n);
      } else {
        MinScan(b, depth, color, alpha, beta, n);
      }
      var s := AfterChildren(b, depth, color, alpha, beta, n);
      assert AlphaBeta(b, depth, color, alpha, beta).score == s.best;
    }
  }

  /**
    The loop invariant at a node where `color` is to move, with `m` the best
    value of the moves offered so far: while running, the best score is that
    value once it has beaten the entry alpha and an upper bound of it before;
    after the break it lies between beta and the value.
   */
  predicate MaxInvariant(s: Scan, alpha: Score, beta: Score, m: Score) {
    && s.beta == beta
    && s.alpha == Max(alpha, s.best)
    && (!s.cut ==> Less(s.alpha, beta) && Le(m, s.best) && (Less(alpha, s.best) ==> m == s.best))
    && (s.cut ==> Le(beta, s.best) && Le(s.best, m))
  }

  /** The mirror image at a node where the opponent is to move. */
  predicate MinInvariant(s: Scan, alpha: Score, beta: Score, m: Score) {
    && s.alpha == alpha
    && s.beta == Min(beta, s.best)
    && (!s.cut ==> Less(alpha, s.beta) && Le(s.best, m) && (Less(s.best, beta) ==> m == s.best))
    && (s.cut ==> Le(s.best, alpha) && Le(m, s.best))
  }

  lemma MaxStep(b: Board, color: Color, s: Scan, alpha: Score, beta: Score, m: Score, mv: Move, r: Score, v: Score)
    requires Maximizing(b, color) && Less(alpha, beta)
    requires MaxInvariant(s, alpha, beta, m) && !s.cut
    requires FailSoftAt(s.alpha, s.beta, r, v)
    ensures MaxInvariant(Visit(b, color, s, mv, r), alpha, beta, Max(m, v))
  {
  }

  lemma MinStep(b: Board, color: Color, s: Scan, alpha: Score, beta: Score, m: Score, mv: Move, r: Score, v: Score)
    requires !Maximizing(b, color) && Less(alpha, beta)
    requires MinInvariant(s, alpha, beta, m) && !s.cut
    requires FailSoftAt(s.alpha, s.beta, r, v)
    ensures MinInvariant(Visit(b, color, s, mv, r), alpha, beta, Min(m, v))
  {
  }

  lemma {:induction false} MaxScan(b: Board, depth: nat, color: Color, alpha: Score, beta: Score, i: nat)
    requires 0 < depth && i <= |b.edges| && Maximizing(b, color) && Less(alpha, beta)
    ensures MaxInvariant(AfterChildren(b, depth, color, alpha, beta, i), alpha, beta, Extreme(b, depth, color, Evaluate, i))
    decreases b, 0, i
  {
    if i > 0 {
      MaxScan(b, depth, color, alpha, beta, i - 1);
      var s := AfterChildren(b, depth, color, alpha, beta, i - 1);
      var e := b.edges[i - 1];
      var v := Value(e.child, depth - 1, color, Evaluate);
      var m := Extreme(b, depth, color, Evaluate, i - 1);
      assert Extreme(b, depth, color, Evaluate, i) == Max(m, v);
      if s.cut {
        assert AfterChildren(b, depth, color, alpha, beta, i) == s;
      } else {
        var r := AlphaBeta(e.child, depth - 1, color, s.alpha, s.beta).score;
        assert AfterChildren(b, depth, color, alpha, beta, i) == Visit(b, color, s, e.move, r);
        FailSoft(e.child, depth - 1, color, s.alpha, s.beta);
        MaxStep(b, color, s, alpha, beta, m, e.move, r, v);
      }
    }
  }

  lemma {:induction false} MinScan(b: Board, depth: nat, color: Color, alpha: Score, beta: Score, i: nat)
    requires 0 < depth && i <= |b.edges| && !Maximizing(b, color) && Less(alpha, beta)
    ensures MinInvariant(AfterChildren(b, depth, color, alpha, beta, i), alpha, beta, Extreme(b, depth, color, Evaluate, i))
    decreases b, 0, i
  {
    if i > 0 {
      MinScan(b, depth, color, alpha, beta, i - 1);
      var s := AfterChildren(b, depth, color, alpha, beta, i - 1);
      var e := b.edges[i - 1];
      var v := Value(e.child, depth - 1, color, Evaluate);
      var m := Extreme(b, depth, color, Evaluate, i - 1);
      assert Extreme(b, depth, color, Evaluate, i) == Min(m, v);
      if s.cut {
        assert AfterChildren(b, depth, color, alpha, beta, i) == s;
      } else {
        var r := AlphaBeta(e.child, depth - 1, color, s.alpha, s.beta).score;
        assert AfterChildren(b, depth, color, alpha, beta, i) == Visit(b, color, s, e.move, r);
        FailSoft(e.child, depth - 1, color, s.alpha, s.beta);
        MinStep(b, color, s, alpha, beta, m, e.move, r, v);
      }
    }
  }

  /** With the default window (-inf, +inf) alpha-beta returns the unpruned game value. */
  lemma FullWindowIsGameValue(b: Board, depth: nat, color: Color)
    ensures AlphaBeta(b, depth, color, NegInf, PosInf).score == Value(b, depth, color, Evaluate)
  {
    FailSoft(b, depth, color, NegInf, PosInf);
  }

  /** Halving every leaf halves the game value. */
  lemma {:induction false} ValueHalves(b: Board, depth: nat, color: Color)
    ensures Value(b, depth, color, Evaluate) == Half(Value(b, depth, color, MinimaxSearch.Evaluate))
    decreases b, 1, 0
  {
    if depth > 0 && !b.gameOver {
      ExtremeHalves(b, depth, color, |b.edges|);
    }
  }

  lemma {:induction false} ExtremeHalves(b: Board, depth: nat, color: Color, n: nat)
    requires 0 < depth && n <= |b.edges|
    ensures Extreme(b, depth, color, Evaluate, n) == Half(Extreme(b, depth, color, MinimaxSearch.Evaluate, n))
    decreases b, 0, n
  {
    if n > 0 {
      ExtremeHalves(b, depth, color, n - 1);
      ValueHalves(b.edges[n - 1].child, depth - 1, color);
      HalfCommutesWithMax(Extreme(b, depth, color, MinimaxSearch.Evaluate, n - 1),
                          ChildValue(b, depth, color, MinimaxSearch.Evaluate, n - 1));
    }
  }

  /** alphabeta(b, d, c) scores exactly half of what minimax(b, d, c) scores. */
  lemma AlphaBetaHalvesMinimax(b: Board, depth: nat, color: Color)
    ensures AlphaBeta(b, depth, color, NegInf, PosInf).score == Half(MinimaxSearch.Minimax(b, depth, color).score)
  {
    FullWindowIsGameValue(b, depth, color);
    ValueHalves(b, depth, color);
    MinimaxSearch.MinimaxIsGameValue(b, depth, color);
  }

  /** A child searched with window (lo, +inf) improves on `lo` exactly when minimax's score for it does, and then by half of it. */
  lemma ChildAgreesAbove(c: Board, depth: nat, color: Color, lo: Score)
    requires Less(lo, PosInf)
    ensures var r, m := AlphaBeta(c, depth, color, lo, PosInf).score, MinimaxSearch.Minimax(c, depth, color).score;
      && (Less(lo, r) ==> r == Half(m))
      && (!Less(lo, r) ==> Le(Half(m), lo))
  {
    FailSoft(c, depth, color, lo, PosInf);
    ValueHalves(c, depth, color);
    MinimaxSearch.MinimaxIsGameValue(c, depth, color);
  }

  /** The mirror image for a child searched with window (-inf, hi). */
  lemma ChildAgreesBelow(c: Board, depth: nat, color: Color, hi: Score)
    requires Less(NegInf, hi)
    ensures var r, m := AlphaBeta(c, depth, color, NegInf, hi).score, MinimaxSearch.Minimax(c, depth, color).score;
      && (Less(r, hi) ==> r == Half(m))
      && (!Less(r, hi) ==> Le(hi, Half(m)))
  {
    FailSoft(c, depth, color, NegInf, hi);
    ValueHalves(c, depth, color);
    MinimaxSearch.MinimaxIsGameValue(c, depth, color);
  }

  /** At the root, with the default window, the loop tracks minimax's loop step for step. */
  lemma RootScanTracksMinimax(b: Board, depth: nat, color: Color, i: nat)
    requires 0 < depth && i <= |b.edges|
    ensures var s, mm := AfterChildren(b, depth, color, NegInf, PosInf, i), MinimaxSearch.BestAfter(b, depth, color, i);
      s.best == Half(mm.score) && s.bestMove == mm.move
  {
    if Maximizing(b, color) {
      RootMaxTracks(b, depth, color, i);
    } else {
      RootMinTracks(b, depth, color, i);
    }
  }

  lemma {:induction false} RootMaxTracks(b: Board, depth: nat, color: Color, i: nat)
    requires 0 < depth && i <= |b.edges| && Maximizing(b, color)
    ensures var s, mm := AfterChildren(b, depth, color, NegInf, PosInf, i), MinimaxSearch.BestAfter(b, depth, color, i);
      && s.best == Half(mm.score)
      && s.bestMove == mm.move
      && (s.cut ==> s.best == PosInf)
    decreases i
  {
    if i > 0 {
      RootMaxTracks(b, depth, color, i - 1);
      var s := AfterChildren(b, depth, color, NegInf, PosInf, i - 1);
      var mm := MinimaxSearch.BestAfter(b, depth, color, i - 1);
      var e := b.edges[i - 1];
      var m := MinimaxSearch.Minimax(e.child, depth - 1, color).score;
      HalfPreservesOrder(mm.score, m);
      assert MinimaxSearch.BestAfter(b, depth, color, i)
          == if Less(mm.score, m) then SearchResult(m, Some(e.move)) else mm;
      if !s.cut {
        MaxScan(b, depth, color, NegInf, PosInf, i - 1);
        assert s.alpha == s.best && s.beta == PosInf;
        var r := AlphaBeta(e.child, depth - 1, color, s.alpha, s.beta).score;
        assert AfterChildren(b, depth, color, NegInf, PosInf, i) == Visit(b, color, s, e.move, r);
        ChildAgreesAbove(e.child, depth - 1, color, s.best);
      }
    }
  }

  lemma {:induction false} RootMinTracks(b: Board, depth: nat, color: Color, i: nat)
    requires 0 < depth && i <= |b.edges| && !Maximizing(b, color)
    ensures var s, mm := AfterChildren(b, depth, color, NegInf, PosInf, i), MinimaxSearch.BestAfter(b, depth, color, i);
      && s.best == Half(mm.score)
      && s.bestMove == mm.move
      && (s.cut ==> s.best == NegInf)
    decreases i
  {
    if i > 0 {
      RootMinTracks(b, depth, color, i - 1);
      var s := AfterChildren(b, depth, color, NegInf, PosInf, i - 1);
      var mm := MinimaxSearch.BestAfter(b, depth, color, i - 1);
      var e := b.edges[i - 1];
      var m := MinimaxSearch.Minimax(e.child, depth - 1, color).score;
      HalfPreservesOrder(m, mm.score);
      assert MinimaxSearch.BestAfter(b, depth, color, i)
          == if Less(m, mm.score) then SearchResult(m, Some(e.move)) else mm;
      if !s.cut {
        MinScan(b, depth, color, NegInf, PosInf, i - 1);
        assert s.beta == s.best && s.alpha == NegInf;
        var r := AlphaBeta(e.child, depth - 1, color, s.alpha, s.beta).score;
        assert AfterChildren(b, depth, color, NegInf, PosInf, i) == Visit(b, color, s, e.move, r);
        ChildAgreesBelow(e.child, depth - 1, color, s.best);
      }
    }
  }

  /** With the default window, alpha-beta recommends minimax's move with half its score. */
  lemma AlphaBetaAgreesWithMinimax(b: Board, depth: nat, color: Color)
    ensures var mm := MinimaxSearch.Minimax(b, depth, color);
      AlphaBeta(b, depth, color, NegInf, PosInf) == SearchResult(Half(mm.score), mm.move)
  {
    if depth > 0 && !b.gameOver {
      RootScanTracksMinimax(b, depth, color, |b.edges|);
    }
  }

  /*** The recommended move ***/

  lemma {:induction false} AlphaBetaFinite(b: Board, depth: nat, color: Color, alpha: Score, beta: Score)
    requires Valid(b)
    ensures AlphaBeta(b, depth, color, alpha, beta).score.Fin?
    decreases b, 1, 0
  {
    if depth > 0 && !b.gameOver {
      ScanFindsMove(b, depth, color, alpha, beta, |b.edges|);
    }
  }

  /** Once a move has been searched, the running best is an ordinary score of a searched move. */
  lemma {:induction false} ScanFindsMove(b: Board, depth: nat, color: Color, alpha: Score, beta: Score, i: nat)
    requires Valid(b) && 0 < depth && 0 < i <= |b.edges|
    ensures var s := AfterChildren(b, depth, color, alpha, beta, i);
      && s.best.Fin?
      && exists k :: 0 <= k < i && s.bestMove == Some(b.edges[k].move) && Examined(b, depth, color, alpha, beta, k)
    decreases b, 0, i
  {
    var prev := AfterChildren(b, depth, color, alpha, beta, i - 1);
    if i > 1 {
      ScanFindsMove(b, depth, color, alpha, beta, i - 1);
    }
    if !prev.cut {
      AlphaBetaFinite(b.edges[i - 1].child, depth - 1, color, prev.alpha, prev.beta);
      assert Examined(b, depth, color, alpha, beta, i - 1);
    }
  }

  /**
    A search of positive depth from a running game recommends a legal move
    that the loop searched; a leaf recommends nothing.
   */
  lemma AlphaBetaMove(b: Board, depth: nat, color: Color, alpha: Score, beta: Score)
    requires Valid(b)
    ensures AlphaBeta(b, depth, color, alpha, beta).move == None <==> depth == 0 || b.gameOver
    ensures depth > 0 && !b.gameOver ==>
      var r := AlphaBeta(b, depth, color, alpha, beta);
      && r.move.value in LegalMoves(b)
      && (exists k :: 0 <= k < |b.edges| && r.move == Some(b.edges[k].move) && Examined(b, depth, color, alpha, beta, k))
  {
    if depth > 0 && !b.gameOver {
      ScanFindsMove(b, depth, color, alpha, beta, |b.edges|);
    }
  }
}
