/**
  What a search returns, and the textbook minimax value of a game tree: the
  reference both searches are proved against. The value is parameterised by
  the leaf evaluator, because minimax scores leaves with material + mobility
  and alpha-beta with half of that.
 */
module GameTree {
  import opened Wrappers
  import opened Chess
  import opened Scores

  /** A score and the recommended move; the move is absent at a leaf. */
  datatype SearchResult = SearchResult(score: Score, move: Option<Move>)

  /** A node maximises when the perspective side is to move there. */
  predicate Maximizing(b: Board, player: Color) {
    b.turn == player
  }

  /** The score a node starts from before any child is seen: Python's -inf or +inf. */
  function Worst(b: Board, player: Color): Score {
    if Maximizing(b, player) then NegInf else PosInf
  }

  /** The minimax value of `b` searched `depth` plies, leaves scored for `player`. */
  function Value(b: Board, depth: nat, player: Color, leaf: (Board, Color) -> real): Score
    decreases b, 1, 0
  {
    if depth == 0 || b.gameOver then Fin(leaf(b, player))
    else Extreme(b, depth, player, leaf, |b.edges|)
  }

  function ChildValue(b: Board, depth: nat, player: Color, leaf: (Board, Color) -> real, j: nat): Score
    requires 0 < depth && j < |b.edges|
    decreases b, 0, 0
  {
    Value(b.edges[j].child, depth - 1, player, leaf)
  }

  /** The best of the first `n` children's values for the side to move. */
  function Extreme(b: Board, depth: nat, player: Color, leaf: (Board, Color) -> real, n: nat): (r: Score)
    requires 0 < depth && n <= |b.edges|
    ensures n == 0 ==> r == Worst(b, player)
    ensures forall j :: 0 <= j < n ==>
      if Maximizing(b, player) then Le(ChildValue(b, depth, player, leaf, j), r)
      else Le(r, ChildValue(b, depth, player, leaf, j))
    ensures n > 0 ==> exists j :: 0 <= j < n && r == ChildValue(b, depth, player, leaf, j)
    decreases b, 0, n
  {
    if n == 0 then Worst(b, player)
    else if Maximizing(b, player) then
      Max(Extreme(b, depth, player, leaf, n - 1), ChildValue(b, depth, player, leaf, n - 1))
    else
      Min(Extreme(b, depth, player, leaf, n - 1), ChildValue(b, depth, player, leaf, n - 1))
  }

  /** `n` is at the end of a line of play of at most `depth` moves from `b`. */
  ghost predicate Reaches(b: Board, n: Board, depth: nat)
    decreases depth
  {
    || b == n
    || (depth > 0 && exists j :: 0 <= j < |b.edges| && Reaches(b.edges[j].child, n, depth - 1))
  }

  /**
    The value of a valid tree is always an ordinary score, and it is the leaf
    score, for the root's perspective, of a position reachable within `depth`
    moves: the perspective never changes on the way down.
   */
  lemma {:induction false} ValueIsReachableLeaf(b: Board, depth: nat, player: Color, leaf: (Board, Color) -> real)
    requires Valid(b)
    ensures Value(b, depth, player, leaf).Fin?
    ensures exists n :: Reaches(b, n, depth) && Value(b, depth, player, leaf) == Fin(leaf(n, player))
    decreases b
  {
    if depth == 0 || b.gameOver {
      assert Reaches(b, b, depth);
    } else {
      var j :| 0 <= j < |b.edges| && Value(b, depth, player, leaf) == ChildValue(b, depth, player, leaf, j);
      var c := b.edges[j].child;
      ValueIsReachableLeaf(c, depth - 1, player, leaf);
      var n :| Reaches(c, n, depth - 1) && Value(c, depth - 1, player, leaf) == Fin(leaf(n, player));
      assert Reaches(b, n, depth);
    }
  }

  /** Extending the scan by one child can only improve the best value for the side to move. */
  lemma ExtremeMonotone(b: Board, depth: nat, player: Color, leaf: (Board, Color) -> real, n: nat)
    requires 0 < depth && 0 < n <= |b.edges|
    ensures Maximizing(b, player) ==> Le(Extreme(b, depth, player, leaf, n - 1), Extreme(b, depth, player, leaf, n))
    ensures !Maximizing(b, player) ==> Le(Extreme(b, depth, player, leaf, n), Extreme(b, depth, player, leaf, n - 1))
  {
  }
}
