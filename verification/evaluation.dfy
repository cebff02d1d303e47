/**
  The static evaluator: material balance and mobility, each normalised
  (chessai/evaluation.py).
 */
module Evaluation {
  import opened Chess

  /** The material of one side's full starting army: 8 + 2*3 + 2*3 + 2*5 + 9. */
  const MaxMaterial: nat := 39

  /** The sentinel magnitude for a decided game. */
  const MateScore: real := 9999.0

  function PieceValue(k: PieceType): nat {
    match k
    case Pawn => 1
    case Knight => 3
    case Bishop => 3
    case Rook => 5
    case Queen => 9
    case King => 0
  }

  /** A piece's value, counted for `player` if it is theirs and against them otherwise. */
  function Signed(p: Piece, player: Color): int {
    if p.color == player then PieceValue(p.kind) as int else -(PieceValue(p.kind) as int)
  }

  /** The running sum over the occupied squares, in iteration order. */
  function Material(pieces: seq<Piece>, player: Color): int {
    if |pieces| == 0 then 0
    else Material(pieces[..|pieces| - 1], player) + Signed(pieces[|pieces| - 1], player)
  }

  function EvaluateMaterial(b: Board, player: Color): real {
    if b.checkmate then (if b.turn == player then -MateScore else MateScore)
    else if b.gameOver then -MateScore
    else Material(b.pieces, player) as real / MaxMaterial as real
  }

  /** The number of legal moves of the side to move; `player` plays no part. */
  function EvaluateMobility(b: Board, player: Color): real {
    |b.edges| as real / MaxLegalMoves as real
  }

  /*** Reference definition of the material balance, by piece counts ***/

  /** How many more pieces of kind `k` `player` has than the opponent. */
  function Surplus(pieces: seq<Piece>, player: Color, k: PieceType): int {
    multiset(pieces)[Piece(player, k)] as int - multiset(pieces)[Piece(Opponent(player), k)] as int
  }

  /** Each kind's surplus weighted by its value, summed over the six kinds. */
  function Balance(pieces: seq<Piece>, player: Color): int {
    Weighted(pieces, player, Pawn) + Weighted(pieces, player, Knight) + Weighted(pieces, player, Bishop)
    + Weighted(pieces, player, Rook) + Weighted(pieces, player, Queen) + Weighted(pieces, player, King)
  }

  /** Adding one piece changes the surplus of its own kind only, by one either way. */
  lemma SurplusAppend(init: seq<Piece>, last: Piece, player: Color, k: PieceType)
    ensures last.kind != k ==> Surplus(init + [last], player, k) == Surplus(init, player, k)
    ensures last == Piece(player, k) ==> Surplus(init + [last], player, k) == Surplus(init, player, k) + 1
    ensures last == Piece(Opponent(player), k) ==> Surplus(init + [last], player, k) == Surplus(init, player, k) - 1
  {
    assert multiset(init + [last]) == multiset(init) + multiset{last};
  }

  /** Each kind's contribution to the balance. */
  function Weighted(pieces: seq<Piece>, player: Color, k: PieceType): int {
    PieceValue(k) * Surplus(pieces, player, k)
  }

  lemma WeightedAppend(init: seq<Piece>, last: Piece, player: Color, k: PieceType)
    ensures Weighted(init + [last], player, k)
         == Weighted(init, player, k) + (if last.kind == k then Signed(last, player) else 0)
  {
    SurplusAppend(init, last, player, k);
    if last.kind == k {
      if last.color == player {
        assert last == Piece(player, k);
      } else {
        assert last == Piece(Opponent(player), k);
      }
    }
  }

  lemma BalanceAppend(init: seq<Piece>, last: Piece, player: Color)
    ensures Balance(init + [last], player) == Balance(init, player) + Signed(last, player)
  {
    WeightedAppend(init, last, player, Pawn);
    WeightedAppend(init, last, player, Knight);
    WeightedAppend(init, last, player, Bishop);
    WeightedAppend(init, last, player, Rook);
    WeightedAppend(init, last, player, Queen);
    WeightedAppend(init, last, player, King);
  }

  /** The square-by-square sum equals the count-based balance. */
  lemma {:induction false} MaterialIsBalance(pieces: seq<Piece>, player: Color)
    ensures Material(pieces, player) == Balance(pieces, player)
    decreases |pieces|
  {
    if |pieces| > 0 {
      var init, last := pieces[..|pieces| - 1], pieces[|pieces| - 1];
      MaterialIsBalance(init, player);
      assert pieces == init + [last];
      BalanceAppend(init, last, player);
    }
  }

  /** The material sum depends only on which pieces stand on the board, not where. */
  lemma MaterialIgnoresOrder(pieces: seq<Piece>, others: seq<Piece>, player: Color)
    requires multiset(pieces) == multiset(others)
    ensures Material(pieces, player) == Material(others, player)
  {
    MaterialIsBalance(pieces, player);
    MaterialIsBalance(others, player);
  }

  /** Swapping perspective negates the material sum. */
  lemma {:induction false} MaterialAntisymmetric(pieces: seq<Piece>, player: Color)
    ensures Material(pieces, Opponent(player)) == -Material(pieces, player)
    decreases |pieces|
  {
    if |pieces| > 0 {
      MaterialAntisymmetric(pieces[..|pieces| - 1], player);
    }
  }

  /** Each piece moves the sum by at most a queen's value. */
  lemma {:induction false} MaterialBounded(pieces: seq<Piece>, player: Color)
    ensures -9 * |pieces| <= Material(pieces, player) <= 9 * |pieces|
    decreases |pieces|
  {
    if |pieces| > 0 {
      MaterialBounded(pieces[..|pieces| - 1], player);
    }
  }

  /*** Properties of the evaluator ***/

  /** At a checkmate the mated side (the side to move) scores -9999 and the other side +9999. */
  lemma CheckmateSentinels(b: Board, player: Color)
    requires b.checkmate
    ensures EvaluateMaterial(b, player) == -EvaluateMaterial(b, Opponent(player))
    ensures EvaluateMaterial(b, player) == MateScore <==> player != b.turn
    ensures EvaluateMaterial(b, player) == -MateScore <==> player == b.turn
  {
  }

  /** Every other finished game (stalemate, insufficient material, ...) scores -9999 for both sides. */
  lemma DrawScoredAsLoss(b: Board, player: Color)
    requires b.gameOver && !b.checkmate
    ensures EvaluateMaterial(b, player) == EvaluateMaterial(b, Opponent(player)) == -MateScore
  {
  }

  /** In a running game the two perspectives see opposite material scores. */
  lemma MaterialScoreAntisymmetric(b: Board)
    requires !b.checkmate && !b.gameOver
    ensures EvaluateMaterial(b, White) == -EvaluateMaterial(b, Black)
  {
    MaterialAntisymmetric(b.pieces, White);
  }

  /** Armies equal in every kind except possibly the king. */
  predicate EqualArmies(pieces: seq<Piece>) {
    forall k :: k != King ==> multiset(pieces)[Piece(White, k)] == multiset(pieces)[Piece(Black, k)]
  }

  /** Equal armies give a level score for both sides, however many kings stand. */
  lemma EqualArmiesScoreLevel(b: Board)
    requires !b.checkmate && !b.gameOver
    requires EqualArmies(b.pieces)
    ensures EvaluateMaterial(b, White) == 0.0
    ensures EvaluateMaterial(b, Black) == 0.0
  {
    assert Surplus(b.pieces, White, Pawn) == 0;
    assert Surplus(b.pieces, White, Knight) == 0;
    assert Surplus(b.pieces, White, Bishop) == 0;
    assert Surplus(b.pieces, White, Rook) == 0;
    assert Surplus(b.pieces, White, Queen) == 0;
    assert Surplus(b.pieces, Black, Pawn) == 0;
    assert Surplus(b.pieces, Black, Knight) == 0;
    assert Surplus(b.pieces, Black, Bishop) == 0;
    assert Surplus(b.pieces, Black, Rook) == 0;
    assert Surplus(b.pieces, Black, Queen) == 0;
    MaterialIsBalance(b.pieces, White);
    MaterialIsBalance(b.pieces, Black);
  }

  /** One more enemy piece of kind `k`, anywhere, costs `player` exactly value(k)/39. */
  lemma ExtraEnemyPiece(b: Board, player: Color, k: PieceType, i: nat)
    requires !b.checkmate && !b.gameOver
    requires i <= |b.pieces|
    ensures var more := b.(pieces := b.pieces[..i] + [Piece(Opponent(player), k)] + b.pieces[i..]);
      && EvaluateMaterial(more, player) == EvaluateMaterial(b, player) - PieceValue(k) as real / MaxMaterial as real
      && EvaluateMaterial(more, Opponent(player)) == EvaluateMaterial(b, Opponent(player)) + PieceValue(k) as real / MaxMaterial as real
  {
    var p := Piece(Opponent(player), k);
    var more := b.pieces[..i] + [p] + b.pieces[i..];
    var moved := b.pieces + [p];
    assert b.pieces == b.pieces[..i] + b.pieces[i..];
    assert multiset(more) == multiset(moved);
    MaterialIgnoresOrder(more, moved, player);
    MaterialIgnoresOrder(more, moved, Opponent(player));
    assert moved[..|moved| - 1] == b.pieces;
  }

  /** Ordinary material scores stay far inside the sentinels: at most 64 * 9 / 39 in size. */
  lemma MaterialBelowSentinels(b: Board, player: Color)
    requires Valid(b) && !b.gameOver
    ensures -576.0 / 39.0 <= EvaluateMaterial(b, player) <= 576.0 / 39.0
    ensures -MateScore < EvaluateMaterial(b, player) < MateScore
  {
    MaterialBounded(b.pieces, player);
  }

  /** Mobility is the same for both perspectives, lies in [0, 1], and is 0 exactly when no move is legal. */
  lemma MobilityProperties(b: Board, player: Color)
    ensures EvaluateMobility(b, player) == EvaluateMobility(b, Opponent(player))
    ensures 0.0 <= EvaluateMobility(b, player)
    ensures EvaluateMobility(b, player) == 0.0 <==> |LegalMoves(b)| == 0
    ensures Valid(b) ==> EvaluateMobility(b, player) <= 1.0
  {
  }

  /** The same pieces with every colour swapped. */
  function Recolor(pieces: seq<Piece>): (r: seq<Piece>)
    ensures |r| == |pieces|
    ensures forall i :: 0 <= i < |pieces| ==> r[i] == Piece(Opponent(pieces[i].color), pieces[i].kind)
  {
    seq(|pieces|, i requires 0 <= i < |pieces| => Piece(Opponent(pieces[i].color), pieces[i].kind))
  }

  lemma {:induction false} MaterialOfRecolor(pieces: seq<Piece>, player: Color)
    ensures Material(Recolor(pieces), player) == -Material(pieces, player)
    decreases |pieces|
  {
    if |pieces| > 0 {
      var n := |pieces|;
      assert Recolor(pieces)[..n - 1] == Recolor(pieces[..n - 1]);
      MaterialOfRecolor(pieces[..n - 1], player);
    }
  }

  lemma {:induction false} MaterialOfConcat(front: seq<Piece>, back: seq<Piece>, player: Color)
    ensures Material(front + back, player) == Material(front, player) + Material(back, player)
    decreases |back|
  {
    if |back| > 0 {
      var n, whole := |back|, front + back;
      assert whole[..|whole| - 1] == front + back[..n - 1];
      assert whole[|whole| - 1] == back[n - 1];
      MaterialOfConcat(front, back[..n - 1], player);
    } else {
      assert front + back == front;
    }
  }

  const WhiteBackRank: seq<Piece> :=
    [ Piece(White, Rook), Piece(White, Knight), Piece(White, Bishop), Piece(White, Queen),
      Piece(White, King), Piece(White, Bishop), Piece(White, Knight), Piece(White, Rook) ]

  const WhitePawns: seq<Piece> := seq(8, _ => Piece(White, Pawn))

  /** The standard starting position, square a1 to h8: black mirrors white. */
  const StartPieces: seq<Piece> :=
    WhiteBackRank + WhitePawns + Recolor(WhitePawns) + Recolor(WhiteBackRank)

  lemma StartPositionLevel(b: Board)
    requires !b.checkmate && !b.gameOver && b.pieces == StartPieces
    ensures EvaluateMaterial(b, White) == 0.0 && EvaluateMaterial(b, Black) == 0.0
  {
    var front := WhiteBackRank + WhitePawns;
    var back := Recolor(WhitePawns) + Recolor(WhiteBackRank);
    assert StartPieces == front + back;
    MaterialOfConcat(front, back, White);
    MaterialOfConcat(WhiteBackRank, WhitePawns, White);
    MaterialOfConcat(Recolor(WhitePawns), Recolor(WhiteBackRank), White);
    MaterialOfRecolor(WhitePawns, White);
    MaterialOfRecolor(WhiteBackRank, White);
    MaterialAntisymmetric(StartPieces, White);
  }

  /** White king h1, black queen h7, black king h8: the queen is worth 9/39, not 9. */
  lemma LoneQueenScore(b: Board)
    requires !b.checkmate && !b.gameOver
    requires b.pieces == [Piece(White, King), Piece(Black, Queen), Piece(Black, King)]
    ensures EvaluateMaterial(b, White) == -9.0 / 39.0
    ensures EvaluateMaterial(b, Black) == 9.0 / 39.0
  {
    var s := b.pieces;
    assert s[..2] == [Piece(White, King), Piece(Black, Queen)];
    assert s[..2][..1] == [Piece(White, King)];
    assert s[..2][..1][..0] == [];
    assert Material(s[..2][..1], White) == 0;
    assert Material(s[..2], White) == -9;
    assert Material(s, White) == -9;
    MaterialAntisymmetric(s, White);
  }
}
