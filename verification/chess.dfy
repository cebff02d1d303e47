/**
  The part of the python-chess rules engine that the search core consumes,
  abstracted as an immutable game-tree node.

  A `Board` records the side to move, the pieces standing on occupied squares
  (in ascending square order, the order `chess.SquareSet` iterates them), the
  engine's checkmate and game-over verdicts, and the legal moves in the order
  the engine enumerates them, each paired with the position it leads to.
  Making a move is stepping to that child; taking it back is stepping back.
 */
module Chess {
  import opened Wrappers

  datatype Color = White | Black

  function Opponent(c: Color): Color {
    if c == White then Black else White
  }

  datatype PieceType = Pawn | Knight | Bishop | Rook | Queen | King

  datatype Piece = Piece(color: Color, kind: PieceType)

  /** A move compares by value: origin square, target square, optional promotion. */
  datatype Move = Move(origin: nat, target: nat, promotion: Option<PieceType>)

  datatype Board = Board(
    turn: Color,
    pieces: seq<Piece>,
    checkmate: bool,
    gameOver: bool,
    edges: seq<Edge>)

  /** One legal move and the position after it has been pushed. */
  datatype Edge = Edge(move: Move, child: Board)

  /** A chessboard has 64 squares. */
  const Squares: nat := 64

  /** No chess position has more than 218 legal moves. */
  const MaxLegalMoves: nat := 218

  function LegalMoves(b: Board): (ms: seq<Move>)
    ensures |ms| == |b.edges|
    ensures forall i :: 0 <= i < |b.edges| ==> ms[i] == b.edges[i].move
  {
    seq(|b.edges|, i requires 0 <= i < |b.edges| => b.edges[i].move)
  }

  /**
    The facts about the rules engine that the search relies on, holding at
    every node of the tree: checkmate is one way the game ends; a mated side
    has no legal move; a game that is not over has a legal move; every move
    hands the turn to the other side; and the board and move-count bounds
    of chess.
   */
  predicate Valid(b: Board)
    decreases b
  {
    && |b.pieces| <= Squares
    && |b.edges| <= MaxLegalMoves
    && (b.checkmate ==> b.gameOver)
    && (b.checkmate ==> |b.edges| == 0)
    && (!b.gameOver ==> |b.edges| > 0)
    && (forall i :: 0 <= i < |b.edges| ==>
          b.edges[i].child.turn == Opponent(b.turn) && Valid(b.edges[i].child))
  }
}
