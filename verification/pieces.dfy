/**
 Piece kinds, their material values, and the occupancy part of a board.

 A bitboard of the chess library is modelled as the set of squares whose bit
 is set.
 */
module Pieces {

  /** Squares are numbered 0..63, as `Square::index()` numbers them. */
  type Square = x: int | 0 <= x < 64

  datatype Color = White | Black {
    /** The opposite colour, the library's `~color`. */
    function Other(): Color {
      if this == White then Black else White
    }
  }

  datatype PieceType = Pawn | Knight | Bishop | Rook | Queen | King | NoPiece

  const PAWN_VALUE: int := 1
  const KNIGHT_VALUE: int := 3
  const BISHOP_VALUE: int := 3
  const ROOK_VALUE: int := 5
  const QUEEN_VALUE: int := 9
  /** The king's value doubles as the mate score and the root window bound. */
  const KING_VALUE: int := 1000

  /** The value of a piece kind; a missing piece is worth nothing. */
  function PieceValue(t: PieceType): (v: int)
    ensures 0 <= v <= KING_VALUE
    ensures v == 0 <==> t == NoPiece
    ensures v == KING_VALUE <==> t == King
    ensures t != King ==> v <= QUEEN_VALUE
    ensures t == Knight || t == Bishop ==> v == 3 * PAWN_VALUE
    ensures t == Pawn ==> v == PAWN_VALUE
    ensures t == Knight ==> v == KNIGHT_VALUE
    ensures t == Bishop ==> v == BISHOP_VALUE
    ensures t == Rook ==> v == ROOK_VALUE
    ensures t == Queen ==> v == QUEEN_VALUE
  {
    match t
    case Pawn => PAWN_VALUE
    case Bishop => BISHOP_VALUE
    case Rook => ROOK_VALUE
    case Queen => QUEEN_VALUE
    case Knight => KNIGHT_VALUE
    case King => KING_VALUE
    case NoPiece => 0
  }

  /**
   Which squares hold a piece of each kind, of either colour: the
   chess library's `board.pieces(t)` bitboards, as square sets. This is
   the view of a `Board` the move orderer reads; the evaluator reads piece
   counts instead (`Evaluation.Position`), and the two are not linked.
   */
  datatype Occupancy = Occupancy(
    pawns: set<Square>,
    knights: set<Square>,
    bishops: set<Square>,
    rooks: set<Square>,
    queens: set<Square>,
    kings: set<Square>)
  {
    /** `board.pieces(t)`: the squares holding a piece of kind `t`. */
    function Pieces(t: PieceType): set<Square> {
      match t
      case Pawn => pawns
      case Knight => knights
      case Bishop => bishops
      case Rook => rooks
      case Queen => queens
      case King => kings
      case NoPiece => {}
    }
  }

  /**
   The order in which the piece kind on a square is looked up: pawn, bishop,
   knight, rook, queen, king.
   */
  function LookupRank(t: PieceType): nat {
    match t
    case Pawn => 0
    case Bishop => 1
    case Knight => 2
    case Rook => 3
    case Queen => 4
    case King => 5
    case NoPiece => 6
  }

  /**
   The kind of piece standing on `sq`, ignoring colour. When the kind sets
   overlap, the kind looked up first wins.
   */
  function PieceTypeAt(b: Occupancy, sq: Square): (r: PieceType)
    ensures r == NoPiece ==> forall t: PieceType :: sq !in b.Pieces(t)
    ensures r != NoPiece ==> sq in b.Pieces(r)
    ensures forall t: PieceType :: LookupRank(t) < LookupRank(r) ==> sq !in b.Pieces(t)
  {
    if sq in b.pawns then Pawn
    else if sq in b.bishops then Bishop
    else if sq in b.knights then Knight
    else if sq in b.rooks then Rook
    else if sq in b.queens then Queen
    else if sq in b.kings then King
    else NoPiece
  }
}
