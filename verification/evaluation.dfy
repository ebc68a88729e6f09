/**
 The static evaluator: material count only, scored for the side to move.
 */
module Evaluation {
  import opened Pieces

  /**
   How many pieces of each kind one side has: the bit counts of the chess
   library's `board.pieces(t) & board.us(side)`.
   */
  datatype Material = Material(pawns: nat, knights: nat, bishops: nat, rooks: nat, queens: nat, kings: nat)

  /**
   What the evaluator reads of the chess library's `Board`: both sides'
   piece counts and the side to move. It is a second view of the same
   board as `Occupancy`, which keeps the squares the move orderer reads;
   the two views are not linked here.
   */
  datatype Position = Position(white: Material, black: Material, sideToMove: Color) {
    /** `board.us(side)`, counted per kind. */
    function Us(side: Color): Material {
      if side == White then white else black
    }
  }

  /** A side has no pawn, knight, bishop, rook or queen. */
  predicate NoMaterial(m: Material) {
    m.pawns == 0 && m.knights == 0 && m.bishops == 0 && m.rooks == 0 && m.queens == 0
  }

  /**
   The material of one side: piece count times piece value, summed over
   pawn, knight, bishop, rook and queen; kings are left out.
   */
  function CountMaterial(p: Position, side: Color): (m: int)
    ensures m >= 0
    ensures m == 0 <==> NoMaterial(p.Us(side))
  {
    var us := p.Us(side);
    us.pawns * PAWN_VALUE + us.knights * KNIGHT_VALUE + us.bishops * BISHOP_VALUE
      + us.rooks * ROOK_VALUE + us.queens * QUEEN_VALUE
  }

  /**
   The static evaluation, positive when the side to move is ahead in
   material.
   */
  function Evaluate(p: Position): (e: int)
    ensures e == CountMaterial(p, p.sideToMove) - CountMaterial(p, p.sideToMove.Other())
  {
    var evaluation := CountMaterial(p, White) - CountMaterial(p, Black);
    if p.sideToMove == White then evaluation else -evaluation
  }

  /** Passing the move to the other side, and nothing else, negates the evaluation. */
  lemma EvaluateFlipSide(p: Position)
    ensures Evaluate(p.(sideToMove := p.sideToMove.Other())) == -Evaluate(p)
  {
  }

  /**
   Swapping the colours of all pieces together with the side to move leaves
   the evaluation unchanged: it depends only on the mover's point of view.
   */
  lemma EvaluateColourSymmetric(p: Position)
    ensures Evaluate(Position(p.black, p.white, p.sideToMove.Other())) == Evaluate(p)
  {
  }

  /** Kings are not material: how many each side has changes nothing. */
  lemma KingsAreNotMaterial(p: Position, whiteKings: nat, blackKings: nat)
    ensures var p' := p.(white := p.white.(kings := whiteKings), black := p.black.(kings := blackKings));
      && CountMaterial(p', White) == CountMaterial(p, White)
      && CountMaterial(p', Black) == CountMaterial(p, Black)
      && Evaluate(p') == Evaluate(p)
  {
  }

  /** How many pieces one side has, kings included. */
  function Total(m: Material): nat {
    m.pawns + m.knights + m.bishops + m.rooks + m.queens + m.kings
  }

  /** A position a 64-square board can hold: at most one piece per square. */
  predicate OnBoard(p: Position) {
    Total(p.white) + Total(p.black) <= 64
  }

  /** The positions an actual board gives the evaluator. */
  type BoardPosition = p: Position | OnBoard(p)
    witness Position(Material(0, 0, 0, 0, 0, 0), Material(0, 0, 0, 0, 0, 0), White)

  /**
   On a board the evaluation stays within ±576: no piece is worth more
   than a queen, and there are at most 64 pieces.
   */
  lemma EvaluateOnBoard(p: Position)
    requires OnBoard(p)
    ensures -QUEEN_VALUE * 64 <= Evaluate(p) <= QUEEN_VALUE * 64
  {
    assert CountMaterial(p, White) <= QUEEN_VALUE * Total(p.white);
    assert CountMaterial(p, Black) <= QUEEN_VALUE * Total(p.black);
  }

  /** At most 64 pieces of one kind fit on the board. */
  predicate FitsOnBoard(m: Material) {
    m.pawns <= 64 && m.knights <= 64 && m.bishops <= 64 && m.rooks <= 64 && m.queens <= 64
  }

  /**
   With bit counts of 64-bit boards, the evaluation stays within a few
   thousand, far from the limits of a 32-bit `int`.
   */
  lemma EvaluateBounded(p: Position)
    requires FitsOnBoard(p.white) && FitsOnBoard(p.black)
    ensures -21 * 64 <= Evaluate(p) <= 21 * 64
  {
  }
}
