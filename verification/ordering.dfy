/**
 Move ordering: the most-valuable-victim / least-valuable-attacker guess and
 the descending sort every search node applies before exploring its moves.
 */
module Ordering {
  import opened Pieces

  /** The move types the chess library distinguishes. */
  datatype MoveKind = Normal | Promotion(piece: PieceType) | EnPassant | Castling

  /** A move descriptor; its ordering score is computed, not stored. */
  datatype Move = Move(from: Square, to: Square, kind: MoveKind)

  /** The move-type flag `Move::PROMOTION`: type code 1 in the two top bits of 16. */
  const PROMOTION_FLAG: int := 0x4000

  /** The type code the library keeps in bits 14 and 15 of a move. */
  function TypeCode(k: MoveKind): (c: nat)
    ensures c < 4
  {
    match k
    case Normal => 0
    case Promotion(_) => 1
    case EnPassant => 2
    case Castling => 3
  }

  /**
   The promotion piece as kept in bits 12 and 13: its offset from the
   knight. Only a knight, bishop, rook or queen can be promoted to; other
   kinds, and moves that do not promote, keep 0 there.
   */
  function PromotionCode(k: MoveKind): (c: nat)
    ensures c < 4
  {
    if !k.Promotion? then 0
    else match k.piece
      case Bishop => 1
      case Rook => 2
      case Queen => 3
      case _ => 0
  }

  /**
   The library's 16-bit move word: type, promotion piece, origin square in
   bits 6 to 11 and destination square in bits 0 to 5.
   */
  function Encode(m: Move): (w: nat)
    ensures w < 0x1_0000
    ensures w % 64 == m.to && (w / 64) % 64 == m.from
  {
    TypeCode(m.kind) * 0x4000 + PromotionCode(m.kind) * 0x1000 + m.from * 64 + m.to
  }

  /** `move.promotionType()`: the piece decoded from bits 12 and 13. */
  function PromotionTypeOf(m: Move): (t: PieceType)
    ensures t in {Knight, Bishop, Rook, Queen}
    ensures m.kind.Promotion? && m.kind.piece in {Knight, Bishop, Rook, Queen} ==> t == m.kind.piece
  {
    var code := (Encode(m) / 0x1000) % 4;
    if code == 0 then Knight else if code == 1 then Bishop else if code == 2 then Rook else Queen
  }

  /**
   The test `move == Move::PROMOTION` as written: the whole move word is
   compared with the bare flag, which only a move from and to square 0
   (a1) promoting to a knight carries.
   */
  predicate EqualsPromotionFlag(m: Move) {
    Encode(m) == PROMOTION_FLAG
  }

  /** A move whose word is the bare promotion flag goes nowhere: it starts and ends on a1. */
  lemma PromotionFlagGoesNowhere(m: Move)
    requires EqualsPromotionFlag(m)
    ensures m.from == 0 && m.to == 0 && m.kind == Promotion(m.kind.piece)
  {
  }

  /**
   The ordering guess for `m` on board `b`, as the code computes it.
   `toAttacked` is the chess library's answer to whether the destination is
   attacked by the side not to move, asked on the board before the move.
   The promotion bonus depends on `move == Move::PROMOTION`, so a move that
   changes square never receives it.
   */
  function ScoreMove(b: Occupancy, m: Move, toAttacked: bool): (score: int)
    ensures m.from != m.to ==> score == CaptureTerm(b, m) - AttackedTerm(b, m, toAttacked)
    ensures m.from != m.to && PieceTypeAt(b, m.to) == NoPiece && !toAttacked ==> score == 0
    ensures EqualsPromotionFlag(m) ==> score == CaptureTerm(b, m) + PieceValue(Knight) - AttackedTerm(b, m, toAttacked)
  {
    var fromType := PieceTypeAt(b, m.from);
    var toType := PieceTypeAt(b, m.to);
    var guess := if toType != NoPiece then 10 * PieceValue(toType) - PieceValue(fromType) else 0;
    var guess' := if EqualsPromotionFlag(m) then guess + PieceValue(PromotionTypeOf(m)) else guess;
    if toAttacked then guess' - PieceValue(fromType) else guess'
  }

  /**
   The ordering guess as evidently intended: the promotion bonus goes to
   every promoting move, as the type test `move.typeOf() == Move::PROMOTION`
   would grant it.
   */
  function ScoreMoveIntended(b: Occupancy, m: Move, toAttacked: bool): (score: int)
    ensures PieceTypeAt(b, m.to) == NoPiece && !m.kind.Promotion? && !toAttacked ==> score == 0
    ensures score == CaptureTerm(b, m) + PromotionTerm(m) - AttackedTerm(b, m, toAttacked)
  {
    var fromType := PieceTypeAt(b, m.from);
    var toType := PieceTypeAt(b, m.to);
    var guess := if toType != NoPiece then 10 * PieceValue(toType) - PieceValue(fromType) else 0;
    var guess' := if m.kind.Promotion? then guess + PieceValue(PromotionTypeOf(m)) else guess;
    if toAttacked then guess' - PieceValue(fromType) else guess'
  }

  /** What an occupied destination contributes: ten times the victim less the attacker. */
  function CaptureTerm(b: Occupancy, m: Move): int {
    var victim := PieceTypeAt(b, m.to);
    if victim == NoPiece then 0 else 10 * PieceValue(victim) - PieceValue(PieceTypeAt(b, m.from))
  }

  /** What a promotion contributes: the value of the piece promoted to. */
  function PromotionTerm(m: Move): int {
    if m.kind.Promotion? then PieceValue(PromotionTypeOf(m)) else 0
  }

  /** What an attacked destination costs: the value of the moving piece. */
  function AttackedTerm(b: Occupancy, m: Move, toAttacked: bool): int {
    if toAttacked then PieceValue(PieceTypeAt(b, m.from)) else 0
  }

  /**
   The promotion bonus is lost as written: a pawn on e7 of an otherwise
   empty board promoting to a queen on e8, an unattacked empty square,
   scores 0, where the intended guess is a queen's value.
   */
  lemma PromotionBonusLost()
    ensures var b := Occupancy({52}, {}, {}, {}, {}, {});
      var m := Move(52, 60, Promotion(Queen));
      ScoreMove(b, m, false) == 0 && ScoreMoveIntended(b, m, false) == QUEEN_VALUE
  {
    var b := Occupancy({52}, {}, {}, {}, {}, {});
    var m := Move(52, 60, Promotion(Queen));
    assert PieceTypeAt(b, m.to) == NoPiece;
    assert Encode(m) == 0x4000 + 3 * 0x1000 + 52 * 64 + 60;
  }

  /**
   With the type test, a promotion to a queen outranks the same move
   promoting to anything less, and every promotion gains on the as-written
   guess by exactly the promoted piece's value.
   */
  lemma PromotionBonusIntended(b: Occupancy, m: Move, toAttacked: bool)
    requires m.kind.Promotion? && m.from != m.to
    ensures ScoreMoveIntended(b, m, toAttacked) == ScoreMove(b, m, toAttacked) + PieceValue(PromotionTypeOf(m))
    ensures ScoreMoveIntended(b, m, toAttacked) > ScoreMove(b, m, toAttacked)
    ensures m.kind.piece != Queen ==> ScoreMoveIntended(b, m.(kind := Promotion(Queen)), toAttacked) > ScoreMoveIntended(b, m, toAttacked)
  {
  }

  /**
   Most valuable victim first: among non-promoting captures to unattacked
   destinations by attackers other than the king, a more valuable victim always
   outranks a less valuable one, whoever the attackers are.
   */
  lemma MostValuableVictimFirst(b: Occupancy, m1: Move, m2: Move)
    requires !m1.kind.Promotion? && !m2.kind.Promotion?
    requires PieceTypeAt(b, m1.from) != King && PieceTypeAt(b, m2.from) != King
    requires PieceTypeAt(b, m2.to) != NoPiece
    requires PieceValue(PieceTypeAt(b, m1.to)) > PieceValue(PieceTypeAt(b, m2.to))
    ensures ScoreMove(b, m1, false) > ScoreMove(b, m2, false)
  {
  }

  /**
   Least valuable attacker first: for the same victim and the same
   destination status, capturing with a cheaper piece never scores lower,
   both as written and as intended. The costlier capture changes square,
   as every chess move does, so the as-written guess gives it no bonus.
   */
  lemma LeastValuableAttackerFirst(b: Occupancy, m1: Move, m2: Move, toAttacked: bool)
    requires m1.to == m2.to && m1.kind == m2.kind
    requires m2.from != m2.to
    requires PieceTypeAt(b, m1.to) != NoPiece
    requires PieceValue(PieceTypeAt(b, m1.from)) <= PieceValue(PieceTypeAt(b, m2.from))
    ensures ScoreMove(b, m1, toAttacked) >= ScoreMove(b, m2, toAttacked)
    ensures ScoreMoveIntended(b, m1, toAttacked) >= ScoreMoveIntended(b, m2, toAttacked)
  {
  }

  /**
   The sort comparator: `a` goes before `b` when its key is strictly
   greater.
   */
  predicate CompareMoves<T>(key: T -> int, a: T, b: T) {
    key(a) > key(b)
  }

  /**
   What `std::sort` promises with comparator `CompareMoves`: no element
   compares before an element that precedes it, so keys never increase.
   */
  predicate SortedByScore<T>(s: seq<T>, key: T -> int) {
    forall i, j :: 0 <= i < j < |s| ==> !CompareMoves(key, s[j], s[i])
  }

  /** Inserts `x` into a sequence already sorted by descending key. */
  function Insert<T>(x: T, s: seq<T>, key: T -> int): (r: seq<T>)
    requires SortedByScore(s, key)
    ensures SortedByScore(r, key)
    ensures multiset(r) == multiset(s) + multiset{x}
    ensures |r| == |s| + 1
    ensures |s| > 0 ==> r[0] == x || r[0] == s[0]
  {
    if |s| == 0 || key(x) >= key(s[0]) then
      [x] + s
    else
      var rest := Insert(x, s[1..], key);
      assert multiset(s) == multiset{s[0]} + multiset(s[1..]) by {
        assert s == [s[0]] + s[1..];
      }
      [s[0]] + rest
  }

  /**
   Orders `s` by descending key; the result is a permutation of `s`.
   `std::sort` promises no order among equal keys; the model fixes one.
   The search results do not depend on it; at the root, equally scored
   moves with equal evaluations can be picked in either order, and the
   root selection states what holds for every order.
   */
  function SortByScore<T>(s: seq<T>, key: T -> int): (r: seq<T>)
    ensures SortedByScore(r, key)
    ensures multiset(r) == multiset(s)
    ensures |r| == |s|
  {
    if |s| == 0 then []
    else
      assert s == [s[0]] + s[1..];
      Insert(s[0], SortByScore(s[1..], key), key)
  }
}
