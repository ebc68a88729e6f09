# ChessReview engine core, modelled in Dafny

ChessReview is a small chess engine with a command-line driver. Its `main`
replays a fixed list of moves and, after each one, prints the value the
engine's `search` gives the position (`src/main.cpp:153-179`). The driver
also defines `split`, `getPGN` and `parsePGN`, which read the movetext of a
game downloaded from a chess server. The calls that fetch and parse a game
are commented out in `main` (`src/main.cpp:136-151`), so those functions
are defined but never called. `findBestMove`, the root move selection, is
likewise defined but not called by `main`. This project models the engine
and the movetext reading:

- **Pieces** (`pieces.dfy`): the piece values (`PAWN_VALUE` … `KING_VALUE`)
  and `getPieceType`, which looks up the kind of piece on a square. The
  per-kind bitboards are modelled as square sets.
- **Evaluation** (`evaluation.dfy`): `countMaterial` and `evaluate`. This is
  the material balance from the side to move's point of view, with kings
  not counted. The bitboard population counts become per-kind piece counts.
- **Ordering** (`ordering.dfy`): `calculateMoveScore`, the
  most-valuable-victim / least-valuable-attacker guess. Also
  `compareMoves` and the descending sort built on it.
- **AlphaBeta** (`search.dfy`): `captureSearch`, a quiescence search with
  stand-pat, and `search`, a fixed-depth fail-hard negamax with alpha-beta
  pruning. Both run over a finite game tree. Each node holds:
  - what the evaluator reads;
  - whether the mover is in check;
  - its legal moves and its captures.

  Each move carries its ordering score and the child position it leads
  to. Two reference definitions without window or pruning sit beside the
  searches: `QValue` and `Negamax`. The central results are:
  - the searches return the reference value clamped to their window;
  - they do so whatever order the moves are tried in.
- **Root** (`root.dfy`): `worker` and `findBestMove`. The engine orders the
  root moves and evaluates each one with a full-depth search of its child
  in the window (-KING_VALUE, KING_VALUE). It then keeps the first move
  whose evaluation is strictly the greatest.
- **Pgn** (`pgn.dfy`): `split`, `getPGN` and `parsePGN` from
  `src/main.cpp`:
  - `split` follows `std::getline` semantics;
  - `getPGN` finds the line that starts with `1. `;
  - `parsePGN` extracts the moves from the movetext, skipping move numbers
    and stopping at the result marker.

The static evaluator is a parameter of the search (`Evaluator`), so every
search result holds for any evaluator. The engine passes `EngineEvaluator`,
which is `Evaluate` on the positions a 64-square board can hold
(`BoardPosition`: at most 64 pieces in all).

## Model

| member | source | states |
|---|---|---|
| Pieces.PieceValue | src/bot.cpp:10-30 | Each kind has its constant value: pawn 1, knight 3, bishop 3, rook 5, queen 9, king KING_VALUE. Only a missing piece is worth 0. Only the king is worth KING_VALUE. Every other piece is worth at most a queen. Knight and bishop are worth three pawns. |
| Pieces.PieceTypeAt | src/bot.cpp:60-82 | The result is NoPiece exactly when the square is in no kind's set. Otherwise the square is in the returned kind's set. Every kind tried earlier (pawn, bishop, knight, rook, queen, king) does not hold the square. |
| Evaluation.CountMaterial | src/bot.cpp:32-40 | A side's material is never negative. It is zero exactly when the side has no pawn, knight, bishop, rook or queen. |
| Evaluation.Evaluate | src/bot.cpp:42-54 | The evaluation is the mover's material minus the opponent's. |
| Evaluation.EvaluateFlipSide | src/bot.cpp:48-53 | Handing the move to the other side negates the evaluation. |
| Evaluation.EvaluateColourSymmetric | src/bot.cpp:42-54 | Swapping the colours of all pieces and the side to move leaves the evaluation unchanged. |
| Evaluation.KingsAreNotMaterial | src/bot.cpp:32-40 | The number of kings changes neither side's material nor the evaluation. |
| Evaluation.EvaluateOnBoard | src/bot.cpp:32-54 | On a position with at most 64 pieces, the evaluation lies within ±576, nine points per piece at most. |
| Evaluation.EvaluateBounded | src/bot.cpp:32-54 | With at most 64 pieces of a kind per side, the evaluation lies within ±1344. This is far inside a 32-bit int. |
| Ordering.Encode | src/bot.cpp:93 | The move word that `move == Move::PROMOTION` compares fits in 16 bits and holds the destination in bits 0-5 and the origin in bits 6-11. |
| Ordering.PromotionTypeOf | src/bot.cpp:94 | The decoded promotion piece is a knight, bishop, rook or queen. For a promotion to one of these, it is the piece promoted to. |
| Ordering.PromotionFlagGoesNowhere | src/bot.cpp:93 | Only a move from a1 to a1 that promotes has a word equal to the bare promotion flag. |
| Ordering.ScoreMove | src/bot.cpp:84-102 | As written. For every move that changes square, the score is the capture term (ten times the victim minus the attacker) minus the mover's value when the destination is attacked. No promotion bonus is added, because the whole move is compared with the flag. A quiet move to an unattacked square scores 0. Only a move whose word equals the flag would gain a knight's value. |
| Ordering.ScoreMoveIntended | src/bot.cpp:84-102 | As intended. The score is the capture term, plus the promoted piece's value for every promotion, minus the mover's value when the destination is attacked. A quiet non-promoting move to an unattacked square scores 0. |
| Ordering.PromotionBonusLost | src/bot.cpp:93-95 | A pawn promoting to a queen on e7-e8 of an otherwise empty board, to an unattacked square, scores 0 as written and QUEEN_VALUE as intended. |
| Ordering.PromotionBonusIntended | src/bot.cpp:93-95 | For every promotion that changes square, the intended score is the as-written score plus the promoted piece's value. So it is strictly higher, and promoting to a queen outranks promoting to anything else. |
| Ordering.MostValuableVictimFirst | src/bot.cpp:84-102 | Consider non-promoting captures to unattacked squares by pieces other than the king. A more valuable victim always scores higher, whoever the attackers are. |
| Ordering.LeastValuableAttackerFirst | src/bot.cpp:84-102 | Take the same destination, the same move type and the same attack status. A capture by a cheaper piece never scores lower, both as written and as intended. |
| Ordering.SortByScore | src/bot.cpp:56-58 | The result is a permutation of the input. No element goes before an element it compares below under `compareMoves`, so scores never increase along it. |
| AlphaBeta.Order | src/bot.cpp:147-150 | The sorted moves have the same multiset and the same members as the generated moves. Their scores do not increase. |
| AlphaBeta.MateScore | src/bot.cpp:141-146 | The mate score is at least -KING_VALUE. It is negative for every ply below KING_VALUE. |
| AlphaBeta.CaptureSearch | src/bot.cpp:104-132 | A stand-pat score at or above beta returns beta. Otherwise the result is at least max(alpha, stand-pat) and at most beta. With no captures it is exactly max(alpha, stand-pat). |
| AlphaBeta.CaptureLoop | src/bot.cpp:120-131 | The capture loop's result stays within [alpha, beta]. Without captures it returns alpha. |
| AlphaBeta.BestCaptureIsMax | src/bot.cpp:120-131 | The fold over captures is the maximum of the floor and the negated child quiescence values: at least each of them, and equal to one of them. |
| AlphaBeta.StandPatFloor | src/bot.cpp:105-110 | The quiescence value is never below the static evaluation. It equals the evaluation when there is no capture. |
| AlphaBeta.BestCaptureReorder | src/bot.cpp:115-118 | Capture lists with the same members give the same best value, so the sort cannot change it. |
| AlphaBeta.CaptureSearchIsClampedQValue | src/bot.cpp:104-132 | For alpha < beta, the quiescence search returns QValue clamped to [alpha, beta]. |
| AlphaBeta.CaptureLoopIsClamped | src/bot.cpp:120-131 | For alpha < beta, the capture loop returns the best value over its captures clamped to [alpha, beta]. |
| AlphaBeta.CaptureReply | src/bot.cpp:122-128 | A child searched with the negated window fails the parent high exactly when its negated QValue reaches beta. Otherwise it raises alpha exactly as its QValue would. |
| AlphaBeta.Search | src/bot.cpp:134-163 | At depth 0 the search is the quiescence search. A node without legal moves scores -KING_VALUE + ply in check and 0 in stalemate, unclamped. Any other node returns a value within [alpha, beta]. |
| AlphaBeta.SearchMoves | src/bot.cpp:152-162 | The move loop's result stays within [alpha, beta]. Without moves it returns alpha. |
| AlphaBeta.BestReplyIsMax | src/bot.cpp:152-162 | The fold over replies is the maximum of the floor and the replies' negated negamax values. |
| AlphaBeta.NegamaxIsBestReply | src/bot.cpp:152-162 | At positive depth with legal moves, the negamax value is at least every reply's negated value and equals one of them. |
| AlphaBeta.BestReplyReorder | src/bot.cpp:147-150 | Any list with the same members as the legal moves folds to max(floor, Negamax). |
| AlphaBeta.SearchIsClampedNegamax | src/bot.cpp:134-163 | For alpha < beta, the search returns Negamax clamped to [alpha, beta] at every non-terminal node. At a terminal node it returns Negamax itself. A value strictly inside the window comes back exactly. |
| AlphaBeta.SearchMovesIsClamped | src/bot.cpp:152-162 | The move loop returns the best reply value clamped to [alpha, beta]. |
| AlphaBeta.SearchReply | src/bot.cpp:154-159 | A reply searched with the negated window fails the parent high exactly when its negated negamax value reaches beta. Otherwise it raises alpha as that value would. |
| AlphaBeta.SearchOrderIrrelevant | src/bot.cpp:147-160 | Trying the legal moves in any order gives the same result as the sorted order. |
| AlphaBeta.SearchFailsHigh | src/bot.cpp:156-158 | A node with legal moves returns beta exactly when some reply's negated negamax value reaches beta. |
| AlphaBeta.SearchFailsHighOnReply | src/bot.cpp:152-158 | A node with legal moves returns beta exactly when some reply's negated search result reaches beta. |
| AlphaBeta.SingleReply | src/bot.cpp:152-162 | With one legal move, the node's result is that reply's negated result clamped to the node's window. |
| AlphaBeta.QValueInsideKing | src/bot.cpp:104-132 | If the evaluator always stays strictly between -KING_VALUE and KING_VALUE, so does the quiescence value. |
| AlphaBeta.BestCaptureInsideKing | src/bot.cpp:120-131 | If the evaluator and the floor stay strictly inside ±KING_VALUE, so does the best value over the captures. |
| AlphaBeta.NegamaxInsideKing | src/bot.cpp:134-162 | If the evaluator stays strictly inside ±KING_VALUE, then at a ply of at least 1 with ply plus depth below KING_VALUE, the negamax value stays strictly inside too. A mate found below the root never scores a full king. |
| AlphaBeta.BestReplyInsideKing | src/bot.cpp:152-162 | Under the same conditions, the best reply value stays strictly inside ±KING_VALUE. |
| Root.RootEvaluation | src/bot.cpp:165-168 | A worker's evaluation lies within [-KING_VALUE, KING_VALUE]. |
| Root.RootEvaluationIsNegamax | src/bot.cpp:165-168 | A worker's evaluation is the child's negamax value clamped to ±KING_VALUE, then negated. |
| Root.SelectBest | src/bot.cpp:191-198 | The selected evaluation is at least -KING_VALUE and at least every evaluation. If it beats -KING_VALUE, it sits at the selected index and every earlier evaluation is strictly smaller. Otherwise the index is 0. |
| Root.MateInOneIsTop | src/bot.cpp:141-146 | At positive depth, a move after which the opponent is in check with no legal move gets the worker evaluation KING_VALUE. |
| AlphaBeta.EvaluateInsideKing | src/bot.cpp:32-54 | The engine's evaluator stays strictly inside ±KING_VALUE on every board position, so it meets the condition of the mate lemmas. |
| Root.TopIffMateInOne | src/bot.cpp:134-168 | Take an evaluator strictly inside ±KING_VALUE and a depth from 1 to KING_VALUE - 1. A move gets the worker evaluation KING_VALUE if and only if it mates at once. |
| Root.EvaluateTopIffMateInOne | src/bot.cpp:134-168 | With the engine's evaluator and a depth from 1 to KING_VALUE - 1, a move gets the worker evaluation KING_VALUE if and only if it mates at once. |
| Root.FirstBestOrderFree | src/bot.cpp:176-200 | In any order with non-increasing scores, the first greatest evaluation is strictly above that of every move with a strictly higher score. |
| Root.PickBest | src/bot.cpp:178-198 | Over the moves in whatever order they are given, the picked index holds the first greatest worker result. This needs every result to be at least the sentinel -KING_VALUE, which every worker evaluation is. |
| Root.FindBestMove | src/bot.cpp:170-201 | A move is returned exactly when there are legal moves. In the model's sorted order, it is the first move whose worker evaluation is the greatest. Independently of how ties are ordered, the chosen move has the greatest evaluation and the greatest negamax-based value, and every move with a strictly higher ordering score evaluates strictly lower. With an evaluator strictly inside ±KING_VALUE and a depth from 1 to KING_VALUE - 1, a mating move is played whenever one exists; `EngineMateInOneAvailable` shows the engine's evaluator qualifies. |
| Root.EngineMateInOneAvailable | src/bot.cpp:170-201 | With the engine's evaluator, the mate-in-one clause of `FindBestMove` applies whenever the depth is from 1 to KING_VALUE - 1 and some legal move mates. |
| Pgn.Split | src/main.cpp:88-96 | There are no items exactly when the text is empty. |
| Pgn.SplitItemsFree | src/main.cpp:88-96 | No item contains the delimiter. |
| Pgn.SplitThenTerminate | src/main.cpp:88-96 | Writing every item followed by the delimiter gives the text back. A final delimiter is added only if the text did not end in one. |
| Pgn.TerminateThenSplit | src/main.cpp:88-96 | Delimiter-free items, each written with a delimiter after it, split back into exactly those items. |
| Pgn.CharAt | src/main.cpp:101 | Reading the index equal to the length gives the string's terminating null character. Any smaller index gives the character itself. |
| Pgn.MovetextLineIsPrefix | src/main.cpp:101 | The three-character test holds exactly for lines at least three long that start with `1. `. |
| Pgn.GetPgn | src/main.cpp:98-106 | The result is empty exactly when no line starts the movetext. Otherwise it is the first such line and contains no newline. |
| Pgn.TokenEnd | src/main.cpp:113 | A token runs up to the first white-space character or the end of the text. |
| Pgn.Tokens | src/main.cpp:113 | Every extracted token is non-empty and free of white space. |
| Pgn.TokensOfSpaced | src/main.cpp:113 | Tokens written with a space after each extract back into exactly those tokens. |
| Pgn.ResultIndex | src/main.cpp:119-121 | This is the first result marker's position among the tokens, or the end. No earlier token is a result marker. |
| Pgn.DropMoveNumbers | src/main.cpp:115-117 | There are no more kept tokens than input tokens. Each kept token comes from the input, and none ends in a period. |
| Pgn.DropMoveNumbersSnoc | src/main.cpp:115-122 | Processing one more token appends it, unless it is a move number. |
| Pgn.MovesRoundTrip | src/main.cpp:108-126 | Moves written with a space after each are parsed back as themselves, provided none ends in a period or is a result marker. |
| Pgn.ParsePgn | src/main.cpp:108-126 | The moves are the tokens before the first result marker, with move numbers left out and in order. Each one is a token of the text, and none is a move number or a result marker. |

## Left out

- Network access (`request`, `getUsername`), the command-line and SFML user interface, and replaying the game on a display: these are I/O outside the engine.
- The chess library (`chess.hpp`) is not part of this model. Its job is done by the game tree:
  - move generation becomes each node's list of legal moves and list of captures;
  - make/unmake becomes descending into a child, since the search takes its board by value;
  - `inCheck` becomes a flag on the node.
  Whether the tree matches the rules of chess is not modelled.
- Edge scores: each edge stores its ordering score as an arbitrary integer key. The key stands for `calculateMoveScore` on the node's board, which is `ScoreMove` with `isAttacked` as an input. A node does not carry that board, so the link is not modelled. `SearchOrderIrrelevant` and `CaptureSearchIsClampedQValue` show that search results do not depend on the key.
- The move word: `Encode` follows the 16-bit layout of the chess library's `Move` (type in bits 14-15, promotion piece in bits 12-13, origin in bits 6-11, destination in bits 0-5). That library is not part of this model, so the layout is taken as given.
- Threads: `findBestMove` starts one thread per root move. The workers share no state apart from their own result slots, and all are joined before the selection, so the model evaluates the moves one after another.
- Negative depths: `search` would recurse with `depth - 1` past zero only if it were called with a negative depth, which no caller does. Depths are `nat`.
- Board positions: a position the evaluator reads holds at most 64 pieces in all, one per square. Which squares they stand on is not part of a position, so nothing stricter (such as one king per side) is imposed.
- 32-bit `int`: arithmetic is unbounded. `EvaluateBounded` and the ±KING_VALUE window keep every score thousands below the 32-bit limits, so no wrap-around can occur.
- Ordering.SortByScore: `std::sort` does not specify an order for equal scores, and the model fixes one. Every search result is proved independent of the move order. At the root, the order can matter; see the next line.
- Root.FindBestMove: which move is picked can depend on how `std::sort` orders equally scored moves. Two such moves with the same greatest evaluation are picked in whichever order the sort leaves them. The "first of the sorted moves" clause is stated for the model's fixed order only. The clauses stated for any order are: the greatest evaluation, the greatest value, every higher-scored move evaluating strictly lower, and mate in one. `PickBest` and `FirstBestOrderFree` hold for any order by score.
- Root.FindBestMove: with no legal moves, the C++ code returns `moves[0]` of an empty list, which is an unspecified move. The model returns `None` instead.
- Root.RootEvaluation: the worker searches each child to the full search depth, not the depth minus one, at ply 0. The model follows the code.
- AlphaBeta.CaptureSearch: the `ply` argument is passed down but never read. The model keeps it for fidelity.
- AlphaBeta.Search: a node at depth 0 goes straight to the quiescence search, so checkmate and stalemate are not detected there. A node without legal moves returns its mate or stalemate score even when that score lies outside the window. The model follows the code in both cases.
- Pgn.ParsePgn: the result marker `*` of an unfinished game is not one of the three markers the loop checks for, so it is kept as a move. The model follows the code.
- Ordering.LeastValuableAttackerFirst: requires the costlier capture to change square. A move from and to the same square is not a chess move, and only such a move could gain the as-written promotion bonus.
- Pgn.IsSpace: white space is the six characters of the "C" locale's `isspace`. Other locales are not modelled.

## Findings

| source | as written | input that shows it | evidently intended | confidence | as-written member | corrected member |
|---|---|---|---|---|---|---|
| src/bot.cpp:93 | `move == Move::PROMOTION` compares the whole 16-bit move with the bare type flag 0x4000. Only a move from a1 to a1 equals it, so no legal move ever receives the promotion bonus. | A white pawn promotes to a queen, e7-e8, on an otherwise empty board, to an unattacked square. As written it scores 0. | Test the move type (`move.typeOf() == Move::PROMOTION`), so that every promotion gains the promoted piece's value: QUEEN_VALUE here. | high; not executed | Ordering.ScoreMove, Ordering.PromotionBonusLost | Ordering.ScoreMoveIntended, Ordering.PromotionBonusIntended |
