/**
 The quiescence search and the fixed-depth fail-hard negamax search.

 The chess library's position (legal move generation, make/unmake, check
 and attack queries) is replaced by a finite game tree: every node carries
 the piece counts the evaluator reads, whether the mover is in check, its
 legal moves and its capture moves, each with the ordering score the move
 orderer gave it and the child reached by playing it. Because the search
 takes its board by value, making and unmaking a move is descending into a
 child. Structural recursion on the
 tree gives termination, including for the quiescence search, which has
 no depth cap.

 The static evaluator is a parameter: every result here holds for any
 evaluator, and the engine runs the search with `EngineEvaluator`,
 which is `Evaluate` on the positions of a board.

 Next to the search itself stand two reference definitions without
 pruning or window, `QValue` and `Negamax`; the main lemmas show that the
 search returns the reference value clamped to its window, whatever order
 the moves are explored in.
 */
module AlphaBeta {
  import opened Pieces
  import opened Evaluation
  import opened Ordering

  /** A static evaluator: a score for the side to move. */
  type Evaluator = BoardPosition -> int

  /** The evaluator the engine searches with: `Evaluate` on the positions of a board. */
  const EngineEvaluator: Evaluator := p => Evaluate(p)

  datatype Node = Node(position: BoardPosition, inCheck: bool, moves: seq<Edge>, captures: seq<Edge>)

  /**
   A move out of a node, with its ordering key and the node it leads to.
   The key stands for the `calculateMoveScore` guess; a node does not carry
   the board that guess reads, so here it is an arbitrary integer.
   */
  datatype Edge = Edge(move: Move, score: int, child: Node)

  /*
   `Neg`, `Shallower` and `Deeper` stand for `-x`, `depth - 1` and
   `ply + 1` in calls. Naming them keeps the verifier from unfolding the
   arithmetic inside the search proofs, which otherwise run out of resources.
   */

  /** The same score seen from the other side. */
  function Neg(v: int): int {
    -v
  }

  /** The remaining depth one move further down. */
  function Shallower(depth: nat): nat
    requires depth > 0
  {
    depth - 1
  }

  /** The distance from the root one move further down. */
  function Deeper(ply: nat): nat {
    ply + 1
  }

  function Max(a: int, b: int): int {
    if a >= b then a else b
  }

  /**
   The fail-hard clamp: values at or below `lo` become `lo`, values at or
   above `hi` become `hi`.
   */
  function Clamp(v: int, lo: int, hi: int): (c: int)
    requires lo <= hi
    ensures lo <= c <= hi
    ensures lo < v < hi ==> c == v
    ensures lo < hi ==> (c == hi <==> v >= hi)
    ensures lo < hi ==> (c == lo <==> v <= lo)
  {
    if v <= lo then lo else if v >= hi then hi else v
  }

  /**
   The score of being checkmated `ply` half-moves below the root: never
   below the king's value negated, and nearer mates score lower.
   */
  function MateScore(ply: nat): (s: int)
    ensures -KING_VALUE <= s
    ensures ply < KING_VALUE ==> s < 0
  {
    -KING_VALUE + ply
  }

  /** The score of a node without legal moves: mated if in check, else stalemate. */
  function TerminalScore(n: Node, ply: nat): int {
    if n.inCheck then MateScore(ply) else 0
  }

  /** A node where the main search stops because there is no legal move. */
  predicate Terminal(n: Node, depth: nat) {
    depth > 0 && |n.moves| == 0
  }

  /** The ordering key of an edge: its move's score. */
  function EdgeScore(e: Edge): int {
    e.score
  }

  /** The edges sorted by descending ordering score. */
  function Order(es: seq<Edge>): (r: seq<Edge>)
    ensures multiset(r) == multiset(es)
    ensures forall e :: e in r <==> e in es
    ensures SortedByScore(r, EdgeScore)
  {
    var r := SortByScore(es, EdgeScore);
    assert forall e :: e in r <==> e in multiset(r);
    assert forall e :: e in es <==> e in multiset(es);
    r
  }


  // ---------------------------------------------------------------------
  // Quiescence search

  /**
   The capture-only search. A stand-pat evaluation at or above `beta` is a
   cutoff; otherwise the mover may stand pat, so the result never drops
   below the evaluation or `alpha`. `ply` is passed down but not read.
   */
  function CaptureSearch(eval: Evaluator, n: Node, alpha: int, beta: int, ply: nat): (r: int)
    ensures eval(n.position) >= beta ==> r == beta
    ensures alpha < beta && eval(n.position) < beta ==> Max(alpha, eval(n.position)) <= r <= beta
    ensures |n.captures| == 0 && eval(n.position) < beta ==> r == Max(alpha, eval(n.position))
    decreases n, 1
  {
    var standPat := eval(n.position);
    if standPat >= beta then beta
    else CaptureLoop(eval, n, Order(n.captures), Max(alpha, standPat), beta, ply)
  }

  /** The loop over the sorted captures of `n`, `alpha` being the best so far. */
  function CaptureLoop(eval: Evaluator, n: Node, cs: seq<Edge>, alpha: int, beta: int, ply: nat): (r: int)
    requires forall e :: e in cs ==> e in n.captures
    ensures alpha < beta ==> alpha <= r <= beta
    ensures |cs| == 0 ==> r == alpha
    decreases n, 0, |cs|
  {
    if |cs| == 0 then alpha
    else
      assert cs[0] in n.captures;
      var score := Neg(CaptureSearch(eval, cs[0].child, Neg(beta), Neg(alpha), Deeper(ply)));
      if score >= beta then beta
      else CaptureLoop(eval, n, cs[1..], Max(alpha, score), beta, ply)
  }

  /**
   The reference value of the quiescence search: the better of standing pat
   and the best capture, without window or pruning.
   */
  function QValue(eval: Evaluator, n: Node): int
    decreases n, 1
  {
    BestCapture(eval, n, n.captures, eval(n.position))
  }

  /** The best of `best` and the negated values of the captures in `cs`. */
  function BestCapture(eval: Evaluator, n: Node, cs: seq<Edge>, best: int): (v: int)
    requires forall e :: e in cs ==> e in n.captures
    ensures v >= best
    decreases n, 0, |cs|
  {
    if |cs| == 0 then best
    else
      assert cs[0] in n.captures;
      BestCapture(eval, n, cs[1..], Max(best, Neg(QValue(eval, cs[0].child))))
  }

  /**
   `BestCapture` is the maximum of `best` and the negated quiescence values
   of the captures in `cs`: at least each of them, and equal to one.
   */
  lemma {:induction false} BestCaptureIsMax(eval: Evaluator, n: Node, cs: seq<Edge>, best: int)
    requires forall e :: e in cs ==> e in n.captures
    ensures forall e :: e in cs ==> BestCapture(eval, n, cs, best) >= Neg(QValue(eval, e.child))
    ensures || BestCapture(eval, n, cs, best) == best
            || exists e :: e in cs && BestCapture(eval, n, cs, best) == Neg(QValue(eval, e.child))
    decreases |cs|
  {
    if |cs| > 0 {
      BestCaptureIsMax(eval, n, cs[1..], Max(best, Neg(QValue(eval, cs[0].child))));
      assert forall e :: e in cs ==> e == cs[0] || e in cs[1..];
    }
  }

  /** The quiescence value never drops below the stand-pat evaluation. */
  lemma StandPatFloor(eval: Evaluator, n: Node)
    ensures QValue(eval, n) >= eval(n.position)
    ensures |n.captures| == 0 ==> QValue(eval, n) == eval(n.position)
  {
  }

  /** Two capture lists with the same members give the same best value. */
  lemma BestCaptureReorder(eval: Evaluator, n: Node, s: seq<Edge>, t: seq<Edge>, best: int, floor: int)
    requires forall e :: e in s ==> e in n.captures
    requires forall e :: e in s <==> e in t
    ensures BestCapture(eval, n, s, Max(floor, best)) == Max(floor, BestCapture(eval, n, t, best))
  {
    var vs, vt := BestCapture(eval, n, s, Max(floor, best)), BestCapture(eval, n, t, best);
    BestCaptureIsMax(eval, n, s, Max(floor, best));
    BestCaptureIsMax(eval, n, t, best);
    if vs != Max(floor, best) {
      var e :| e in s && vs == Neg(QValue(eval, e.child));
      assert vt >= vs;
    }
    if vt != best {
      var e :| e in t && vt == Neg(QValue(eval, e.child));
      assert vs >= vt;
    }
  }

  /**
   The quiescence search returns its reference value clamped to the window,
   so the order captures are tried in changes nothing but the work done.
   */
  lemma {:induction false} CaptureSearchIsClampedQValue(eval: Evaluator, n: Node, alpha: int, beta: int, ply: nat)
    requires alpha < beta
    ensures CaptureSearch(eval, n, alpha, beta, ply) == Clamp(QValue(eval, n), alpha, beta)
    decreases n, 1
  {
    var standPat := eval(n.position);
    if standPat < beta {
      var sorted := Order(n.captures);
      CaptureLoopIsClamped(eval, n, sorted, Max(alpha, standPat), beta, ply);
      BestCaptureReorder(eval, n, sorted, n.captures, standPat, alpha);
    }
  }

  /** The capture loop returns the best value seen, clamped to its window. */
  lemma {:induction false} CaptureLoopIsClamped(eval: Evaluator, n: Node, cs: seq<Edge>, alpha: int, beta: int, ply: nat)
    requires forall e :: e in cs ==> e in n.captures
    requires alpha < beta
    ensures CaptureLoop(eval, n, cs, alpha, beta, ply) == Clamp(BestCapture(eval, n, cs, alpha), alpha, beta)
    decreases n, 0, |cs|
  {
    if |cs| > 0 {
      assert cs[0] in n.captures;
      var s := CaptureSearch(eval, cs[0].child, Neg(beta), Neg(alpha), Deeper(ply));
      var best := Max(alpha, Neg(QValue(eval, cs[0].child)));
      CaptureReply(eval, cs[0].child, alpha, beta, Deeper(ply));
      CaptureLoopStep(eval, n, cs, alpha, beta, ply);
      if Neg(s) < beta {
        CaptureLoopIsClamped(eval, n, cs[1..], best, beta, ply);
      }
      LoopStepIsClamped(CaptureLoop(eval, n, cs, alpha, beta, ply), CaptureLoop(eval, n, cs[1..], Max(alpha, Neg(s)), beta, ply),
                        BestCapture(eval, n, cs[1..], best), s, best, alpha, beta);
    }
  }

  /** One capture of the loop, unfolded. */
  lemma CaptureLoopStep(eval: Evaluator, n: Node, cs: seq<Edge>, alpha: int, beta: int, ply: nat)
    requires forall e :: e in cs ==> e in n.captures
    requires |cs| > 0
    ensures var s := CaptureSearch(eval, cs[0].child, Neg(beta), Neg(alpha), Deeper(ply));
      && BestCapture(eval, n, cs, alpha) == BestCapture(eval, n, cs[1..], Max(alpha, Neg(QValue(eval, cs[0].child))))
      && CaptureLoop(eval, n, cs, alpha, beta, ply)
         == if Neg(s) >= beta then beta else CaptureLoop(eval, n, cs[1..], Max(alpha, Neg(s)), beta, ply)
  {
  }

  /** What the capture loop learns from one capture searched with the negated window. */
  lemma CaptureReply(eval: Evaluator, child: Node, alpha: int, beta: int, ply: nat)
    requires alpha < beta
    ensures var s, v := CaptureSearch(eval, child, Neg(beta), Neg(alpha), ply), QValue(eval, child);
      && (Neg(s) >= beta <==> Neg(v) >= beta)
      && (Neg(s) < beta ==> Max(alpha, Neg(s)) == Max(alpha, Neg(v)))
    decreases child, 2
  {
    CaptureSearchIsClampedQValue(eval, child, Neg(beta), Neg(alpha), ply);
    ChildStep(CaptureSearch(eval, child, Neg(beta), Neg(alpha), ply), QValue(eval, child), alpha, beta);
  }

  /**
   One step of either loop: the child's negated result `-s` either cuts off
   at `beta` or raises the floor to `best`, which the rest of the loop,
   clamped from `best`, cannot tell from a clamp from `alpha`.
   */
  lemma LoopStepIsClamped(loop: int, rest: int, restBest: int, s: int, best: int, alpha: int, beta: int)
    requires alpha < beta && restBest >= best && alpha <= best
    requires loop == if Neg(s) >= beta then beta else rest
    requires Neg(s) >= beta ==> best >= beta
    requires Neg(s) < beta ==> Max(alpha, Neg(s)) == best && rest == Clamp(restBest, best, beta)
    ensures loop == Clamp(restBest, alpha, beta)
  {
  }

  /**
   What the parent learns from a child searched with the negated window,
   whose result is either the child's reference value clamped to that
   window or the reference value itself.
   */
  lemma ChildStep(s: int, v: int, alpha: int, beta: int)
    requires alpha < beta
    requires s == Clamp(v, Neg(beta), Neg(alpha)) || s == v
    ensures Neg(s) >= beta <==> Neg(v) >= beta
    ensures Neg(s) < beta ==> Max(alpha, Neg(s)) == Max(alpha, Neg(v))
  {
  }

  // ---------------------------------------------------------------------
  // Main search

  /**
   The fail-hard negamax search. At depth zero it is the quiescence search;
   a node without legal moves scores a mate or a stalemate, unclamped; any
   other node returns a value inside its window.
   */
  function Search(eval: Evaluator, n: Node, depth: nat, ply: nat, alpha: int, beta: int): (r: int)
    ensures depth == 0 ==> r == CaptureSearch(eval, n, alpha, beta, ply)
    ensures Terminal(n, depth) ==> r == TerminalScore(n, ply)
    ensures alpha < beta && !Terminal(n, depth) ==> alpha <= r <= beta
    decreases n, 1
  {
    if depth == 0 then CaptureSearch(eval, n, alpha, beta, ply)
    else if |n.moves| == 0 then TerminalScore(n, ply)
    else SearchMoves(eval, n, Order(n.moves), depth, ply, alpha, beta)
  }

  /** The loop over the sorted moves of `n`, `alpha` being the best so far. */
  function SearchMoves(eval: Evaluator, n: Node, ms: seq<Edge>, depth: nat, ply: nat, alpha: int, beta: int): (r: int)
    requires depth > 0
    requires forall e :: e in ms ==> e in n.moves
    ensures alpha < beta ==> alpha <= r <= beta
    ensures |ms| == 0 ==> r == alpha
    decreases n, 0, |ms|
  {
    if |ms| == 0 then alpha
    else
      assert ms[0] in n.moves;
      var score := Neg(Search(eval, ms[0].child, Shallower(depth), Deeper(ply), Neg(beta), Neg(alpha)));
      if score >= beta then beta
      else SearchMoves(eval, n, ms[1..], depth, ply, Max(alpha, score), beta)
  }

  /**
   The reference value of the search: plain negamax to `depth`, with the
   quiescence value at the horizon and no window.
   */
  function Negamax(eval: Evaluator, n: Node, depth: nat, ply: nat): int
    decreases n, 1
  {
    if depth == 0 then QValue(eval, n)
    else if |n.moves| == 0 then TerminalScore(n, ply)
    else
      var first := n.moves[0];
      BestReply(eval, n, n.moves[1..], depth, ply, Neg(Negamax(eval, first.child, Shallower(depth), Deeper(ply))))
  }

  /** The best of `best` and the negated values of the replies in `ms`. */
  function BestReply(eval: Evaluator, n: Node, ms: seq<Edge>, depth: nat, ply: nat, best: int): (v: int)
    requires depth > 0
    requires forall e :: e in ms ==> e in n.moves
    ensures v >= best
    decreases n, 0, |ms|
  {
    if |ms| == 0 then best
    else
      assert ms[0] in n.moves;
      BestReply(eval, n, ms[1..], depth, ply, Max(best, Neg(Negamax(eval, ms[0].child, Shallower(depth), Deeper(ply)))))
  }

  /**
   `BestReply` is the maximum of `best` and the negated negamax values of
   the replies in `ms`: at least each of them, and equal to one.
   */
  lemma {:induction false} BestReplyIsMax(eval: Evaluator, n: Node, ms: seq<Edge>, depth: nat, ply: nat, best: int)
    requires depth > 0
    requires forall e :: e in ms ==> e in n.moves
    ensures forall e :: e in ms ==> BestReply(eval, n, ms, depth, ply, best) >= Neg(Negamax(eval, e.child, Shallower(depth), Deeper(ply)))
    ensures || BestReply(eval, n, ms, depth, ply, best) == best
            || exists e :: e in ms && BestReply(eval, n, ms, depth, ply, best) == Neg(Negamax(eval, e.child, Shallower(depth), Deeper(ply)))
    decreases |ms|
  {
    if |ms| > 0 {
      BestReplyIsMax(eval, n, ms[1..], depth, ply, Max(best, Neg(Negamax(eval, ms[0].child, Shallower(depth), Deeper(ply)))));
      assert forall e :: e in ms ==> e == ms[0] || e in ms[1..];
    }
  }

  /**
   The negamax value of a node with legal moves is the best of its replies'
   negated values: at least each of them, and equal to one.
   */
  lemma NegamaxIsBestReply(eval: Evaluator, n: Node, depth: nat, ply: nat)
    requires depth > 0 && |n.moves| > 0
    ensures forall e :: e in n.moves ==> Negamax(eval, n, depth, ply) >= Neg(Negamax(eval, e.child, Shallower(depth), Deeper(ply)))
    ensures exists e :: e in n.moves && Negamax(eval, n, depth, ply) == Neg(Negamax(eval, e.child, Shallower(depth), Deeper(ply)))
  {
    var first := n.moves[0];
    BestReplyIsMax(eval, n, n.moves[1..], depth, ply, Neg(Negamax(eval, first.child, Shallower(depth), Deeper(ply))));
    assert forall e :: e in n.moves ==> e == first || e in n.moves[1..];
  }

  /** Any ordering of the legal moves, started from `floor`, reaches the negamax value. */
  lemma BestReplyReorder(eval: Evaluator, n: Node, ms: seq<Edge>, depth: nat, ply: nat, floor: int)
    requires depth > 0 && |n.moves| > 0
    requires forall e :: e in ms <==> e in n.moves
    ensures BestReply(eval, n, ms, depth, ply, floor) == Max(floor, Negamax(eval, n, depth, ply))
  {
    var v, w := BestReply(eval, n, ms, depth, ply, floor), Negamax(eval, n, depth, ply);
    NegamaxIsBestReply(eval, n, depth, ply);
    BestReplyIsMax(eval, n, ms, depth, ply, floor);
    var e :| e in n.moves && w == Neg(Negamax(eval, e.child, Shallower(depth), Deeper(ply)));
    assert v >= w;
    if v != floor {
      var e' :| e' in ms && v == Neg(Negamax(eval, e'.child, Shallower(depth), Deeper(ply)));
      assert w >= v;
    }
  }

  /**
   The main search returns the negamax value clamped to its window; at a
   node without legal moves it returns the terminal score itself. A value
   strictly inside the window comes back exactly.
   */
  lemma {:induction false} SearchIsClampedNegamax(eval: Evaluator, n: Node, depth: nat, ply: nat, alpha: int, beta: int)
    requires alpha < beta
    ensures var s, v := Search(eval, n, depth, ply, alpha, beta), Negamax(eval, n, depth, ply);
      && Clamp(s, alpha, beta) == Clamp(v, alpha, beta)
      && (!Terminal(n, depth) ==> s == Clamp(v, alpha, beta))
      && (Terminal(n, depth) ==> s == v)
      && (alpha < v < beta ==> s == v)
    decreases n, 1
  {
    if depth == 0 {
      CaptureSearchIsClampedQValue(eval, n, alpha, beta, ply);
    } else if |n.moves| > 0 {
      var sorted := Order(n.moves);
      SearchMovesIsClamped(eval, n, sorted, depth, ply, alpha, beta);
      BestReplyReorder(eval, n, sorted, depth, ply, alpha);
    }
  }

  /** The move loop returns the best value seen, clamped to its window. */
  lemma {:induction false} SearchMovesIsClamped(eval: Evaluator, n: Node, ms: seq<Edge>, depth: nat, ply: nat, alpha: int, beta: int)
    requires depth > 0
    requires forall e :: e in ms ==> e in n.moves
    requires alpha < beta
    ensures SearchMoves(eval, n, ms, depth, ply, alpha, beta) == Clamp(BestReply(eval, n, ms, depth, ply, alpha), alpha, beta)
    decreases n, 0, |ms|
  {
    if |ms| > 0 {
      assert ms[0] in n.moves;
      var s := Search(eval, ms[0].child, Shallower(depth), Deeper(ply), Neg(beta), Neg(alpha));
      var best := Max(alpha, Neg(Negamax(eval, ms[0].child, Shallower(depth), Deeper(ply))));
      SearchReply(eval, ms[0].child, Shallower(depth), Deeper(ply), alpha, beta);
      SearchMovesStep(eval, n, ms, depth, ply, alpha, beta);
      if Neg(s) < beta {
        SearchMovesIsClamped(eval, n, ms[1..], depth, ply, best, beta);
      }
      LoopStepIsClamped(SearchMoves(eval, n, ms, depth, ply, alpha, beta), SearchMoves(eval, n, ms[1..], depth, ply, Max(alpha, Neg(s)), beta),
                        BestReply(eval, n, ms[1..], depth, ply, best), s, best, alpha, beta);
    }
  }

  /** One move of the loop, unfolded. */
  lemma SearchMovesStep(eval: Evaluator, n: Node, ms: seq<Edge>, depth: nat, ply: nat, alpha: int, beta: int)
    requires depth > 0
    requires forall e :: e in ms ==> e in n.moves
    requires |ms| > 0
    ensures var s := Search(eval, ms[0].child, Shallower(depth), Deeper(ply), Neg(beta), Neg(alpha));
      && BestReply(eval, n, ms, depth, ply, alpha)
         == BestReply(eval, n, ms[1..], depth, ply, Max(alpha, Neg(Negamax(eval, ms[0].child, Shallower(depth), Deeper(ply)))))
      && SearchMoves(eval, n, ms, depth, ply, alpha, beta)
         == if Neg(s) >= beta then beta else SearchMoves(eval, n, ms[1..], depth, ply, Max(alpha, Neg(s)), beta)
  {
  }

  /** What the move loop learns from one reply searched with the negated window. */
  lemma SearchReply(eval: Evaluator, child: Node, depth: nat, ply: nat, alpha: int, beta: int)
    requires alpha < beta
    ensures var s, v := Search(eval, child, depth, ply, Neg(beta), Neg(alpha)), Negamax(eval, child, depth, ply);
      && (Neg(s) >= beta <==> Neg(v) >= beta)
      && (Neg(s) < beta ==> Max(alpha, Neg(s)) == Max(alpha, Neg(v)))
    decreases child, 2
  {
    SearchIsClampedNegamax(eval, child, depth, ply, Neg(beta), Neg(alpha));
    ChildStep(Search(eval, child, depth, ply, Neg(beta), Neg(alpha)), Negamax(eval, child, depth, ply), alpha, beta);
  }

  /**
   Move ordering affects only pruning: exploring the legal moves in any
   order gives the same result as the sorted order.
   */
  lemma SearchOrderIrrelevant(eval: Evaluator, n: Node, ms: seq<Edge>, depth: nat, ply: nat, alpha: int, beta: int)
    requires depth > 0 && |n.moves| > 0 && alpha < beta
    requires forall e :: e in ms <==> e in n.moves
    ensures SearchMoves(eval, n, ms, depth, ply, alpha, beta) == Search(eval, n, depth, ply, alpha, beta)
  {
    SearchMovesIsClamped(eval, n, ms, depth, ply, alpha, beta);
    BestReplyReorder(eval, n, ms, depth, ply, alpha);
    SearchIsClampedNegamax(eval, n, depth, ply, alpha, beta);
  }

  /**
   The fail-high cutoff: a node with legal moves returns exactly `beta` if
   and only if some reply's negated negamax value reaches `beta`.
   */
  lemma SearchFailsHigh(eval: Evaluator, n: Node, depth: nat, ply: nat, alpha: int, beta: int)
    requires depth > 0 && |n.moves| > 0 && alpha < beta
    ensures Search(eval, n, depth, ply, alpha, beta) == beta
        <==> exists e :: e in n.moves && Neg(Negamax(eval, e.child, Shallower(depth), Deeper(ply))) >= beta
  {
    SearchIsClampedNegamax(eval, n, depth, ply, alpha, beta);
    NegamaxIsBestReply(eval, n, depth, ply);
  }

  /**
   The same cutoff seen through the search itself: a node fails high if and
   only if some reply, searched with the node's window negated, reaches `beta`.
   */
  lemma SearchFailsHighOnReply(eval: Evaluator, n: Node, depth: nat, ply: nat, alpha: int, beta: int)
    requires depth > 0 && |n.moves| > 0 && alpha < beta
    ensures Search(eval, n, depth, ply, alpha, beta) == beta
        <==> exists e :: e in n.moves && Neg(Search(eval, e.child, Shallower(depth), Deeper(ply), Neg(beta), Neg(alpha))) >= beta
  {
    SearchFailsHigh(eval, n, depth, ply, alpha, beta);
    forall e | e in n.moves
      ensures Neg(Search(eval, e.child, Shallower(depth), Deeper(ply), Neg(beta), Neg(alpha))) >= beta
          <==> Neg(Negamax(eval, e.child, Shallower(depth), Deeper(ply))) >= beta
    {
      SearchReply(eval, e.child, Shallower(depth), Deeper(ply), alpha, beta);
    }
  }

  /**
   A node with a single legal reply scores that reply's value, negated and
   with the window swapped, clamped to the node's window.
   */
  lemma SingleReply(eval: Evaluator, n: Node, depth: nat, ply: nat, alpha: int, beta: int)
    requires depth > 0 && |n.moves| == 1 && alpha < beta
    ensures Search(eval, n, depth, ply, alpha, beta)
         == Clamp(Neg(Search(eval, n.moves[0].child, Shallower(depth), Deeper(ply), Neg(beta), Neg(alpha))), alpha, beta)
  {
    var sorted := Order(n.moves);
    assert sorted[0] in n.moves;
    assert sorted == [n.moves[0]];
    var s := Search(eval, n.moves[0].child, Shallower(depth), Deeper(ply), Neg(beta), Neg(alpha));
    assert SearchMoves(eval, n, sorted[1..], depth, ply, Max(alpha, Neg(s)), beta) == Max(alpha, Neg(s));
  }

  // ---------------------------------------------------------------------
  // Values short of a mate

  /** Strictly between the two mate bounds. */
  predicate InsideKing(v: int) {
    Neg(KING_VALUE) < v < KING_VALUE
  }

  /** An evaluator that never claims a mate: every score strictly inside ±KING_VALUE. */
  ghost predicate EvaluatorInsideKing(eval: Evaluator) {
    forall p :: InsideKing(eval(p))
  }

  /** The engine's evaluator never claims a mate on any board. */
  lemma EvaluateInsideKing()
    ensures EvaluatorInsideKing(EngineEvaluator)
  {
    forall p: BoardPosition
      ensures InsideKing(EngineEvaluator(p))
    {
      EvaluateOnBoard(p);
    }
  }

  /** With such an evaluator the quiescence value is never a mate score. */
  lemma {:induction false} QValueInsideKing(eval: Evaluator, n: Node)
    requires EvaluatorInsideKing(eval)
    ensures InsideKing(QValue(eval, n))
    decreases n, 1
  {
    BestCaptureInsideKing(eval, n, n.captures, eval(n.position));
  }

  /** The capture fold stays inside when its floor and every capture's value do. */
  lemma {:induction false} BestCaptureInsideKing(eval: Evaluator, n: Node, cs: seq<Edge>, best: int)
    requires EvaluatorInsideKing(eval)
    requires forall e :: e in cs ==> e in n.captures
    requires InsideKing(best)
    ensures InsideKing(BestCapture(eval, n, cs, best))
    decreases n, 0, |cs|
  {
    if |cs| > 0 {
      assert cs[0] in n.captures;
      QValueInsideKing(eval, cs[0].child);
      BestCaptureInsideKing(eval, n, cs[1..], Max(best, Neg(QValue(eval, cs[0].child))));
    }
  }

  /**
   Below the root, with the evaluator inside ±KING_VALUE, the negamax value
   is never a full mate score: a mate `ply` moves down scores `ply` less.
   */
  lemma {:induction false} NegamaxInsideKing(eval: Evaluator, n: Node, depth: nat, ply: nat)
    requires EvaluatorInsideKing(eval)
    requires 0 < ply && ply + depth < KING_VALUE
    ensures InsideKing(Negamax(eval, n, depth, ply))
    decreases n, 1
  {
    if depth == 0 {
      QValueInsideKing(eval, n);
    } else if |n.moves| > 0 {
      var first := n.moves[0];
      NegamaxInsideKing(eval, first.child, Shallower(depth), Deeper(ply));
      BestReplyInsideKing(eval, n, n.moves[1..], depth, ply, Neg(Negamax(eval, first.child, Shallower(depth), Deeper(ply))));
    }
  }

  /** The reply fold stays inside when its floor and every reply's value do. */
  lemma {:induction false} BestReplyInsideKing(eval: Evaluator, n: Node, ms: seq<Edge>, depth: nat, ply: nat, best: int)
    requires EvaluatorInsideKing(eval)
    requires depth > 0 && 0 < ply && ply + depth < KING_VALUE
    requires forall e :: e in ms ==> e in n.moves
    requires InsideKing(best)
    ensures InsideKing(BestReply(eval, n, ms, depth, ply, best))
    decreases n, 0, |ms|
  {
    if |ms| > 0 {
      assert ms[0] in n.moves;
      NegamaxInsideKing(eval, ms[0].child, Shallower(depth), Deeper(ply));
      BestReplyInsideKing(eval, n, ms[1..], depth, ply, Max(best, Neg(Negamax(eval, ms[0].child, Shallower(depth), Deeper(ply)))));
    }
  }
}
