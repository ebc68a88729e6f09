/**
 Choosing the move to play at the root.

 The engine orders the root moves like any other node, gives each one to a
 worker that searches the position after it with the full search depth and
 the widest window, and keeps the first move whose evaluation is strictly
 the best. The workers share nothing but their result slots, so running
 them one after another computes the same evaluations.
 */
module Root {
  import opened Pieces
  import opened Evaluation
  import opened Ordering
  import opened AlphaBeta

  datatype Option<T> = None | Some(value: T)

  /**
   A worker's result: the child searched to the full `depth` at ply 0 in
   the window (-KING_VALUE, KING_VALUE), negated back to the root mover's
   point of view. It never leaves that window.
   */
  function RootEvaluation(eval: Evaluator, e: Edge, depth: nat): (r: int)
    ensures Neg(KING_VALUE) <= r <= KING_VALUE
  {
    var s := Search(eval, e.child, depth, 0, Neg(KING_VALUE), KING_VALUE);
    assert Terminal(e.child, depth) ==> s == TerminalScore(e.child, 0);
    Neg(s)
  }

  /** The reference value of a root move: negamax on its child, bounded by a king. */
  function RootValue(eval: Evaluator, e: Edge, depth: nat): int {
    Neg(Clamp(Negamax(eval, e.child, depth, 0), Neg(KING_VALUE), KING_VALUE))
  }

  /** A worker's evaluation is the reference value of its move. */
  lemma RootEvaluationIsNegamax(eval: Evaluator, e: Edge, depth: nat)
    ensures RootEvaluation(eval, e, depth) == RootValue(eval, e, depth)
  {
    SearchIsClampedNegamax(eval, e.child, depth, 0, Neg(KING_VALUE), KING_VALUE);
  }

  /**
   The selection loop: the index of the first evaluation strictly above
   every earlier one and above -KING_VALUE, and that evaluation; index 0
   and -KING_VALUE when no evaluation beats the sentinel.
   */
  method SelectBest(evals: seq<int>) returns (best: nat, bestEval: int)
    ensures best <= |evals| && (|evals| > 0 ==> best < |evals|)
    ensures bestEval >= Neg(KING_VALUE)
    ensures forall i :: 0 <= i < |evals| ==> evals[i] <= bestEval
    ensures bestEval > Neg(KING_VALUE) ==> best < |evals| && evals[best] == bestEval
    ensures forall i :: 0 <= i < best ==> evals[i] < bestEval
    ensures bestEval == Neg(KING_VALUE) ==> best == 0
  {
    bestEval := Neg(KING_VALUE);
    best := 0;
    var i := 0;
    while i < |evals|
      invariant 0 <= i <= |evals|
      invariant best <= i && (i > 0 ==> best < i)
      invariant bestEval >= Neg(KING_VALUE)
      invariant forall j :: 0 <= j < i ==> evals[j] <= bestEval
      invariant bestEval > Neg(KING_VALUE) ==> best < i && evals[best] == bestEval
      invariant forall j :: 0 <= j < best ==> evals[j] < bestEval
      invariant bestEval == Neg(KING_VALUE) ==> best == 0
    {
      if evals[i] > bestEval {
        bestEval := evals[i];
        best := i;
      }
      i := i + 1;
    }
  }

  /** The side to move at `n` is checkmated: in check, with no legal move. */
  predicate Mated(n: Node) {
    n.inCheck && |n.moves| == 0
  }

  /**
   A move that mates at once gets the top evaluation, KING_VALUE: the
   child is scored as mated at ply 0.
   */
  lemma MateInOneIsTop(eval: Evaluator, e: Edge, depth: nat)
    requires depth > 0 && Mated(e.child)
    ensures RootEvaluation(eval, e, depth) == KING_VALUE
  {
  }

  /**
   With an evaluator that never claims a mate and a depth short of
   KING_VALUE, the top evaluation goes to mating moves and to nothing else.
   */
  lemma TopIffMateInOne(eval: Evaluator, e: Edge, depth: nat)
    requires EvaluatorInsideKing(eval)
    requires 0 < depth < KING_VALUE
    ensures RootEvaluation(eval, e, depth) == KING_VALUE <==> Mated(e.child)
  {
    var child := e.child;
    if !Terminal(child, depth) {
      var v := Negamax(eval, child, depth, 0);
      NegamaxIsBestReply(eval, child, depth, 0);
      var reply :| reply in child.moves && v == Neg(Negamax(eval, reply.child, Shallower(depth), Deeper(0)));
      NegamaxInsideKing(eval, reply.child, Shallower(depth), Deeper(0));
      SearchIsClampedNegamax(eval, child, depth, 0, Neg(KING_VALUE), KING_VALUE);
    }
  }

  /**
   For the engine's own evaluator the condition holds on every board, so
   a move gets the top evaluation exactly when it mates.
   */
  lemma EvaluateTopIffMateInOne(e: Edge, depth: nat)
    requires 0 < depth < KING_VALUE
    ensures RootEvaluation(EngineEvaluator, e, depth) == KING_VALUE <==> Mated(e.child)
  {
    EvaluateInsideKing();
    TopIffMateInOne(EngineEvaluator, e, depth);
  }

  /** The worker as a function of the move it is given. */
  function Worker(eval: Evaluator, depth: nat): (w: Edge -> int)
    ensures forall e :: w(e) == RootEvaluation(eval, e, depth)
  {
    e => RootEvaluation(eval, e, depth)
  }

  /** Position `i` of `s` holds the first greatest `value`. */
  predicate IsFirstGreatest<T>(s: seq<T>, value: T -> int, i: int) {
    && 0 <= i < |s|
    && (forall j :: 0 <= j < i ==> value(s[j]) < value(s[i]))
    && (forall j :: 0 <= j < |s| ==> value(s[j]) <= value(s[i]))
  }

  /**
   Position `i` of the ordered moves holds the first greatest worker
   evaluation.
   */
  predicate IsFirstBest(eval: Evaluator, sorted: seq<Edge>, depth: nat, i: int) {
    IsFirstGreatest(sorted, Worker(eval, depth), i)
  }

  /** No move of `moves` has a greater reference value than `e`. */
  predicate IsBestByValue(eval: Evaluator, moves: seq<Edge>, depth: nat, e: Edge) {
    forall e' :: e' in moves ==> RootValue(eval, e', depth) <= RootValue(eval, e, depth)
  }

  /**
   The order-free reading of the pick: in any order by descending score,
   the first greatest evaluation also beats every move scored strictly
   higher. Which of several equally scored moves comes first is up to the
   sort, so only this much holds whatever order `std::sort` leaves them in.
   */
  lemma FirstBestOrderFree(eval: Evaluator, sorted: seq<Edge>, depth: nat, i: int)
    requires SortedByScore(sorted, EdgeScore)
    requires IsFirstBest(eval, sorted, depth, i)
    ensures forall j :: 0 <= j < |sorted| && sorted[j].score > sorted[i].score ==>
      RootEvaluation(eval, sorted[j], depth) < RootEvaluation(eval, sorted[i], depth)
  {
  }

  /** The move chosen among `moves`, as far as any tie order can tell. */
  predicate IsBestChoice(eval: Evaluator, moves: seq<Edge>, depth: nat, e: Edge) {
    && (forall e' :: e' in moves ==> RootEvaluation(eval, e', depth) <= RootEvaluation(eval, e, depth))
    && (forall e' :: e' in moves && e'.score > e.score ==> RootEvaluation(eval, e', depth) < RootEvaluation(eval, e, depth))
  }

  /**
   The workers and the selection over the moves in the order given: the
   index of the first greatest `worker` result, for whichever order the
   sort produced. The selection starts from the sentinel -KING_VALUE, so it
   relies on no result falling below it, as no worker evaluation does.
   */
  method PickBest<T>(moves: seq<T>, worker: T -> int) returns (best: nat)
    requires |moves| > 0
    requires forall j :: 0 <= j < |moves| ==> worker(moves[j]) >= Neg(KING_VALUE)
    ensures IsFirstGreatest(moves, worker, best)
  {
    var evals: seq<int> := [];
    var i := 0;
    while i < |moves|
      invariant 0 <= i <= |moves|
      invariant |evals| == i
      invariant forall j :: 0 <= j < i ==> evals[j] == worker(moves[j])
    {
      evals := evals + [worker(moves[i])];
      i := i + 1;
    }
    var bestEval;
    best, bestEval := SelectBest(evals);
    if bestEval == Neg(KING_VALUE) {
      assert evals[0] == bestEval;
    }
  }

  /**
   The move the engine plays: among the sorted root moves, the first whose
   worker evaluation is the greatest. Whatever the order of equally scored
   moves, it has the greatest evaluation and the greatest reference value,
   every move scored higher evaluates strictly lower, and a mate in one is
   played when there is one. A position without legal moves has no move
   to play.
   */
  method FindBestMove(eval: Evaluator, root: Node, depth: nat) returns (r: Option<Move>)
    ensures r.None? <==> |root.moves| == 0
    ensures r.Some? ==> exists i :: IsFirstBest(eval, Order(root.moves), depth, i) && r.value == Order(root.moves)[i].move
    ensures r.Some? ==> exists e :: e in root.moves && e.move == r.value && IsBestChoice(eval, root.moves, depth, e)
                                    && IsBestByValue(eval, root.moves, depth, e)
                                    && (MateInOneAvailable(eval, root, depth) ==> Mated(e.child))
  {
    var sorted := Order(root.moves);
    if |sorted| == 0 {
      return None;
    }
    var best := PickBest(sorted, Worker(eval, depth));
    var chosen := sorted[best];
    FirstBestOrderFree(eval, sorted, depth, best);
    forall e | e in root.moves
      ensures RootValue(eval, e, depth) <= RootValue(eval, chosen, depth)
    {
      RootEvaluationIsNegamax(eval, e, depth);
      RootEvaluationIsNegamax(eval, chosen, depth);
    }
    assert IsBestChoice(eval, root.moves, depth, chosen) by {
      forall e' | e' in root.moves
        ensures RootEvaluation(eval, e', depth) <= RootEvaluation(eval, chosen, depth)
        ensures e'.score > chosen.score ==> RootEvaluation(eval, e', depth) < RootEvaluation(eval, chosen, depth)
      {
        var j :| 0 <= j < |sorted| && sorted[j] == e';
      }
    }
    if MateInOneAvailable(eval, root, depth) {
      var mate :| mate in root.moves && Mated(mate.child);
      MateInOneIsTop(eval, mate, depth);
      TopIffMateInOne(eval, chosen, depth);
    }
    r := Some(chosen.move);
  }

  /**
   The conditions under which a mate in one must be played: the evaluator
   never claims a mate, the depth is positive and short of KING_VALUE, and
   some legal move mates.
   */
  ghost predicate MateInOneAvailable(eval: Evaluator, root: Node, depth: nat) {
    && EvaluatorInsideKing(eval)
    && 0 < depth < KING_VALUE
    && exists e :: e in root.moves && Mated(e.child)
  }

  /**
   For the engine's own evaluator the mate-in-one condition of
   `FindBestMove` asks only for a positive depth short of KING_VALUE and a
   mating move.
   */
  lemma EngineMateInOneAvailable(root: Node, depth: nat)
    requires 0 < depth < KING_VALUE
    requires exists e :: e in root.moves && Mated(e.child)
    ensures MateInOneAvailable(EngineEvaluator, root, depth)
  {
    EvaluateInsideKing();
  }
}
