/** `Agent1.minimax` and `Agent1.get_action`: depth-bounded minimax with
    alpha-beta pruning over the ordered legal actions, and plain minimax as
    the reference it is proved against. */
module Search {
  import opened ExtendedInt
  import opened GoBoard
  import opened Evaluation
  import opened MoveOrdering

  /** `self.max_depth`. */
  const MaxDepth: nat := 5

  /** A node is a leaf when the depth is spent, the game is decided, or no
      action is legal. */
  predicate IsLeaf(r: Rules, b: Board, depth: nat) {
    depth == 0 || b.winner.Some? || |r.legal(b)| == 0
  }

  // ---------------------------------------------------------------------
  // The pruned search, as `minimax` writes it
  // ---------------------------------------------------------------------

  /** `minimax(board, depth, alpha, beta, maximizing_player)`; returns
      `(best_action, best_value)`. */
  ghost function AlphaBeta(r: Rules, me: Color, b: Board, depth: nat, alpha: ExtInt, beta: ExtInt, maximizing: bool)
    : (Option<Point>, ExtInt)
    decreases depth, 1
  {
    if depth == 0 || b.winner.Some? then (None, Fin(Evaluate(b, me)))
    else if |r.legal(b)| == 0 then (None, Fin(Evaluate(b, me)))
    else
      var ordered := OrderMoves(b, me, r.legal(b));
      if maximizing then MaxLoop(r, me, b, depth, ordered, alpha, beta, NegInf, None)
      else MinLoop(r, me, b, depth, ordered, alpha, beta, PosInf, None)
  }

  /** The maximizing `for` loop over the remaining actions `acts`, carrying
      `alpha`, `max_eval` (`best`) and `best_action`. */
  ghost function MaxLoop(r: Rules, me: Color, b: Board, depth: nat, acts: seq<Point>,
                         alpha: ExtInt, beta: ExtInt, best: ExtInt, bestAct: Option<Point>)
    : (Option<Point>, ExtInt)
    requires depth > 0
    decreases depth, 0, |acts|
  {
    if |acts| == 0 then (bestAct, best)
    else
      var score := AlphaBeta(r, me, r.successor(b, acts[0]), depth - 1, alpha, beta, false).1;
      var best' := if Lt(best, score) then score else best;
      var bestAct' := if Lt(best, score) then Some(acts[0]) else bestAct;
      var alpha' := Max(alpha, score);
      if Le(beta, alpha') then (bestAct', best')
      else MaxLoop(r, me, b, depth, acts[1..], alpha', beta, best', bestAct')
  }

  /** The minimizing `for` loop, carrying `beta`, `min_eval` and
      `best_action`. */
  ghost function MinLoop(r: Rules, me: Color, b: Board, depth: nat, acts: seq<Point>,
                         alpha: ExtInt, beta: ExtInt, best: ExtInt, bestAct: Option<Point>)
    : (Option<Point>, ExtInt)
    requires depth > 0
    decreases depth, 0, |acts|
  {
    if |acts| == 0 then (bestAct, best)
    else
      var score := AlphaBeta(r, me, r.successor(b, acts[0]), depth - 1, alpha, beta, true).1;
      var best' := if Lt(score, best) then score else best;
      var bestAct' := if Lt(score, best) then Some(acts[0]) else bestAct;
      var beta' := Min(beta, score);
      if Le(beta', alpha) then (bestAct', best')
      else MinLoop(r, me, b, depth, acts[1..], alpha, beta', best', bestAct')
  }

  /** `get_action(board)`.  `pick` stands for the index `random.choice`
      would draw when the search yields no action. */
  ghost function GetAction(r: Rules, me: Color, b: Board, pick: nat): (a: Option<Point>)
    ensures a.None? <==> |r.legal(b)| == 0
    ensures a.Some? ==> a.value in r.legal(b)
  {
    var actions := r.legal(b);
    if |actions| == 0 then None
    else
      var (best, _) := AlphaBeta(r, me, b, MaxDepth, NegInf, PosInf, true);
      if best.None? then Some(actions[pick % |actions|])
      else
        SearchActionLegal(r, me, b, MaxDepth, NegInf, PosInf, true);
        best
  }

  // ---------------------------------------------------------------------
  // Plain minimax, the reference
  // ---------------------------------------------------------------------

  /** The minimax value of `b` searched `depth` plies deep, exploring every
      legal action in the board's own order. */
  ghost function Minimax(r: Rules, me: Color, b: Board, depth: nat, maximizing: bool): int
    decreases depth, 1
  {
    if IsLeaf(r, b, depth) then Evaluate(b, me)
    else if maximizing then MaxValue(r, me, b, depth, r.legal(b))
    else MinValue(r, me, b, depth, r.legal(b))
  }

  /** The largest minimax value among the successors by `acts`. */
  ghost function MaxValue(r: Rules, me: Color, b: Board, depth: nat, acts: seq<Point>): int
    requires depth > 0 && |acts| > 0
    decreases depth, 0, |acts|
  {
    var v := Minimax(r, me, r.successor(b, acts[0]), depth - 1, false);
    if |acts| == 1 then v else IntMax(v, MaxValue(r, me, b, depth, acts[1..]))
  }

  /** The smallest minimax value among the successors by `acts`. */
  ghost function MinValue(r: Rules, me: Color, b: Board, depth: nat, acts: seq<Point>): int
    requires depth > 0 && |acts| > 0
    decreases depth, 0, |acts|
  {
    var v := Minimax(r, me, r.successor(b, acts[0]), depth - 1, true);
    if |acts| == 1 then v else IntMin(v, MinValue(r, me, b, depth, acts[1..]))
  }

  /** The value of the successor of `b` by `a`, one ply less deep. */
  ghost function Child(r: Rules, me: Color, b: Board, depth: nat, a: Point, maximizing: bool): int
    requires depth > 0
  {
    Minimax(r, me, r.successor(b, a), depth - 1, maximizing)
  }

  // ---------------------------------------------------------------------
  // Facts about the reference
  // ---------------------------------------------------------------------

  /** `MaxValue` is the maximum of the children's values. */
  lemma {:induction false} MaxValueIsMaximum(r: Rules, me: Color, b: Board, depth: nat, acts: seq<Point>)
    requires depth > 0 && |acts| > 0
    ensures forall a :: a in acts ==> Child(r, me, b, depth, a, false) <= MaxValue(r, me, b, depth, acts)
    ensures exists a :: a in acts && Child(r, me, b, depth, a, false) == MaxValue(r, me, b, depth, acts)
    decreases |acts|
  {
    if |acts| == 1 {
      assert Child(r, me, b, depth, acts[0], false) == MaxValue(r, me, b, depth, acts);
    } else {
      MaxValueIsMaximum(r, me, b, depth, acts[1..]);
      assert forall a :: a in acts <==> a == acts[0] || a in acts[1..];
      if MaxValue(r, me, b, depth, acts) == Child(r, me, b, depth, acts[0], false) {
        assert acts[0] in acts;
      } else {
        var w :| w in acts[1..] && Child(r, me, b, depth, w, false) == MaxValue(r, me, b, depth, acts[1..]);
        assert w in acts;
      }
    }
  }

  /** `MinValue` is the minimum of the children's values. */
  lemma {:induction false} MinValueIsMinimum(r: Rules, me: Color, b: Board, depth: nat, acts: seq<Point>)
    requires depth > 0 && |acts| > 0
    ensures forall a :: a in acts ==> MinValue(r, me, b, depth, acts) <= Child(r, me, b, depth, a, true)
    ensures exists a :: a in acts && Child(r, me, b, depth, a, true) == MinValue(r, me, b, depth, acts)
    decreases |acts|
  {
    if |acts| == 1 {
      assert Child(r, me, b, depth, acts[0], true) == MinValue(r, me, b, depth, acts);
    } else {
      MinValueIsMinimum(r, me, b, depth, acts[1..]);
      assert forall a :: a in acts <==> a == acts[0] || a in acts[1..];
      if MinValue(r, me, b, depth, acts) == Child(r, me, b, depth, acts[0], true) {
        assert acts[0] in acts;
      } else {
        var w :| w in acts[1..] && Child(r, me, b, depth, w, true) == MinValue(r, me, b, depth, acts[1..]);
        assert w in acts;
      }
    }
  }

  /** The best and worst child values do not depend on the order in which
      the actions are listed. */
  lemma ValuesIgnoreOrder(r: Rules, me: Color, b: Board, depth: nat, acts: seq<Point>, acts': seq<Point>)
    requires depth > 0 && |acts| > 0
    requires multiset(acts) == multiset(acts')
    ensures |acts'| > 0
    ensures MaxValue(r, me, b, depth, acts) == MaxValue(r, me, b, depth, acts')
    ensures MinValue(r, me, b, depth, acts) == MinValue(r, me, b, depth, acts')
  {
    assert acts[0] in multiset(acts');
    assert forall a :: a in acts <==> a in acts' by {
      forall a ensures a in acts <==> a in acts' {
        assert a in acts <==> a in multiset(acts);
        assert a in acts' <==> a in multiset(acts');
      }
    }
    MaxValueIsMaximum(r, me, b, depth, acts);
    MaxValueIsMaximum(r, me, b, depth, acts');
    MinValueIsMinimum(r, me, b, depth, acts);
    MinValueIsMinimum(r, me, b, depth, acts');
  }

  // ---------------------------------------------------------------------
  // The alpha-beta window
  // ---------------------------------------------------------------------

  /** The fail-soft window property of a search result `res` for a node of
      true value `v` searched with the window (alpha, beta). */
  predicate FailSoft(alpha: ExtInt, beta: ExtInt, v: ExtInt, res: ExtInt) {
    && (Lt(alpha, v) && Lt(v, beta) ==> res == v)
    && (Le(v, alpha) ==> Le(v, res) && Le(res, alpha))
    && (Le(beta, v) ==> Le(beta, res) && Le(res, v))
  }

  /** The value a max loop would return if it never pruned: its running
      best combined with the best child still to come. */
  ghost function MaxSoFar(r: Rules, me: Color, b: Board, depth: nat, acts: seq<Point>, best: ExtInt): ExtInt
    requires depth > 0
  {
    if |acts| == 0 then best else Max(best, Fin(MaxValue(r, me, b, depth, acts)))
  }

  ghost function MinSoFar(r: Rules, me: Color, b: Board, depth: nat, acts: seq<Point>, best: ExtInt): ExtInt
    requires depth > 0
  {
    if |acts| == 0 then best else Min(best, Fin(MinValue(r, me, b, depth, acts)))
  }

  /** The alpha-beta window lemma: inside the window the pruned search is
      exact; outside it, the result lies on the same side of the window as
      the true value and no further from the window than it. */
  lemma {:induction false} AlphaBetaWindow(r: Rules, me: Color, b: Board, depth: nat,
                                           alpha: ExtInt, beta: ExtInt, maximizing: bool)
    requires Lt(alpha, beta)
    ensures FailSoft(alpha, beta, Fin(Minimax(r, me, b, depth, maximizing)),
                     AlphaBeta(r, me, b, depth, alpha, beta, maximizing).1)
    decreases depth, 1
  {
    if !IsLeaf(r, b, depth) {
      var ordered := OrderMoves(b, me, r.legal(b));
      ValuesIgnoreOrder(r, me, b, depth, r.legal(b), ordered);
      if maximizing {
        MaxLoopWindow(r, me, b, depth, ordered, alpha, beta, NegInf, None);
      } else {
        MinLoopWindow(r, me, b, depth, ordered, alpha, beta, PosInf, None);
      }
    }
  }

  lemma {:induction false} MaxLoopWindow(r: Rules, me: Color, b: Board, depth: nat, acts: seq<Point>,
                                         alpha: ExtInt, beta: ExtInt, best: ExtInt, bestAct: Option<Point>)
    requires depth > 0
    requires Lt(alpha, beta) && Le(best, alpha)
    ensures FailSoft(alpha, beta, MaxSoFar(r, me, b, depth, acts, best),
                     MaxLoop(r, me, b, depth, acts, alpha, beta, best, bestAct).1)
    decreases depth, 0, |acts|
  {
    if |acts| > 0 {
      var a, rest := acts[0], acts[1..];
      var va := Child(r, me, b, depth, a, false);
      AlphaBetaWindow(r, me, r.successor(b, a), depth - 1, alpha, beta, false);
      var score := AlphaBeta(r, me, r.successor(b, a), depth - 1, alpha, beta, false).1;
      var best' := if Lt(best, score) then score else best;
      var bestAct' := if Lt(best, score) then Some(a) else bestAct;
      var alpha' := Max(alpha, score);
      if !Le(beta, alpha') {
        MaxLoopWindow(r, me, b, depth, rest, alpha', beta, best', bestAct');
        if |rest| > 0 {
          assert MaxValue(r, me, b, depth, acts) == IntMax(va, MaxValue(r, me, b, depth, rest));
        }
      }
    }
  }

  lemma {:induction false} MinLoopWindow(r: Rules, me: Color, b: Board, depth: nat, acts: seq<Point>,
                                         alpha: ExtInt, beta: ExtInt, best: ExtInt, bestAct: Option<Point>)
    requires depth > 0
    requires Lt(alpha, beta) && Le(beta, best)
    ensures FailSoft(alpha, beta, MinSoFar(r, me, b, depth, acts, best),
                     MinLoop(r, me, b, depth, acts, alpha, beta, best, bestAct).1)
    decreases depth, 0, |acts|
  {
    if |acts| > 0 {
      var a, rest := acts[0], acts[1..];
      var va := Child(r, me, b, depth, a, true);
      AlphaBetaWindow(r, me, r.successor(b, a), depth - 1, alpha, beta, true);
      var score := AlphaBeta(r, me, r.successor(b, a), depth - 1, alpha, beta, true).1;
      var best' := if Lt(score, best) then score else best;
      var bestAct' := if Lt(score, best) then Some(a) else bestAct;
      var beta' := Min(beta, score);
      if !Le(beta', alpha) {
        MinLoopWindow(r, me, b, depth, rest, alpha, beta', best', bestAct');
        if |rest| > 0 {
          assert MinValue(r, me, b, depth, acts) == IntMin(va, MinValue(r, me, b, depth, rest));
        }
      }
    }
  }

  /** With the unbounded root window, pruning never changes the score. */
  lemma AlphaBetaIsMinimax(r: Rules, me: Color, b: Board, depth: nat, maximizing: bool)
    ensures AlphaBeta(r, me, b, depth, NegInf, PosInf, maximizing).1 == Fin(Minimax(r, me, b, depth, maximizing))
  {
    AlphaBetaWindow(r, me, b, depth, NegInf, PosInf, maximizing);
  }

  // ---------------------------------------------------------------------
  // The returned action
  // ---------------------------------------------------------------------

  lemma {:induction false} AlphaBetaFinite(r: Rules, me: Color, b: Board, depth: nat,
                                           alpha: ExtInt, beta: ExtInt, maximizing: bool)
    ensures AlphaBeta(r, me, b, depth, alpha, beta, maximizing).1.Fin?
    decreases depth, 1
  {
    if !IsLeaf(r, b, depth) {
      var ordered := OrderMoves(b, me, r.legal(b));
      if maximizing {
        MaxLoopAction(r, me, b, depth, ordered, alpha, beta, NegInf, None);
      } else {
        MinLoopAction(r, me, b, depth, ordered, alpha, beta, PosInf, None);
      }
    }
  }

  lemma {:induction false} MaxLoopAction(r: Rules, me: Color, b: Board, depth: nat, acts: seq<Point>,
                                         alpha: ExtInt, beta: ExtInt, best: ExtInt, bestAct: Option<Point>)
    requires depth > 0
    requires best.NegInf? || (best.Fin? && bestAct.Some?)
    ensures var res := MaxLoop(r, me, b, depth, acts, alpha, beta, best, bestAct);
            && (res.0 == bestAct || (res.0.Some? && res.0.value in acts))
            && (|acts| > 0 ==> res.0.Some? && res.1.Fin?)
    decreases depth, 0, |acts|
  {
    if |acts| > 0 {
      var a := acts[0];
      AlphaBetaFinite(r, me, r.successor(b, a), depth - 1, alpha, beta, false);
      var score := AlphaBeta(r, me, r.successor(b, a), depth - 1, alpha, beta, false).1;
      var best' := if Lt(best, score) then score else best;
      var bestAct' := if Lt(best, score) then Some(a) else bestAct;
      var alpha' := Max(alpha, score);
      if !Le(beta, alpha') {
        MaxLoopAction(r, me, b, depth, acts[1..], alpha', beta, best', bestAct');
      }
    }
  }

  lemma {:induction false} MinLoopAction(r: Rules, me: Color, b: Board, depth: nat, acts: seq<Point>,
                                         alpha: ExtInt, beta: ExtInt, best: ExtInt, bestAct: Option<Point>)
    requires depth > 0
    requires best.PosInf? || (best.Fin? && bestAct.Some?)
    ensures var res := MinLoop(r, me, b, depth, acts, alpha, beta, best, bestAct);
            && (res.0 == bestAct || (res.0.Some? && res.0.value in acts))
            && (|acts| > 0 ==> res.0.Some? && res.1.Fin?)
    decreases depth, 0, |acts|
  {
    if |acts| > 0 {
      var a := acts[0];
      AlphaBetaFinite(r, me, r.successor(b, a), depth - 1, alpha, beta, true);
      var score := AlphaBeta(r, me, r.successor(b, a), depth - 1, alpha, beta, true).1;
      var best' := if Lt(score, best) then score else best;
      var bestAct' := if Lt(score, best) then Some(a) else bestAct;
      var beta' := Min(beta, score);
      if !Le(beta', alpha) {
        MinLoopAction(r, me, b, depth, acts[1..], alpha, beta', best', bestAct');
      }
    }
  }

  /** The child scores the maximizing loop sees, in scan order, up to and
      including the one that triggers the beta cutoff. */
  ghost function MaxScan(r: Rules, me: Color, b: Board, depth: nat, acts: seq<Point>,
                         alpha: ExtInt, beta: ExtInt): (sc: seq<ExtInt>)
    requires depth > 0
    ensures |sc| <= |acts|
    decreases |acts|
  {
    if |acts| == 0 then []
    else
      var score := AlphaBeta(r, me, r.successor(b, acts[0]), depth - 1, alpha, beta, false).1;
      var alpha' := Max(alpha, score);
      if Le(beta, alpha') then [score]
      else [score] + MaxScan(r, me, b, depth, acts[1..], alpha', beta)
  }

  /** The child scores the minimizing loop sees, up to its alpha cutoff. */
  ghost function MinScan(r: Rules, me: Color, b: Board, depth: nat, acts: seq<Point>,
                         alpha: ExtInt, beta: ExtInt): (sc: seq<ExtInt>)
    requires depth > 0
    ensures |sc| <= |acts|
    decreases |acts|
  {
    if |acts| == 0 then []
    else
      var score := AlphaBeta(r, me, r.successor(b, acts[0]), depth - 1, alpha, beta, true).1;
      var beta' := Min(beta, score);
      if Le(beta', alpha) then [score]
      else [score] + MinScan(r, me, b, depth, acts[1..], alpha, beta')
  }

  /** `res` is what a loop over `acts` with scanned scores `sc` returns
      when it keeps the first score that beats `best` under the order
      `better`: either `(bestAct, best)` when no score beats `best`, or
      `(acts[k], sc[k])` where `sc[k]` beats `best` and every earlier score,
      and no later score beats it. */
  predicate FirstBest(acts: seq<Point>, sc: seq<ExtInt>, best: ExtInt, bestAct: Option<Point>,
                      res: (Option<Point>, ExtInt), maximizing: bool)
    requires |sc| <= |acts|
  {
    || (res == (bestAct, best) && forall j :: 0 <= j < |sc| ==> !Beats(sc[j], best, maximizing))
    || (exists k :: 0 <= k < |sc| && res == (Some(acts[k]), sc[k]) && Beats(sc[k], best, maximizing)
          && (forall j :: 0 <= j < k ==> Beats(sc[k], sc[j], maximizing))
          && (forall j :: k < j < |sc| ==> !Beats(sc[j], sc[k], maximizing)))
  }

  /** `x` strictly improves on `y`: larger when maximizing, smaller when
      minimizing. */
  predicate Beats(x: ExtInt, y: ExtInt, maximizing: bool) {
    if maximizing then Lt(y, x) else Lt(x, y)
  }

  /** The maximizing loop returns the best of the scanned scores and the
      first action reaching it: either nothing scanned beats the running
      best and the loop keeps `(bestAct, best)`, or the result is the
      scanned action `acts[k]` with its score, every earlier score is
      strictly lower and no later one is higher. */
  lemma {:induction false} MaxLoopFirstBest(r: Rules, me: Color, b: Board, depth: nat, acts: seq<Point>,
                                            alpha: ExtInt, beta: ExtInt, best: ExtInt, bestAct: Option<Point>)
    requires depth > 0
    ensures var res := MaxLoop(r, me, b, depth, acts, alpha, beta, best, bestAct);
            FirstBest(acts, MaxScan(r, me, b, depth, acts, alpha, beta), best, bestAct, res, true)
    decreases |acts|
  {
    if |acts| > 0 {
      var a, rest := acts[0], acts[1..];
      var s0 := AlphaBeta(r, me, r.successor(b, a), depth - 1, alpha, beta, false).1;
      var alpha' := Max(alpha, s0);
      var best' := if Lt(best, s0) then s0 else best;
      var bestAct' := if Lt(best, s0) then Some(a) else bestAct;
      var res := MaxLoop(r, me, b, depth, acts, alpha, beta, best, bestAct);
      var sc := MaxScan(r, me, b, depth, acts, alpha, beta);
      if Le(beta, alpha') {
        assert sc == [s0];
        if Lt(best, s0) {
          assert res == (Some(acts[0]), sc[0]);
        }
      } else {
        var sc' := MaxScan(r, me, b, depth, rest, alpha', beta);
        assert sc == [s0] + sc';
        assert forall j :: 0 < j < |sc| ==> sc[j] == sc'[j - 1];
        MaxLoopFirstBest(r, me, b, depth, rest, alpha', beta, best', bestAct');
        assert res == MaxLoop(r, me, b, depth, rest, alpha', beta, best', bestAct');
        StepFirstBest(acts, sc, sc', s0, best, bestAct, res, true);
      }
    }
  }

  /** The dual for the minimizing loop: the first action reaching the
      lowest scanned score, or `(bestAct, best)` when nothing is lower. */
  lemma {:induction false} MinLoopFirstBest(r: Rules, me: Color, b: Board, depth: nat, acts: seq<Point>,
                                            alpha: ExtInt, beta: ExtInt, best: ExtInt, bestAct: Option<Point>)
    requires depth > 0
    ensures var res := MinLoop(r, me, b, depth, acts, alpha, beta, best, bestAct);
            FirstBest(acts, MinScan(r, me, b, depth, acts, alpha, beta), best, bestAct, res, false)
    decreases |acts|
  {
    if |acts| > 0 {
      var a, rest := acts[0], acts[1..];
      var s0 := AlphaBeta(r, me, r.successor(b, a), depth - 1, alpha, beta, true).1;
      var beta' := Min(beta, s0);
      var best' := if Lt(s0, best) then s0 else best;
      var bestAct' := if Lt(s0, best) then Some(a) else bestAct;
      var res := MinLoop(r, me, b, depth, acts, alpha, beta, best, bestAct);
      var sc := MinScan(r, me, b, depth, acts, alpha, beta);
      if Le(beta', alpha) {
        assert sc == [s0];
        if Lt(s0, best) {
          assert res == (Some(acts[0]), sc[0]);
        }
      } else {
        var sc' := MinScan(r, me, b, depth, rest, alpha, beta');
        assert sc == [s0] + sc';
        assert forall j :: 0 < j < |sc| ==> sc[j] == sc'[j - 1];
        MinLoopFirstBest(r, me, b, depth, rest, alpha, beta', best', bestAct');
        assert res == MinLoop(r, me, b, depth, rest, alpha, beta', best', bestAct');
        StepFirstBest(acts, sc, sc', s0, best, bestAct, res, false);
      }
    }
  }

  /** At every non-leaf node, maximizing or minimizing, the search returns
      the first action in move order whose scanned score is the best one
      seen, ties going to the earliest. */
  lemma SearchKeepsFirstBest(r: Rules, me: Color, b: Board, depth: nat,
                             alpha: ExtInt, beta: ExtInt, maximizing: bool)
    requires !IsLeaf(r, b, depth)
    ensures var ordered := OrderMoves(b, me, r.legal(b));
            var res := AlphaBeta(r, me, b, depth, alpha, beta, maximizing);
            if maximizing then FirstBest(ordered, MaxScan(r, me, b, depth, ordered, alpha, beta), NegInf, None, res, true)
            else FirstBest(ordered, MinScan(r, me, b, depth, ordered, alpha, beta), PosInf, None, res, false)
  {
    var ordered := OrderMoves(b, me, r.legal(b));
    if maximizing {
      MaxLoopFirstBest(r, me, b, depth, ordered, alpha, beta, NegInf, None);
    } else {
      MinLoopFirstBest(r, me, b, depth, ordered, alpha, beta, PosInf, None);
    }
  }

  /** One loop step: if the rest of the scan keeps the first best score
      starting from the updated running best, so does the whole scan. */
  lemma StepFirstBest(acts: seq<Point>, sc: seq<ExtInt>, sc': seq<ExtInt>, s0: ExtInt,
                      best: ExtInt, bestAct: Option<Point>, res: (Option<Point>, ExtInt), maximizing: bool)
    requires |acts| > 0 && |sc'| <= |acts| - 1 && sc == [s0] + sc'
    requires var best' := if Beats(s0, best, maximizing) then s0 else best;
             var bestAct' := if Beats(s0, best, maximizing) then Some(acts[0]) else bestAct;
             FirstBest(acts[1..], sc', best', bestAct', res, maximizing)
    ensures FirstBest(acts, sc, best, bestAct, res, maximizing)
  {
    var rest := acts[1..];
    var best' := if Beats(s0, best, maximizing) then s0 else best;
    var bestAct' := if Beats(s0, best, maximizing) then Some(acts[0]) else bestAct;
    assert forall j :: 0 < j < |sc| ==> sc[j] == sc'[j - 1];
    if res == (bestAct', best') && forall j :: 0 <= j < |sc'| ==> !Beats(sc'[j], best', maximizing) {
      if Beats(s0, best, maximizing) {
        assert res == (Some(acts[0]), sc[0]);
      }
    } else {
      var k' :| 0 <= k' < |sc'| && res == (Some(rest[k']), sc'[k']) && Beats(sc'[k'], best', maximizing)
                && (forall j :: 0 <= j < k' ==> Beats(sc'[k'], sc'[j], maximizing))
                && (forall j :: k' < j < |sc'| ==> !Beats(sc'[j], sc'[k'], maximizing));
      assert acts[k' + 1] == rest[k'];
      assert Beats(sc[k' + 1], best, maximizing) && Beats(sc[k' + 1], sc[0], maximizing);
    }
  }

  /** A leaf returns no action and its own evaluation; any other node
      returns one of its legal actions. */
  lemma SearchActionLegal(r: Rules, me: Color, b: Board, depth: nat,
                          alpha: ExtInt, beta: ExtInt, maximizing: bool)
    ensures var res := AlphaBeta(r, me, b, depth, alpha, beta, maximizing);
            && (IsLeaf(r, b, depth) ==> res == (None, Fin(Evaluate(b, me))))
            && (!IsLeaf(r, b, depth) ==> res.0.Some? && res.0.value in r.legal(b))
  {
    if !IsLeaf(r, b, depth) {
      var ordered := OrderMoves(b, me, r.legal(b));
      if maximizing {
        MaxLoopAction(r, me, b, depth, ordered, alpha, beta, NegInf, None);
      } else {
        MinLoopAction(r, me, b, depth, ordered, alpha, beta, PosInf, None);
      }
      var a := AlphaBeta(r, me, b, depth, alpha, beta, maximizing).0.value;
      assert a in multiset(ordered);
    }
  }

  // ---------------------------------------------------------------------
  // The root: which action get_action plays
  // ---------------------------------------------------------------------

  /** `acts[k]` is the first action, in list order, whose successor has the
      best value. */
  ghost predicate FirstOptimalAt(r: Rules, me: Color, b: Board, depth: nat, acts: seq<Point>, k: int)
    requires depth > 0 && |acts| > 0
  {
    && 0 <= k < |acts|
    && Child(r, me, b, depth, acts[k], false) == MaxValue(r, me, b, depth, acts)
    && forall j :: 0 <= j < k ==> Child(r, me, b, depth, acts[j], false) < MaxValue(r, me, b, depth, acts)
  }

  /** Shifting the first optimal position of the tail by one when the head
      is strictly worse. */
  lemma FirstOptimalShift(r: Rules, me: Color, b: Board, depth: nat, acts: seq<Point>, k: int)
    requires depth > 0 && |acts| > 1
    requires FirstOptimalAt(r, me, b, depth, acts[1..], k)
    requires Child(r, me, b, depth, acts[0], false) < MaxValue(r, me, b, depth, acts[1..])
    ensures FirstOptimalAt(r, me, b, depth, acts, k + 1)
  {
    var m := MaxValue(r, me, b, depth, acts[1..]);
    assert MaxValue(r, me, b, depth, acts) == IntMax(Child(r, me, b, depth, acts[0], false), m);
    assert MaxValue(r, me, b, depth, acts) == m;
    assert acts[k + 1] == acts[1..][k];
    forall j | 0 <= j < k + 1
      ensures Child(r, me, b, depth, acts[j], false) < m
    {
      if j > 0 {
        assert acts[j] == acts[1..][j - 1];
      }
    }
  }

  /** The result the root loop promises for the actions `acts` when it
      starts from the running best `best` and action `bestAct`. */
  ghost predicate RootResult(r: Rules, me: Color, b: Board, depth: nat, acts: seq<Point>,
                             best: ExtInt, bestAct: Option<Point>, res: (Option<Point>, ExtInt))
    requires depth > 0
  {
    if |acts| > 0 && Lt(best, Fin(MaxValue(r, me, b, depth, acts))) then
      && res.1 == Fin(MaxValue(r, me, b, depth, acts))
      && exists k :: FirstOptimalAt(r, me, b, depth, acts, k) && res.0 == Some(acts[k])
    else
      res == (bestAct, best)
  }

  /** At the root the window stays (best, +inf), nothing is pruned, and the
      strict `>` keeps the earliest of equally good actions. */
  lemma {:induction false} RootLoopPicksFirstOptimal(r: Rules, me: Color, b: Board, depth: nat, acts: seq<Point>,
                                                     best: ExtInt, bestAct: Option<Point>)
    requires depth > 0
    requires !best.PosInf?
    ensures RootResult(r, me, b, depth, acts, best, bestAct, MaxLoop(r, me, b, depth, acts, best, PosInf, best, bestAct))
    decreases |acts|
  {
    if |acts| > 0 {
      var a, rest := acts[0], acts[1..];
      var child := r.successor(b, a);
      var va := Child(r, me, b, depth, a, false);
      AlphaBetaWindow(r, me, child, depth - 1, best, PosInf, false);
      AlphaBetaFinite(r, me, child, depth - 1, best, PosInf, false);
      var score := AlphaBeta(r, me, child, depth - 1, best, PosInf, false).1;
      if Lt(best, Fin(va)) {
        assert score == Fin(va);
        RootLoopPicksFirstOptimal(r, me, b, depth, rest, Fin(va), Some(a));
        RootStepImproves(r, me, b, depth, acts, best, bestAct);
      } else {
        assert Le(score, best);
        assert Max(best, score) == best;
        RootLoopPicksFirstOptimal(r, me, b, depth, rest, best, bestAct);
        RootStepKeeps(r, me, b, depth, acts, best, bestAct);
      }
    }
  }

  /** One root step whose action beats the running best. */
  lemma RootStepImproves(r: Rules, me: Color, b: Board, depth: nat, acts: seq<Point>,
                         best: ExtInt, bestAct: Option<Point>)
    requires depth > 0 && |acts| > 0
    requires var va := Child(r, me, b, depth, acts[0], false);
             && Lt(best, Fin(va))
             && MaxLoop(r, me, b, depth, acts, best, PosInf, best, bestAct)
                == MaxLoop(r, me, b, depth, acts[1..], Fin(va), PosInf, Fin(va), Some(acts[0]))
             && RootResult(r, me, b, depth, acts[1..], Fin(va), Some(acts[0]),
                           MaxLoop(r, me, b, depth, acts[1..], Fin(va), PosInf, Fin(va), Some(acts[0])))
    ensures RootResult(r, me, b, depth, acts, best, bestAct, MaxLoop(r, me, b, depth, acts, best, PosInf, best, bestAct))
  {
    var va := Child(r, me, b, depth, acts[0], false);
    var rest := acts[1..];
    var res := MaxLoop(r, me, b, depth, acts, best, PosInf, best, bestAct);
    if |rest| > 0 && va < MaxValue(r, me, b, depth, rest) {
      var k :| FirstOptimalAt(r, me, b, depth, rest, k) && res.0 == Some(rest[k]);
      FirstOptimalShift(r, me, b, depth, acts, k);
    } else {
      assert FirstOptimalAt(r, me, b, depth, acts, 0);
    }
  }

  /** One root step whose action does not beat the running best. */
  lemma RootStepKeeps(r: Rules, me: Color, b: Board, depth: nat, acts: seq<Point>,
                      best: ExtInt, bestAct: Option<Point>)
    requires depth > 0 && |acts| > 0
    requires Le(Fin(Child(r, me, b, depth, acts[0], false)), best)
    requires MaxLoop(r, me, b, depth, acts, best, PosInf, best, bestAct)
             == MaxLoop(r, me, b, depth, acts[1..], best, PosInf, best, bestAct)
    requires RootResult(r, me, b, depth, acts[1..], best, bestAct,
                        MaxLoop(r, me, b, depth, acts[1..], best, PosInf, best, bestAct))
    ensures RootResult(r, me, b, depth, acts, best, bestAct, MaxLoop(r, me, b, depth, acts, best, PosInf, best, bestAct))
  {
    var rest := acts[1..];
    var res := MaxLoop(r, me, b, depth, acts, best, PosInf, best, bestAct);
    if |rest| > 0 && Lt(best, Fin(MaxValue(r, me, b, depth, rest))) {
      var k :| FirstOptimalAt(r, me, b, depth, rest, k) && res.0 == Some(rest[k]);
      FirstOptimalShift(r, me, b, depth, acts, k);
    }
  }

  /** On an undecided board with a legal action, `get_action` plays the
      first action in move order whose successor has the minimax value of
      the board: an optimal action, ties going to the earliest. */
  lemma GetActionPlaysFirstOptimal(r: Rules, me: Color, b: Board, pick: nat)
    requires b.winner.None? && |r.legal(b)| > 0
    ensures var a := GetAction(r, me, b, pick);
            var ordered := OrderMoves(b, me, r.legal(b));
            && a.Some?
            && Child(r, me, b, MaxDepth, a.value, false) == Minimax(r, me, b, MaxDepth, true)
            && exists k :: FirstOptimalAt(r, me, b, MaxDepth, ordered, k) && ordered[k] == a.value
  {
    var ordered := OrderMoves(b, me, r.legal(b));
    ValuesIgnoreOrder(r, me, b, MaxDepth, r.legal(b), ordered);
    RootLoopPicksFirstOptimal(r, me, b, MaxDepth, ordered, NegInf, None);
    assert RootResult(r, me, b, MaxDepth, ordered, NegInf, None,
                      AlphaBeta(r, me, b, MaxDepth, NegInf, PosInf, true));
  }

  /** When the engine lists a legal action, the random fallback of
      `get_action` is taken exactly when the board is already decided: there
      the search stops at the root and names no action.  On an undecided
      board the draw is never used. */
  lemma FallbackOnlyOnDecidedBoard(r: Rules, me: Color, b: Board, pick: nat, pick': nat)
    requires |r.legal(b)| > 0
    ensures GetAction(r, me, b, pick) == AlphaBeta(r, me, b, MaxDepth, NegInf, PosInf, true).0
            <==> b.winner.None?
    ensures b.winner.None? ==> GetAction(r, me, b, pick) == GetAction(r, me, b, pick')
    ensures b.winner.Some? ==> GetAction(r, me, b, pick) == Some(r.legal(b)[pick % |r.legal(b)|])
  {
    SearchActionLegal(r, me, b, MaxDepth, NegInf, PosInf, true);
  }

  /** A decided game is scored +-100000 at every depth and window. */
  lemma AlphaBetaDecided(r: Rules, me: Color, b: Board, depth: nat, alpha: ExtInt, beta: ExtInt, maximizing: bool)
    requires b.winner.Some?
    ensures AlphaBeta(r, me, b, depth, alpha, beta, maximizing)
            == (None, Fin(if b.winner.value == me then WinScore else -WinScore))
  {
    EvaluateDecided(b, me);
  }
}
