/** `findMoveNegaMaxAlphaBeta` of Chess/SmartMoveFinder.py over the tree of positions it
    walks: the score it returns and the value the global `nextMove` holds afterwards.
    Scores are in tenths (see module Evaluation). A node of the tree holds what
    `scoreBoard` gives for its position and, for each move the search loops over there,
    the move and the subtree it leads to; module GameTree builds it from the rules, and
    the methods of module SmartMoveFinder are proved to return what `Negamax` gives on
    it. Beside it, `Value` is plain negamax without pruning, and the alpha-beta search is
    proved to meet it: exactly inside the window, as a bound outside it. */
module Search {
  import opened Basics
  import opened Moves
  import opened Evaluation

  /** A node: the static score of its position and one branch per move of its loop. */
  datatype Tree = Node(eval: int, kids: seq<Branch>)

  /** A move and the subtree of the position it leads to. */
  datatype Branch = Branch(move: Move, tree: Tree)

  /** What a search leaves behind: the score it returns and the global `nextMove`. */
  datatype Outcome = Outcome(score: int, nextMove: Option<Move>)

  /** Every static score down to `depth` lies between the two checkmate values. */
  predicate Bounded(t: Tree, depth: nat)
    decreases depth
  {
    -Tenths(CHECKMATE) <= t.eval <= Tenths(CHECKMATE) &&
    (depth > 0 ==> forall k | 0 <= k < |t.kids| :: Bounded(t.kids[k].tree, depth - 1))
  }

  function Max(a: int, b: int): int
  {
    if a < b then b else a
  }

  /** The search at `depth` with window (alpha, beta) and `turnMultiplier` turn;
      `nm` is `nextMove` before the call. */
  function Negamax(t: Tree, depth: nat, alpha: int, beta: int, turn: int, nm: Option<Move>): Outcome
    decreases depth, 1, 0
  {
    if depth == 0 then Outcome(turn * t.eval, nm)
    else Loop(t, 0, depth, alpha, beta, turn, -Tenths(CHECKMATE), nm)
  }

  /** The loop from the i-th move on, with the current `alpha` and `maxScore`: search the
      subtree one level down with the window negated and swapped, keep a strictly
      better score (and at depth DEPTH the move as `nextMove`), raise alpha to it, and
      stop once alpha reaches beta. */
  function Loop(t: Tree, i: nat, depth: nat, alpha: int, beta: int, turn: int,
                maxScore: int, nm: Option<Move>): Outcome
    requires depth > 0
    decreases depth, 0, |t.kids| - i
  {
    if i >= |t.kids| then Outcome(maxScore, nm)
    else
      var child := Negamax(t.kids[i].tree, depth - 1, -beta, -alpha, -turn, nm);
      var score := -child.score;
      var better := score > maxScore;
      var maxScore' := if better then score else maxScore;
      var nm' := if better && depth == DEPTH then Some(t.kids[i].move) else child.nextMove;
      var alpha' := Max(alpha, maxScore');
      if alpha' >= beta then Outcome(maxScore', nm')
      else Loop(t, i + 1, depth, alpha', beta, turn, maxScore', nm')
  }

  /** One turn of the loop, for a caller that has the child's outcome in hand: the loop
      from the i-th move on either stops after it or goes on from the next move. */
  lemma LoopTurn(t: Tree, i: nat, depth: nat, alpha: int, beta: int, turn: int,
                 maxScore: int, nm: Option<Move>, d: nat, lo: int, hi: int, side: int, child: Outcome)
    requires d + 1 == depth && i < |t.kids|
    requires lo == -beta && hi == -alpha && side == -turn
    requires child == Negamax(t.kids[i].tree, d, lo, hi, side, nm)
    ensures var better := -child.score > maxScore;
      var maxScore' := if better then -child.score else maxScore;
      var nm' := if better && depth == DEPTH then Some(t.kids[i].move) else child.nextMove;
      var alpha' := Max(alpha, maxScore');
      Loop(t, i, depth, alpha, beta, turn, maxScore, nm) ==
        if alpha' >= beta then Outcome(maxScore', nm')
        else Loop(t, i + 1, depth, alpha', beta, turn, maxScore', nm')
  {
  }

  /** Plain negamax to `depth`, without pruning: the best of -CHECKMATE and the negated
      values of the subtrees. The reference the search is held to. */
  function Value(t: Tree, depth: nat, turn: int): int
    decreases depth, 1, 0
  {
    if depth == 0 then turn * t.eval
    else Best(t, 0, depth, turn, -Tenths(CHECKMATE))
  }

  /** The best of `best` and the negated values of the subtrees from the i-th on. */
  function Best(t: Tree, i: nat, depth: nat, turn: int, best: int): int
    requires depth > 0
    decreases depth, 0, |t.kids| - i
  {
    if i >= |t.kids| then best
    else Best(t, i + 1, depth, turn, Max(best, Gain(t, i, depth, turn)))
  }

  /** The plain value of the k-th move for the side to move: the negated value of its
      subtree one level down. */
  function Gain(t: Tree, k: nat, depth: nat, turn: int): int
    requires depth > 0 && k < |t.kids|
    decreases depth, 0, 0
  {
    -Value(t.kids[k].tree, depth - 1, -turn)
  }

  /** What the search guarantees against the plain value v, for a window alpha < beta:
      at most alpha yet no less than v when v fails low, exactly v inside the window,
      at least beta yet no more than v when v fails high. */
  predicate Bounds(r: int, v: int, alpha: int, beta: int)
  {
    (v <= alpha ==> v <= r <= alpha) &&
    (alpha < v < beta ==> r == v) &&
    (beta <= v ==> beta <= r <= v)
  }

  /** Starting the best from a maximum is taking the maximum of the best. */
  lemma {:induction false} BestMax(t: Tree, i: nat, depth: nat, turn: int, a: int, best: int)
    requires depth > 0 && i <= |t.kids|
    ensures Best(t, i, depth, turn, Max(a, best)) == Max(a, Best(t, i, depth, turn, best))
    decreases |t.kids| - i
  {
    if i < |t.kids| {
      var u := Gain(t, i, depth, turn);
      BestMax(t, i + 1, depth, turn, a, Max(best, u));
      assert Max(Max(a, best), u) == Max(a, Max(best, u));
    }
  }

  /** The best is never below its start. */
  lemma {:induction false} BestAtLeast(t: Tree, i: nat, depth: nat, turn: int, best: int)
    requires depth > 0 && i <= |t.kids|
    ensures Best(t, i, depth, turn, best) >= best
    decreases |t.kids| - i
  {
    if i < |t.kids| {
      BestAtLeast(t, i + 1, depth, turn, Max(best, Gain(t, i, depth, turn)));
    }
  }

  /** One turn of the loop in terms of plain values: s is the score the search found for
      the move and u its plain value, related by the child's `Bounds`; `rest` is the plain
      best of the moves after it, r the loop's result from there. */
  lemma LoopStep(alpha: int, beta: int, best: int, s: int, u: int, rest: int, r: int)
    requires alpha < beta && rest >= best
    requires Bounds(-s, -u, -beta, -alpha)
    requires var best' := if s > best then s else best;
      Max(alpha, best') < beta ==> Bounds(r, Max(s, rest), Max(alpha, best'), beta)
    ensures var best' := if s > best then s else best;
      Bounds(if Max(alpha, best') >= beta then best' else r, Max(u, rest), alpha, beta)
  {
  }

  /** The alpha-beta loop meets the plain best of the same moves within `Bounds`. */
  lemma {:induction false} LoopBounds(t: Tree, i: nat, depth: nat, alpha: int, beta: int, turn: int,
                                      best: int, nm: Option<Move>)
    requires depth > 0 && i <= |t.kids| && alpha < beta
    ensures Bounds(Loop(t, i, depth, alpha, beta, turn, best, nm).score, Best(t, i, depth, turn, best), alpha, beta)
    decreases depth, 0, |t.kids| - i, 1
  {
    if i < |t.kids| {
      var child := Negamax(t.kids[i].tree, depth - 1, -beta, -alpha, -turn, nm);
      var u := Gain(t, i, depth, turn);
      var s := -child.score;
      ChildBounds(t, i, depth, alpha, beta, turn, nm);
      var best' := if s > best then s else best;
      var alpha' := Max(alpha, best');
      var nm' := if s > best && depth == DEPTH then Some(t.kids[i].move) else child.nextMove;
      var rest := Best(t, i + 1, depth, turn, best);
      BestAtLeast(t, i + 1, depth, turn, best);
      BestMax(t, i + 1, depth, turn, u, best);
      assert Max(best, u) == Max(u, best);
      var r := 0;
      if alpha' < beta {
        LoopBounds(t, i + 1, depth, alpha', beta, turn, best', nm');
        BestMax(t, i + 1, depth, turn, s, best);
        assert best' == Max(s, best);
        r := Loop(t, i + 1, depth, alpha', beta, turn, best', nm').score;
      }
      LoopStep(alpha, beta, best, s, u, rest, r);
    }
  }

  /** The same for the search of the i-th subtree, with the window negated and swapped. */
  lemma {:induction false} ChildBounds(t: Tree, i: nat, depth: nat, alpha: int, beta: int, turn: int, nm: Option<Move>)
    requires depth > 0 && i < |t.kids| && alpha < beta
    ensures Bounds(Negamax(t.kids[i].tree, depth - 1, -beta, -alpha, -turn, nm).score, -Gain(t, i, depth, turn), -beta, -alpha)
    decreases depth, 0, |t.kids| - i, 0
  {
    NegamaxBounds(t.kids[i].tree, depth - 1, -beta, -alpha, -turn, nm);
  }

  /** The alpha-beta search meets plain negamax within `Bounds` for every window alpha < beta. */
  lemma {:induction false} NegamaxBounds(t: Tree, depth: nat, alpha: int, beta: int, turn: int, nm: Option<Move>)
    requires alpha < beta
    ensures Bounds(Negamax(t, depth, alpha, beta, turn, nm).score, Value(t, depth, turn), alpha, beta)
    decreases depth, 1, 0
  {
    if depth > 0 {
      LoopBounds(t, 0, depth, alpha, beta, turn, -Tenths(CHECKMATE), nm);
    }
  }

  /** With every static score between the checkmate values and a turn of 1 or -1, the
      loop never ends below its `maxScore` nor above CHECKMATE. */
  lemma {:induction false} LoopRange(t: Tree, i: nat, depth: nat, alpha: int, beta: int, turn: int,
                                     maxScore: int, nm: Option<Move>)
    requires Bounded(t, depth) && depth > 0 && i <= |t.kids|
    requires turn == 1 || turn == -1
    requires -Tenths(CHECKMATE) <= maxScore <= Tenths(CHECKMATE)
    ensures maxScore <= Loop(t, i, depth, alpha, beta, turn, maxScore, nm).score <= Tenths(CHECKMATE)
    decreases depth, 0, |t.kids| - i
  {
    if i < |t.kids| {
      var kid := t.kids[i].tree;
      assert Bounded(kid, depth - 1);
      var child := Negamax(kid, depth - 1, -beta, -alpha, -turn, nm);
      NegamaxRange(kid, depth - 1, -beta, -alpha, -turn, nm);
      var score := -child.score;
      var maxScore' := if score > maxScore then score else maxScore;
      var nm' := if score > maxScore && depth == DEPTH then Some(t.kids[i].move) else child.nextMove;
      var alpha' := Max(alpha, maxScore');
      if alpha' < beta {
        LoopRange(t, i + 1, depth, alpha', beta, turn, maxScore', nm');
        assert Loop(t, i, depth, alpha, beta, turn, maxScore, nm) == Loop(t, i + 1, depth, alpha', beta, turn, maxScore', nm');
      } else {
        assert Loop(t, i, depth, alpha, beta, turn, maxScore, nm).score == maxScore';
      }
    }
  }

  /** The search result lies between -CHECKMATE and CHECKMATE, and below depth 0 it is
      exactly -CHECKMATE when there is no move to search. */
  lemma {:induction false} NegamaxRange(t: Tree, depth: nat, alpha: int, beta: int, turn: int, nm: Option<Move>)
    requires Bounded(t, depth) && (turn == 1 || turn == -1)
    ensures var r := Negamax(t, depth, alpha, beta, turn, nm).score;
      -Tenths(CHECKMATE) <= r <= Tenths(CHECKMATE) &&
      (depth > 0 && |t.kids| == 0 ==> r == -Tenths(CHECKMATE))
    decreases depth, 1, 0
  {
    if depth > 0 {
      LoopRange(t, 0, depth, alpha, beta, turn, -Tenths(CHECKMATE), nm);
    }
  }

  lemma {:induction false} BestRange(t: Tree, i: nat, depth: nat, turn: int, best: int)
    requires Bounded(t, depth) && depth > 0 && i <= |t.kids|
    requires turn == 1 || turn == -1
    requires -Tenths(CHECKMATE) <= best <= Tenths(CHECKMATE)
    ensures best <= Best(t, i, depth, turn, best) <= Tenths(CHECKMATE)
    decreases depth, 0, |t.kids| - i
  {
    if i < |t.kids| {
      ValueRange(t.kids[i].tree, depth - 1, -turn);
      BestRange(t, i + 1, depth, turn, Max(best, Gain(t, i, depth, turn)));
    }
  }

  /** Plain negamax lies between -CHECKMATE and CHECKMATE as well. */
  lemma {:induction false} ValueRange(t: Tree, depth: nat, turn: int)
    requires Bounded(t, depth) && (turn == 1 || turn == -1)
    ensures -Tenths(CHECKMATE) <= Value(t, depth, turn) <= Tenths(CHECKMATE)
    decreases depth, 1, 0
  {
    if depth > 0 {
      BestRange(t, 0, depth, turn, -Tenths(CHECKMATE));
    }
  }

  /** With the window (-CHECKMATE, CHECKMATE) that `findBestMove` opens, the alpha-beta
      search returns exactly the plain negamax value: pruning never changes the score. */
  lemma FullWindowExact(t: Tree, depth: nat, turn: int, nm: Option<Move>)
    requires Bounded(t, depth) && (turn == 1 || turn == -1)
    ensures Negamax(t, depth, -Tenths(CHECKMATE), Tenths(CHECKMATE), turn, nm).score == Value(t, depth, turn)
  {
    NegamaxBounds(t, depth, -Tenths(CHECKMATE), Tenths(CHECKMATE), turn, nm);
    ValueRange(t, depth, turn);
  }

  lemma {:induction false} LoopKeepsNextMove(t: Tree, i: nat, depth: nat, alpha: int, beta: int, turn: int,
                                             maxScore: int, nm: Option<Move>)
    requires 0 < depth < DEPTH && i <= |t.kids|
    ensures Loop(t, i, depth, alpha, beta, turn, maxScore, nm).nextMove == nm
    decreases depth, 0, |t.kids| - i
  {
    if i < |t.kids| {
      var child := Negamax(t.kids[i].tree, depth - 1, -beta, -alpha, -turn, nm);
      KeepsNextMove(t.kids[i].tree, depth - 1, -beta, -alpha, -turn, nm);
      var score := -child.score;
      var maxScore' := if score > maxScore then score else maxScore;
      if Max(alpha, maxScore') < beta {
        LoopKeepsNextMove(t, i + 1, depth, Max(alpha, maxScore'), beta, turn, maxScore', nm);
      }
    }
  }

  /** Below depth DEPTH a search never writes `nextMove`. */
  lemma {:induction false} KeepsNextMove(t: Tree, depth: nat, alpha: int, beta: int, turn: int, nm: Option<Move>)
    requires depth < DEPTH
    ensures Negamax(t, depth, alpha, beta, turn, nm).nextMove == nm
    decreases depth, 1, 0
  {
    if depth > 0 {
      LoopKeepsNextMove(t, 0, depth, alpha, beta, turn, -Tenths(CHECKMATE), nm);
    }
  }

  /** At depth DEPTH the loop either leaves `maxScore` and `nextMove` as they were, or
      ends strictly above `maxScore` with `nextMove` one of the node's moves. */
  lemma {:induction false} RootLoopChoice(t: Tree, i: nat, alpha: int, beta: int, turn: int,
                                          maxScore: int, nm: Option<Move>)
    requires i <= |t.kids|
    ensures var r := Loop(t, i, DEPTH, alpha, beta, turn, maxScore, nm);
      (r.score == maxScore && r.nextMove == nm) ||
      (r.score > maxScore && r.nextMove.Some? && exists k | i <= k < |t.kids| :: r.nextMove.value == t.kids[k].move)
    decreases |t.kids| - i
  {
    if i < |t.kids| {
      var child := Negamax(t.kids[i].tree, DEPTH - 1, -beta, -alpha, -turn, nm);
      KeepsNextMove(t.kids[i].tree, DEPTH - 1, -beta, -alpha, -turn, nm);
      var score := -child.score;
      var maxScore' := if score > maxScore then score else maxScore;
      var nm' := if score > maxScore then Some(t.kids[i].move) else nm;
      if Max(alpha, maxScore') < beta {
        RootLoopChoice(t, i + 1, Max(alpha, maxScore'), beta, turn, maxScore', nm');
      }
    }
  }

  /** The k-th move is the first of the node's moves whose plain value at `depth` is v,
      every earlier move's being strictly lower. */
  predicate FirstBest(t: Tree, depth: nat, turn: int, k: nat, v: int)
    requires depth > 0
  {
    k < |t.kids| && Gain(t, k, depth, turn) == v &&
    forall j | 0 <= j < k :: Gain(t, j, depth, turn) < v
  }

  /** With the full window at the root, alpha is always `maxScore`, so a move is taken
      exactly when its plain value beats every earlier one: the loop from the i-th move
      on ends with the first move of greatest plain value, or with the `nextMove` it had
      when no later move beats `maxScore`. */
  lemma {:induction false} RootLoopFirstBest(t: Tree, i: nat, turn: int, maxScore: int, nm: Option<Move>)
    requires Bounded(t, DEPTH) && (turn == 1 || turn == -1) && i <= |t.kids|
    requires -Tenths(CHECKMATE) <= maxScore < Tenths(CHECKMATE)
    requires forall j | 0 <= j < i :: Gain(t, j, DEPTH, turn) <= maxScore
    requires nm.Some? ==> exists k | 0 <= k < i :: t.kids[k].move == nm.value && FirstBest(t, DEPTH, turn, k, maxScore)
    ensures var r := Loop(t, i, DEPTH, maxScore, Tenths(CHECKMATE), turn, maxScore, nm);
      r.nextMove.Some? ==> exists k | 0 <= k < |t.kids| :: (t.kids[k].move == r.nextMove.value &&
        FirstBest(t, DEPTH, turn, k, Best(t, i, DEPTH, turn, maxScore)))
    decreases |t.kids| - i
  {
    var top := Tenths(CHECKMATE);
    if i < |t.kids| {
      var kid := t.kids[i].tree;
      var child := Negamax(kid, DEPTH - 1, -top, -maxScore, -turn, nm);
      KeepsNextMove(kid, DEPTH - 1, -top, -maxScore, -turn, nm);
      NegamaxBounds(kid, DEPTH - 1, -top, -maxScore, -turn, nm);
      ValueRange(kid, DEPTH - 1, -turn);
      var u := Gain(t, i, DEPTH, turn);
      var s := -child.score;
      assert s > maxScore <==> u > maxScore;
      assert s > maxScore ==> s == u;
      var m' := Max(maxScore, u);
      var nm' := if s > maxScore then Some(t.kids[i].move) else nm;
      LoopTurn(t, i, DEPTH, maxScore, top, turn, maxScore, nm, DEPTH - 1, -top, -maxScore, -turn, child);
      assert Best(t, i, DEPTH, turn, maxScore) == Best(t, i + 1, DEPTH, turn, m');
      if m' >= top {
        BestRange(t, i + 1, DEPTH, turn, m');
        assert FirstBest(t, DEPTH, turn, i, m');
      } else {
        if s > maxScore {
          assert FirstBest(t, DEPTH, turn, i, m');
        }
        RootLoopFirstBest(t, i + 1, turn, m', nm');
      }
    }
  }

  /** `findBestMove`: the search at depth DEPTH with the full window and `nextMove`
      cleared first. */
  function BestMove(t: Tree, turn: int): (o: Outcome)
  {
    Negamax(t, DEPTH, -Tenths(CHECKMATE), Tenths(CHECKMATE), turn, None)
  }

  /** `findBestMove` returns the first of the moves it was given whose plain negamax
      value is the best, or None exactly when the search scores -CHECKMATE (in particular
      when there is no move); its score is the plain negamax value. */
  lemma BestMoveChoice(t: Tree, turn: int)
    requires Bounded(t, DEPTH) && (turn == 1 || turn == -1)
    ensures var o := BestMove(t, turn);
      (o.nextMove.Some? ==> exists k | 0 <= k < |t.kids| :: (t.kids[k].move == o.nextMove.value &&
         FirstBest(t, DEPTH, turn, k, Value(t, DEPTH, turn)))) &&
      (o.nextMove == None <==> o.score == -Tenths(CHECKMATE)) &&
      (|t.kids| == 0 ==> o.nextMove == None) &&
      o.score == Value(t, DEPTH, turn)
  {
    RootLoopChoice(t, 0, -Tenths(CHECKMATE), Tenths(CHECKMATE), turn, -Tenths(CHECKMATE), None);
    RootLoopFirstBest(t, 0, turn, -Tenths(CHECKMATE), None);
    FullWindowExact(t, DEPTH, turn, None);
  }
}
