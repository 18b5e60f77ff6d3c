/** The tree of positions `findMoveNegaMaxAlphaBeta` of Chess/SmartMoveFinder.py walks.
    It is grown from three things the search asks of the engine: the position a move
    leads to (`makeMove`), the moves of a position (`getValidMoves`) and the score of a
    position (`scoreBoard`). `Grow` takes them as a `Game`, and `TreeOf` is `Grow` for
    the rules of modules Rules, Legality and Evaluation: each node holds what
    `scoreBoard` gives for its position, and each move the loop makes leads to the tree
    of the position `makeMove` reaches, over the moves `getValidMoves` returns there. */
module GameTree {
  import opened Basics
  import opened Moves
  import opened Rules
  import opened Legality
  import opened Invariant
  import opened Evaluation
  import opened Search

  /** Every move of xs is one of ys. */
  predicate Among(xs: seq<Move>, ys: seq<Move>)
    decreases |xs|
  {
    |xs| == 0 || (xs[0] in ys && Among(xs[1..], ys))
  }

  lemma {:induction false} AmongAt(xs: seq<Move>, ys: seq<Move>, k: nat)
    requires Among(xs, ys) && k < |xs|
    ensures xs[k] in ys
    decreases k
  {
    if k > 0 {
      AmongAt(xs[1..], ys, k - 1);
      assert xs[1..][k - 1] == xs[k];
    }
  }

  lemma {:induction false} AmongAll(xs: seq<Move>, ys: seq<Move>)
    requires forall m | m in xs :: m in ys
    ensures Among(xs, ys)
    decreases |xs|
  {
    if |xs| > 0 {
      assert forall m | m in xs[1..] :: m in xs;
      AmongAll(xs[1..], ys);
    }
  }

  /** A position reached by play with a list of moves the search may make there: each
      is a move `getValidMoves` returns for it. */
  predicate Playable(p: Position, moves: seq<Move>)
  {
    Valid(p) && Among(moves, ValidMoves(p))
  }

  /** The k-th move of a playable list is a valid move. */
  lemma PlayableAt(p: Position, moves: seq<Move>, k: nat)
    requires Playable(p, moves) && k < |moves|
    ensures Valid(p) && moves[k] in ValidMoves(p)
  {
    AmongAt(moves, ValidMoves(p), k);
  }

  /** What the search asks of the engine. */
  datatype Game = Game(next: (Position, Move) -> Position,
                       replies: Position -> seq<Move>,
                       score: (Position, bool) -> int)

  /** The chess rules as a `Game`; `makeMove` and `getValidMoves` are only ever asked for
      a valid move and a valid position, where the guards hold (`PlayStep`). */
  function Chess(): Game
  {
    Game((p: Position, m: Move) => if Applicable(m) then MakeMovePos(p, m) else p,
         (p: Position) => if Ready(p) then ValidMoves(p) else [],
         (p: Position, checkmate: bool) => BoardScore(p.board, p.whiteToMove, checkmate, false))
  }

  /** The tree of g at `depth` from p over `moves`, `checkmate` being the flag scored
      there: a node scores its position, and below depth 0 has one branch per move. */
  function Grow(g: Game, p: Position, checkmate: bool, moves: seq<Move>, depth: nat): Tree
    decreases depth, 0
  {
    Node(g.score(p, checkmate), if depth == 0 then [] else Kids(g, p, moves, 0, depth - 1))
  }

  /** The branches of the moves from the i-th on, in order. */
  function Kids(g: Game, p: Position, moves: seq<Move>, i: nat, depth: nat): (bs: seq<Branch>)
    requires i <= |moves|
    ensures |bs| == |moves| - i
    decreases depth, 2, |moves| - i
  {
    if i == |moves| then [] else [Kid(g, p, moves[i], depth)] + Kids(g, p, moves, i + 1, depth)
  }

  /** The branch of move m: the tree of the position it leads to, over the replies there,
      with the flag set exactly when there are none (as `getValidMoves` leaves it). */
  function Kid(g: Game, p: Position, m: Move, depth: nat): Branch
    decreases depth, 1
  {
    var q := g.next(p, m);
    var replies := g.replies(q);
    Branch(m, Grow(g, q, |replies| == 0, replies, depth))
  }

  /** The tree the search at `depth` walks from p over `moves`. */
  function TreeOf(p: Position, checkmate: bool, moves: seq<Move>, depth: nat): Tree
  {
    Grow(Chess(), p, checkmate, moves, depth)
  }

  /** The k-th of the branches from the i-th move on is the branch of the k-th move. */
  lemma {:induction false} KidsAt(g: Game, p: Position, moves: seq<Move>, i: nat, depth: nat, k: nat)
    requires i <= k < |moves|
    ensures Kids(g, p, moves, i, depth)[k - i] == Kid(g, p, moves[k], depth)
    decreases k - i
  {
    if i < k {
      KidsAt(g, p, moves, i + 1, depth, k);
    }
  }

  /** A node scores its position. */
  lemma TreeEval(p: Position, checkmate: bool, moves: seq<Move>, depth: nat)
    ensures TreeOf(p, checkmate, moves, depth).eval == BoardScore(p.board, p.whiteToMove, checkmate, false)
  {
  }

  /** A node has a branch per move below depth 0 and none at depth 0. */
  lemma TreeSize(p: Position, checkmate: bool, moves: seq<Move>, depth: nat)
    ensures |TreeOf(p, checkmate, moves, depth).kids| == if depth == 0 then 0 else |moves|
  {
  }

  /** The branches hold the moves, in order. */
  lemma TreeMoves(p: Position, checkmate: bool, moves: seq<Move>, depth: nat)
    ensures var t := TreeOf(p, checkmate, moves, depth);
      forall k | 0 <= k < |t.kids| :: t.kids[k].move == moves[k]
  {
    if depth > 0 {
      forall k | 0 <= k < |moves|
        ensures Kids(Chess(), p, moves, 0, depth - 1)[k].move == moves[k]
      {
        KidsAt(Chess(), p, moves, 0, depth - 1, k);
      }
    }
  }

  /** At depth 0 the search returns the static score of the position from the side of
      `turn` and leaves `nextMove` as it was; deeper, a position without moves scores
      -CHECKMATE, also leaving `nextMove` alone. */
  lemma SearchEnds(p: Position, checkmate: bool, moves: seq<Move>, depth: nat,
                   alpha: int, beta: int, turn: int, nm: Option<Move>)
    ensures var o := Negamax(TreeOf(p, checkmate, moves, depth), depth, alpha, beta, turn, nm);
      (depth == 0 ==> o == Outcome(turn * BoardScore(p.board, p.whiteToMove, checkmate, false), nm)) &&
      (depth > 0 && |moves| == 0 ==> o == Outcome(-Tenths(CHECKMATE), nm))
  {
  }

  /** Below depth 0 the branch of the k-th move is `Kid` of that move one level down. */
  lemma BranchAt(g: Game, p: Position, checkmate: bool, moves: seq<Move>, depth: nat, d: nat, k: nat)
    requires d + 1 == depth && k < |moves|
    ensures var t := Grow(g, p, checkmate, moves, depth);
      |t.kids| == |moves| && t.kids[k] == Kid(g, p, moves[k], d)
  {
    KidsAt(g, p, moves, 0, depth - 1, k);
  }

  /** Every score of g lies between the checkmate values. */
  ghost predicate ScoresBounded(g: Game)
  {
    forall p, checkmate :: -Tenths(CHECKMATE) <= g.score(p, checkmate) <= Tenths(CHECKMATE)
  }

  /** Then so does every static score of its trees. */
  lemma {:induction false} TreeBounded(g: Game, p: Position, checkmate: bool, moves: seq<Move>, depth: nat)
    requires ScoresBounded(g)
    ensures Bounded(Grow(g, p, checkmate, moves, depth), depth)
    decreases depth
  {
    var t := Grow(g, p, checkmate, moves, depth);
    if depth > 0 {
      forall k | 0 <= k < |t.kids|
        ensures Bounded(t.kids[k].tree, depth - 1)
      {
        BranchAt(g, p, checkmate, moves, depth, depth - 1, k);
        var q := g.next(p, moves[k]);
        TreeBounded(g, q, |g.replies(q)| == 0, g.replies(q), depth - 1);
      }
    }
  }

  /** `scoreBoard` never leaves the checkmate values. */
  lemma ChessScoresBounded()
    ensures ScoresBounded(Chess())
  {
    forall p: Position, checkmate: bool
      ensures -Tenths(CHECKMATE) <= Chess().score(p, checkmate) <= Tenths(CHECKMATE)
    {
      BoardScoreExtremes(p.board, p.whiteToMove, checkmate, false);
    }
  }

  /** A valid move can be made, the position it leads to is valid again with its valid
      moves playable there, and `undoMove` takes it back exactly. */
  lemma PlayStep(p: Position, m: Move)
    requires Valid(p) && m in ValidMoves(p)
    ensures Applicable(m) && Valid(MakeMovePos(p, m)) && UndoPos(MakeMovePos(p, m)) == p
    ensures Playable(MakeMovePos(p, m), ValidMoves(MakeMovePos(p, m)))
  {
    ValidPreserved(p, m);
    ReadyAfter(p, m);
    MakeUndoRoundTrip(p, m);
    var q := MakeMovePos(p, m);
    AmongAll(ValidMoves(q), ValidMoves(q));
  }

  /** The branch of the k-th move holds that move and the tree of the position it leads
      to, over the valid moves there, with the flag set exactly when there are none. */
  lemma SubtreeAt(p: Position, checkmate: bool, moves: seq<Move>, depth: nat, d: nat, k: nat)
    requires Playable(p, moves) && d + 1 == depth && k < |moves|
    ensures Applicable(moves[k]) && Valid(MakeMovePos(p, moves[k]))
    ensures var q := MakeMovePos(p, moves[k]);
      var t := TreeOf(p, checkmate, moves, depth);
      |t.kids| == |moves| &&
      t.kids[k] == Branch(moves[k], TreeOf(q, |ValidMoves(q)| == 0, ValidMoves(q), d))
  {
    PlayableAt(p, moves, k);
    PlayStep(p, moves[k]);
    BranchAt(Chess(), p, checkmate, moves, depth, d, k);
    var q := MakeMovePos(p, moves[k]);
    assert Chess().next(p, moves[k]) == q;
    assert Chess().replies(q) == ValidMoves(q);
  }
}
