/** The functions of Chess/SmartMoveFinder.py as methods: `scoreMaterial` and
    `scoreBoard` run their nested loops, `findMoveNegaMaxAlphaBeta` plays each move on
    the shared `GameState`, searches the replies and takes the move back, and
    `findBestMove` starts it at the root. Each is proved to compute what the functions
    of modules Evaluation and Search give, on the tree of positions of module
    GameTree. */
module SmartMoveFinder {
  import opened Basics
  import opened Moves
  import opened Rules
  import opened Legality
  import opened Invariant
  import opened Evaluation
  import opened Search
  import opened GameTree
  import opened ChessEngine

  /** `scoreMaterial`: walks every row and every cell, adding white's piece values and
      subtracting black's. */
  method ScoreMaterial(board: Board) returns (score: int)
    ensures score == Material(board)
  {
    score := 0;
    var r := 0;
    while r < 8
      invariant 0 <= r <= 8 && score == RowsMaterial(board, r)
    {
      var row := board[r];
      var c := 0;
      while c < 8
        invariant 0 <= c <= 8 && score == RowsMaterial(board, r) + RowMaterial(row, c)
      {
        var square := row[c];
        if square.Piece? && square.color == White {
          score := score + PieceScore(square.kind);
        } else if square.Piece? && square.color == Black {
          score := score - PieceScore(square.kind);
        }
        c := c + 1;
      }
      r := r + 1;
    }
  }

  /** `scoreBoard`, in tenths: the checkmate value for the side that is mated, the
      stalemate value, or else every piece's value plus its table entry (none for a king),
      counted for white and against black. */
  method ScoreBoard(gs: GameState) returns (score: int)
    ensures score == BoardScore(gs.board, gs.whiteToMove, gs.checkmate, gs.stalemate)
  {
    if gs.checkmate {
      if gs.whiteToMove {
        return -Tenths(CHECKMATE);
      } else {
        return Tenths(CHECKMATE);
      }
    } else if gs.stalemate {
      return Tenths(STALEMATE);
    }
    var b := gs.board;
    score := 0;
    var r := 0;
    while r < 8
      invariant 0 <= r <= 8 && score == RowsScore(b, r)
    {
      var c := 0;
      while c < 8
        invariant 0 <= c <= 8 && score == RowsScore(b, r) + RowScore(b, r, c)
      {
        var square := b[r][c];
        if square != Empty {
          var piecePositionScore := 0;
          if square.kind != King {
            TablesBounded(square.kind);
            piecePositionScore := PositionTable(square.kind)[r][c];
          }
          if square.color == White {
            score := score + (Tenths(PieceScore(square.kind)) + piecePositionScore);
          } else if square.color == Black {
            score := score - (Tenths(PieceScore(square.kind)) + piecePositionScore);
          }
        }
        c := c + 1;
      }
      r := r + 1;
    }
  }

  /** `findMoveNegaMaxAlphaBeta` with the global `nextMove` passed in and handed back:
      returns what `Negamax` gives on the tree of the current position. Every move made
      is taken back, so the position is as before; `checkmate` and `stalemage` are
      cleared by the first `undoMove` and otherwise left alone, and `stalemate` stays
      false. */
  method FindMoveNegaMaxAlphaBeta(gs: GameState, validMoves: seq<Move>, depth: nat, alpha: int, beta: int,
                                  turnMultiplier: int, nextMove: Option<Move>)
    returns (score: int, nextMove': Option<Move>)
    requires Playable(gs.Pos(), validMoves) && !gs.stalemate
    modifies gs
    ensures gs.Pos() == old(gs.Pos()) && !gs.stalemate
    ensures Outcome(score, nextMove') ==
      Negamax(TreeOf(old(gs.Pos()), old(gs.checkmate), validMoves, depth), depth, alpha, beta, turnMultiplier, nextMove)
    ensures depth > 0 && |validMoves| > 0 ==> !gs.checkmate && !gs.stalemage
    ensures depth == 0 || |validMoves| == 0 ==> gs.checkmate == old(gs.checkmate) && gs.stalemage == old(gs.stalemage)
    decreases depth, 2
  {
    ghost var p, checkmate := gs.Pos(), gs.checkmate;
    ghost var t := TreeOf(p, checkmate, validMoves, depth);
    if depth == 0 {
      TreeEval(p, checkmate, validMoves, depth);
      var s := ScoreBoard(gs);
      return turnMultiplier * s, nextMove;
    }
    TreeSize(p, checkmate, validMoves, depth);
    var maxScore := -Tenths(CHECKMATE);
    var a := alpha;
    nextMove' := nextMove;
    var i := 0;
    while i < |validMoves|
      invariant 0 <= i <= |validMoves|
      invariant gs.Pos() == p && !gs.stalemate
      invariant Loop(t, i, depth, a, beta, turnMultiplier, maxScore, nextMove') ==
        Negamax(t, depth, alpha, beta, turnMultiplier, nextMove)
      invariant i > 0 ==> !gs.checkmate && !gs.stalemage
      invariant i == 0 ==> gs.checkmate == old(gs.checkmate) && gs.stalemage == old(gs.stalemage)
    {
      var d, lo, hi, side := depth - 1, -beta, -a, -turnMultiplier;
      var s, nm := SearchAfter(gs, p, checkmate, validMoves, i, depth, d, lo, hi, side, nextMove');
      LoopTurn(t, i, depth, a, beta, turnMultiplier, maxScore, nextMove', d, lo, hi, side, Outcome(s, nm));
      var sc := -s;
      if sc > maxScore {
        maxScore := sc;
        if depth == DEPTH {
          nm := Some(validMoves[i]);
        }
      }
      nextMove' := nm;
      if maxScore > a {
        a := maxScore;
      }
      if a >= beta {
        break;
      }
      i := i + 1;
    }
    score := maxScore;
  }

  /** One turn of `findMoveNegaMaxAlphaBeta`'s loop: make the k-th move, ask for the
      replies, search them one level down and take the move back. The position is as
      before and the flags are those of the `undoMove`. */
  method SearchAfter(gs: GameState, ghost p: Position, ghost checkmate: bool, validMoves: seq<Move>,
                     k: nat, ghost depth: nat, d: nat, alpha: int, beta: int, turnMultiplier: int,
                     nextMove: Option<Move>)
    returns (score: int, nextMove': Option<Move>)
    requires gs.Pos() == p && Playable(p, validMoves) && k < |validMoves| && !gs.stalemate
    requires d + 1 == depth
    modifies gs
    ensures gs.Pos() == old(gs.Pos()) && !gs.stalemate && !gs.checkmate && !gs.stalemage
    ensures var t := TreeOf(p, checkmate, validMoves, depth);
      k < |t.kids| && t.kids[k].move == validMoves[k] &&
      Outcome(score, nextMove') == Negamax(t.kids[k].tree, d, alpha, beta, turnMultiplier, nextMove)
    decreases depth, 1
  {
    SubtreeAt(p, checkmate, validMoves, depth, d, k);
    PlayableAt(p, validMoves, k);
    var nextMoves := Descend(gs, p, validMoves[k]);
    score, nextMove' := FindMoveNegaMaxAlphaBeta(gs, nextMoves, d, alpha, beta, turnMultiplier, nextMove);
    gs.UndoMove();
  }

  /** The first half of that turn: `makeMove` then `getValidMoves`. The position is the
      one the move leads to, `nextMoves` its valid moves, and `checkmate` says whether
      there are none. */
  method Descend(gs: GameState, ghost p: Position, move: Move) returns (nextMoves: seq<Move>)
    requires gs.Pos() == p && Valid(p) && move in ValidMoves(p) && !gs.stalemate
    modifies gs
    ensures Applicable(move) && gs.Pos() == MakeMovePos(p, move) && !gs.stalemate
    ensures Playable(gs.Pos(), nextMoves) && nextMoves == ValidMoves(gs.Pos()) && gs.checkmate == (|nextMoves| == 0)
    ensures gs.stalemage == (old(gs.stalemage) && |Candidates(gs.Pos())| == 0)
    ensures gs.moveLog != [] && UndoPos(gs.Pos()) == p
  {
    PlayStep(p, move);
    gs.MakeMove(move);
    nextMoves := gs.GetValidMoves();
  }

  /** The `turnMultiplier` of the side to move. */
  function Turn(whiteToMove: bool): int
  {
    if whiteToMove then 1 else -1
  }

  /** `findBestMove`, with the order of `validMoves` (which the source shuffles first)
      taken as given: the move the search at depth DEPTH picks, one of `validMoves`, or
      None when there is none or every one loses to checkmate. */
  method FindBestMove(gs: GameState, validMoves: seq<Move>) returns (best: Option<Move>)
    requires Playable(gs.Pos(), validMoves) && !gs.stalemate
    modifies gs
    ensures gs.Pos() == old(gs.Pos()) && !gs.stalemate
    ensures best == BestMove(TreeOf(old(gs.Pos()), old(gs.checkmate), validMoves, DEPTH), Turn(old(gs.whiteToMove))).nextMove
    ensures var t := TreeOf(old(gs.Pos()), old(gs.checkmate), validMoves, DEPTH);
      best.Some? ==> exists k | 0 <= k < |validMoves| :: (validMoves[k] == best.value &&
        FirstBest(t, DEPTH, Turn(old(gs.whiteToMove)), k, Value(t, DEPTH, Turn(old(gs.whiteToMove)))))
    ensures |validMoves| == 0 ==> best == None
    ensures |validMoves| > 0 ==> !gs.checkmate && !gs.stalemage
    ensures |validMoves| == 0 ==> gs.checkmate == old(gs.checkmate) && gs.stalemage == old(gs.stalemage)
  {
    var nextMove: Option<Move> := None;
    ghost var t := TreeOf(gs.Pos(), gs.checkmate, validMoves, DEPTH);
    var turn := if gs.whiteToMove then 1 else -1;
    var score;
    score, nextMove := FindMoveNegaMaxAlphaBeta(gs, validMoves, DEPTH, -Tenths(CHECKMATE), Tenths(CHECKMATE), turn, nextMove);
    TreeMoves(old(gs.Pos()), old(gs.checkmate), validMoves, DEPTH);
    ChessScoresBounded();
    TreeBounded(Chess(), old(gs.Pos()), old(gs.checkmate), validMoves, DEPTH);
    BestMoveChoice(t, turn);
    best := nextMove;
  }

  /** The score of `findBestMove`'s search is plain negamax over the same tree, and a
      None answer means the side to move loses to checkmate within DEPTH moves. */
  lemma BestMoveIsNegamax(p: Position, checkmate: bool, moves: seq<Move>)
    requires Playable(p, moves)
    ensures var t := TreeOf(p, checkmate, moves, DEPTH);
      var o := BestMove(t, Turn(p.whiteToMove));
      o.score == Value(t, DEPTH, Turn(p.whiteToMove)) &&
      (o.nextMove == None <==> Value(t, DEPTH, Turn(p.whiteToMove)) == -Tenths(CHECKMATE))
  {
    ChessScoresBounded();
    TreeBounded(Chess(), p, checkmate, moves, DEPTH);
    BestMoveChoice(TreeOf(p, checkmate, moves, DEPTH), Turn(p.whiteToMove));
  }
}
