/** The statement sequences of `makeMove`, `updateCastleRights` and `undoMove` in
    Chess/ChessEngine.py, run on values: each method performs the source's assignments
    in the source's order and is proved to compute the corresponding function of module
    Rules. The methods of `GameState` run these and write the result back to their fields. */
module Play {
  import opened Basics
  import opened Moves
  import opened Rules

  /** The grid edits of `makeMove`, in the source's order, on a grid value. */
  method MovePieces(board: Board, move: Move) returns (b: Board)
    requires Applicable(move)
    ensures b == MakeMoveBoard(board, move)
  {
    b := Set(board, move.startRow, move.startCol, Empty);
    b := Set(b, move.endRow, move.endCol, move.pieceMoved);
    if move.isPawnPromotion {
      b := Set(b, move.endRow, move.endCol, Piece(move.pieceMoved.color, Queen));
    }
    if move.isEnpassantMove {
      b := Set(b, move.startRow, move.endCol, Empty);
    }
    if move.isCastleMove {
      if move.endCol - move.startCol == 2 {
        b := Set(b, move.endRow, move.endCol - 1, b[move.endRow][move.endCol + 1]);
        b := Set(b, move.endRow, move.endCol + 1, Empty);
      } else {
        b := Set(b, move.endRow, move.endCol + 1, b[move.endRow][move.endCol - 2]);
        b := Set(b, move.endRow, move.endCol - 2, Empty);
      }
    }
  }

  /** The grid edits of `undoMove`, in the source's order, on a grid value. */
  method UnmovePieces(board: Board, move: Move) returns (b: Board)
    requires Applicable(move)
    ensures b == UndoMoveBoard(board, move)
  {
    b := Set(board, move.startRow, move.startCol, move.pieceMoved);
    b := Set(b, move.endRow, move.endCol, move.pieceCaptured);
    if move.isEnpassantMove {
      b := Set(b, move.endRow, move.endCol, Empty);
      b := Set(b, move.startRow, move.endCol, move.pieceCaptured);
    }
    if move.isCastleMove {
      if move.endCol - move.startCol == 2 {
        b := Set(b, move.endRow, move.endCol + 1, b[move.endRow][move.endCol - 1]);
        b := Set(b, move.endRow, move.endCol - 1, Empty);
      } else {
        b := Set(b, move.endRow, move.endCol - 2, b[move.endRow][move.endCol + 1]);
        b := Set(b, move.endRow, move.endCol + 1, Empty);
      }
    }
  }

  /** `updateCastleRights`: its two chains of tests, in the source's order, on a copy of
      the rights. */
  method UpdatedRights(rights: CastleRights, move: Move) returns (cr: CastleRights)
    ensures cr == UpdateCastleRights(rights, move)
  {
    cr := rights;
    if move.pieceMoved == Piece(White, King) {
      cr := cr.(wks := false);
      cr := cr.(wqs := false);
    } else if move.pieceMoved == Piece(Black, King) {
      cr := cr.(bks := false);
      cr := cr.(bqs := false);
    } else if move.pieceMoved == Piece(White, Rook) {
      if move.startRow == 7 {
        if move.startCol == 0 {
          cr := cr.(wqs := false);
        } else if move.startCol == 7 {
          cr := cr.(wks := false);
        }
      }
    } else if move.pieceMoved == Piece(Black, Rook) {
      if move.startRow == 0 {
        if move.startCol == 0 {
          cr := cr.(bqs := false);
        } else if move.startCol == 7 {
          cr := cr.(bks := false);
        }
      }
    }
    assert cr == MoverRights(rights, move);
    if move.pieceCaptured == Piece(White, Rook) {
      if move.endRow == 7 {
        if move.endCol == 0 {
          cr := cr.(wqs := false);
        } else if move.endCol == 7 {
          cr := cr.(wks := false);
        }
      }
    } else if move.pieceCaptured == Piece(Black, Rook) {
      if move.endRow == 0 {
        if move.endCol == 0 {
          cr := cr.(bqs := false);
        } else if move.endCol == 7 {
          cr := cr.(bks := false);
        }
      }
    }
  }

  /** `makeMove` on a position value: the grid edits, the log, the turn, the king cache,
      the en passant target and its log, then `updateCastleRights` and the rights log. */
  method ApplyMove(p: Position, move: Move) returns (q: Position)
    requires Applicable(move)
    ensures q == MakeMovePos(p, move)
  {
    var b := MovePieces(p.board, move);
    var wk, bk := p.whiteKingLocation, p.blackKingLocation;
    if move.pieceMoved == Piece(White, King) {
      wk := Coord(move.endRow, move.endCol);
    } else if move.pieceMoved == Piece(Black, King) {
      bk := Coord(move.endRow, move.endCol);
    }
    var ep := None;
    if move.pieceMoved.Piece? && move.pieceMoved.kind == Pawn &&
       (move.startRow - move.endRow == 2 || move.endRow - move.startRow == 2) {
      ep := Some(Coord((move.endRow + move.startRow) / 2, move.endCol));
    }
    var cr := UpdatedRights(p.currentCastleRights, move);
    q := Position(b, !p.whiteToMove, wk, bk, ep, cr, p.moveLog + [move], p.enpassantPossibleLog + [ep], p.castleRightsLog + [cr]);
  }

  /** `undoMove` on a position value, for a non-empty log: pop the move, restore the grid
      and the king cache, write the en passant target the source writes (both writes are
      overwritten from the popped log right after), pop both value logs and take the
      current values from their new tops. */
  method TakeBack(p: Position) returns (q: Position)
    requires LogsAligned(p) && p.moveLog != []
    ensures q == UndoPos(p)
  {
    var n := |p.moveLog|;
    var move := p.moveLog[n - 1];
    var b := UnmovePieces(p.board, move);
    var wk, bk := p.whiteKingLocation, p.blackKingLocation;
    if move.pieceMoved == Piece(White, King) {
      wk := Coord(move.startRow, move.startCol);
    } else if move.pieceMoved == Piece(Black, King) {
      bk := Coord(move.startRow, move.startCol);
    }
    var ep := p.enpassantPossible;
    if move.isEnpassantMove {
      ep := Some(Coord(move.endRow, move.endCol));
    }
    if move.pieceMoved.Piece? && move.pieceMoved.kind == Pawn &&
       (move.startRow - move.endRow == 2 || move.endRow - move.startRow == 2) {
      ep := None;
    }
    var epLog := p.enpassantPossibleLog[..n];
    ep := epLog[n - 1];
    var crLog := p.castleRightsLog[..n];
    var cr := crLog[n - 1];
    q := Position(b, !p.whiteToMove, wk, bk, ep, cr, p.moveLog[..n - 1], epLog, crLog);
  }
}
