/** The state that `GameState` keeps, as a value, and the two state changes of
    Chess/ChessEngine.py that everything else is built on: `makeMove` (with
    `updateCastleRights`) and `undoMove`. The class in chess_engine.dfy performs these
    step by step on its fields and is proved to agree with the functions here. */
module Rules {
  import opened Basics
  import opened Moves

  /** Everything `GameState` holds except the `checkmate` and `stalemate` flags. */
  datatype Position = Position(
    board: Board,
    whiteToMove: bool,
    whiteKingLocation: Coord,
    blackKingLocation: Coord,
    enpassantPossible: Option<Coord>,
    currentCastleRights: CastleRights,
    moveLog: seq<Move>,
    enpassantPossibleLog: seq<Option<Coord>>,
    castleRightsLog: seq<CastleRights>)

  function BackRank(c: Color): seq<Square>
  {
    [Piece(c, Rook), Piece(c, Knight), Piece(c, Bishop), Piece(c, Queen),
     Piece(c, King), Piece(c, Bishop), Piece(c, Knight), Piece(c, Rook)]
  }

  function InitialBoard(): Board
  {
    var empty := seq(8, _ => Empty);
    [BackRank(Black), seq(8, _ => Piece(Black, Pawn)), empty, empty,
     empty, empty, seq(8, _ => Piece(White, Pawn)), BackRank(White)]
  }

  /** `GameState.__init__`: standard set-up, white to move, all rights, no en passant
      target, each log seeded with the current value. */
  function InitialPosition(): Position
  {
    var rights := CastleRights(true, true, true, true);
    Position(InitialBoard(), true, Coord(7, 4), Coord(0, 4), None, rights, [], [None], [rights])
  }

  /** What `makeMove` and `undoMove` need of a move so that every cell they touch lies
      on the grid (a castle move touches the columns on both sides of its end square), and
      so that a promotion has a colour to give the new queen. */
  predicate Applicable(m: Move)
  {
    m.OnBoard() &&
    (m.isCastleMove ==> 2 <= m.endCol <= 6) &&
    (m.isPawnPromotion ==> m.pieceMoved.Piece?)
  }

  /** The three logs stay aligned: one entry per move, plus the seed entry. */
  predicate LogsAligned(p: Position)
  {
    |p.enpassantPossibleLog| == |p.moveLog| + 1 &&
    |p.castleRightsLog| == |p.moveLog| + 1 &&
    (forall i | 0 <= i < |p.moveLog| :: Applicable(p.moveLog[i]))
  }

  /** The last entry of each value log is the current value. */
  predicate LogTopsCurrent(p: Position)
  {
    |p.enpassantPossibleLog| > 0 && |p.castleRightsLog| > 0 &&
    p.enpassantPossibleLog[|p.enpassantPossibleLog| - 1] == p.enpassantPossible &&
    p.castleRightsLog[|p.castleRightsLog| - 1] == p.currentCastleRights
  }

  /** The first half of `updateCastleRights`: a king move drops both rights of its colour,
      a rook move from a corner drops that corner's right. */
  function MoverRights(cr: CastleRights, m: Move): (r: CastleRights)
    ensures (r.wks ==> cr.wks) && (r.bks ==> cr.bks) && (r.wqs ==> cr.wqs) && (r.bqs ==> cr.bqs)
  {
    if m.pieceMoved == Piece(White, King) then cr.(wks := false, wqs := false)
    else if m.pieceMoved == Piece(Black, King) then cr.(bks := false, bqs := false)
    else if m.pieceMoved == Piece(White, Rook) then
      (if m.startRow == 7 then
         (if m.startCol == 0 then cr.(wqs := false) else if m.startCol == 7 then cr.(wks := false) else cr)
       else cr)
    else if m.pieceMoved == Piece(Black, Rook) then
      (if m.startRow == 0 then
         (if m.startCol == 0 then cr.(bqs := false) else if m.startCol == 7 then cr.(bks := false) else cr)
       else cr)
    else cr
  }

  /** The second half: capturing a rook on a corner drops that corner's right. */
  function CaptureRights(cr: CastleRights, m: Move): (r: CastleRights)
    ensures (r.wks ==> cr.wks) && (r.bks ==> cr.bks) && (r.wqs ==> cr.wqs) && (r.bqs ==> cr.bqs)
  {
    if m.pieceCaptured == Piece(White, Rook) then
      (if m.endRow == 7 then
         (if m.endCol == 0 then cr.(wqs := false) else if m.endCol == 7 then cr.(wks := false) else cr)
       else cr)
    else if m.pieceCaptured == Piece(Black, Rook) then
      (if m.endRow == 0 then
         (if m.endCol == 0 then cr.(bqs := false) else if m.endCol == 7 then cr.(bks := false) else cr)
       else cr)
    else cr
  }

  /** `updateCastleRights`: both halves, in the source's order. */
  function UpdateCastleRights(cr: CastleRights, m: Move): (r: CastleRights)
    ensures (r.wks ==> cr.wks) && (r.bks ==> cr.bks) && (r.wqs ==> cr.wqs) && (r.bqs ==> cr.bqs)
  {
    CaptureRights(MoverRights(cr, m), m)
  }

  /** A right survives the first half exactly when the move neither moves that side's king
      nor moves the rook from that corner. */
  lemma MoverRightsCleared(cr: CastleRights, m: Move)
    ensures var r := MoverRights(cr, m);
      var from := Coord(m.startRow, m.startCol);
      && (r.wks <==> cr.wks && m.pieceMoved != Piece(White, King) && !(m.pieceMoved == Piece(White, Rook) && from == Coord(7, 7)))
      && (r.wqs <==> cr.wqs && m.pieceMoved != Piece(White, King) && !(m.pieceMoved == Piece(White, Rook) && from == Coord(7, 0)))
      && (r.bks <==> cr.bks && m.pieceMoved != Piece(Black, King) && !(m.pieceMoved == Piece(Black, Rook) && from == Coord(0, 7)))
      && (r.bqs <==> cr.bqs && m.pieceMoved != Piece(Black, King) && !(m.pieceMoved == Piece(Black, Rook) && from == Coord(0, 0)))
  {
  }

  /** A right survives the second half exactly when the move captures no rook on that corner. */
  lemma CaptureRightsCleared(cr: CastleRights, m: Move)
    ensures var r := CaptureRights(cr, m);
      var to := Coord(m.endRow, m.endCol);
      && (r.wks <==> cr.wks && !(m.pieceCaptured == Piece(White, Rook) && to == Coord(7, 7)))
      && (r.wqs <==> cr.wqs && !(m.pieceCaptured == Piece(White, Rook) && to == Coord(7, 0)))
      && (r.bks <==> cr.bks && !(m.pieceCaptured == Piece(Black, Rook) && to == Coord(0, 7)))
      && (r.bqs <==> cr.bqs && !(m.pieceCaptured == Piece(Black, Rook) && to == Coord(0, 0)))
  {
  }

  /** Each right survives a move exactly when the move neither moves that side's king, nor
      moves the rook from that corner, nor captures a rook standing on that corner. */
  lemma CastleRightsCleared(cr: CastleRights, m: Move)
    ensures var r := UpdateCastleRights(cr, m);
      var from := Coord(m.startRow, m.startCol);
      var to := Coord(m.endRow, m.endCol);
      && (r.wks <==> cr.wks && m.pieceMoved != Piece(White, King)
                     && !(m.pieceMoved == Piece(White, Rook) && from == Coord(7, 7))
                     && !(m.pieceCaptured == Piece(White, Rook) && to == Coord(7, 7)))
      && (r.wqs <==> cr.wqs && m.pieceMoved != Piece(White, King)
                     && !(m.pieceMoved == Piece(White, Rook) && from == Coord(7, 0))
                     && !(m.pieceCaptured == Piece(White, Rook) && to == Coord(7, 0)))
      && (r.bks <==> cr.bks && m.pieceMoved != Piece(Black, King)
                     && !(m.pieceMoved == Piece(Black, Rook) && from == Coord(0, 7))
                     && !(m.pieceCaptured == Piece(Black, Rook) && to == Coord(0, 7)))
      && (r.bqs <==> cr.bqs && m.pieceMoved != Piece(Black, King)
                     && !(m.pieceMoved == Piece(Black, Rook) && from == Coord(0, 0))
                     && !(m.pieceCaptured == Piece(Black, Rook) && to == Coord(0, 0)))
  {
    MoverRightsCleared(cr, m);
    CaptureRightsCleared(MoverRights(cr, m), m);
  }

  /** The en passant target `makeMove` records: the square a pawn skipped on a two-row
      advance, and none after any other move. */
  function EnPassantTarget(m: Move): Option<Coord>
  {
    if m.pieceMoved.Piece? && m.pieceMoved.kind == Pawn && (m.startRow - m.endRow == 2 || m.endRow - m.startRow == 2)
    then Some(Coord((m.endRow + m.startRow) / 2, m.endCol))
    else None
  }

  /** The grid after `makeMove`: vacate the start, place the piece, promote, remove the
      pawn taken en passant, move the castling rook. */
  function MakeMoveBoard(b: Board, m: Move): Board
    requires Applicable(m)
  {
    var b1 := Set(Set(b, m.startRow, m.startCol, Empty), m.endRow, m.endCol, m.pieceMoved);
    var b2 := if m.isPawnPromotion then Set(b1, m.endRow, m.endCol, Piece(m.pieceMoved.color, Queen)) else b1;
    var b3 := if m.isEnpassantMove then Set(b2, m.startRow, m.endCol, Empty) else b2;
    if !m.isCastleMove then b3
    else if m.endCol - m.startCol == 2 then
      Set(Set(b3, m.endRow, m.endCol - 1, b3[m.endRow][m.endCol + 1]), m.endRow, m.endCol + 1, Empty)
    else
      Set(Set(b3, m.endRow, m.endCol + 1, b3[m.endRow][m.endCol - 2]), m.endRow, m.endCol - 2, Empty)
  }

  /** `makeMove`. */
  function MakeMovePos(p: Position, m: Move): (r: Position)
    requires Applicable(m)
    ensures r.whiteToMove == !p.whiteToMove && r.moveLog == p.moveLog + [m]
    ensures LogsAligned(p) ==> LogsAligned(r)
    ensures LogTopsCurrent(r)
  {
    var ep := EnPassantTarget(m);
    var cr := UpdateCastleRights(p.currentCastleRights, m);
    Position(
      MakeMoveBoard(p.board, m),
      !p.whiteToMove,
      if m.pieceMoved == Piece(White, King) then Coord(m.endRow, m.endCol) else p.whiteKingLocation,
      if m.pieceMoved == Piece(Black, King) then Coord(m.endRow, m.endCol) else p.blackKingLocation,
      ep, cr,
      p.moveLog + [m], p.enpassantPossibleLog + [ep], p.castleRightsLog + [cr])
  }

  /** The grid after `undoMove` takes back `m`. */
  function UndoMoveBoard(b: Board, m: Move): Board
    requires Applicable(m)
  {
    var b1 := Set(Set(b, m.startRow, m.startCol, m.pieceMoved), m.endRow, m.endCol, m.pieceCaptured);
    var b2 := if m.isEnpassantMove then Set(Set(b1, m.endRow, m.endCol, Empty), m.startRow, m.endCol, m.pieceCaptured) else b1;
    if !m.isCastleMove then b2
    else if m.endCol - m.startCol == 2 then
      Set(Set(b2, m.endRow, m.endCol + 1, b2[m.endRow][m.endCol - 1]), m.endRow, m.endCol - 1, Empty)
    else
      Set(Set(b2, m.endRow, m.endCol - 2, b2[m.endRow][m.endCol + 1]), m.endRow, m.endCol + 1, Empty)
  }

  /** `undoMove`: nothing on an empty log; otherwise pop the move and both value logs and
      take the current en passant target and rights from the new log tops. */
  function UndoPos(p: Position): (r: Position)
    requires LogsAligned(p)
    ensures LogsAligned(r)
    ensures p.moveLog == [] ==> r == p
    ensures p.moveLog != [] ==> r.moveLog == p.moveLog[..|p.moveLog| - 1] && r.whiteToMove == !p.whiteToMove
    ensures p.moveLog != [] ==> LogTopsCurrent(r)
  {
    if |p.moveLog| == 0 then p
    else
      var n := |p.moveLog|;
      var m := p.moveLog[n - 1];
      var epLog := p.enpassantPossibleLog[..n];
      var crLog := p.castleRightsLog[..n];
      Position(
        UndoMoveBoard(p.board, m),
        !p.whiteToMove,
        if m.pieceMoved == Piece(White, King) then Coord(m.startRow, m.startCol) else p.whiteKingLocation,
        if m.pieceMoved == Piece(Black, King) then Coord(m.startRow, m.startCol) else p.blackKingLocation,
        epLog[n - 1], crLog[n - 1],
        p.moveLog[..n - 1], epLog, crLog)
  }

  /** What must hold of the board for `undoMove` to take `m` back exactly: the move's
      pieces are the ones on the board, a castle's rook square next to the king is free,
      an en passant landing square is empty and the taken pawn stands beside the start,
      and the king cache points at the king being moved. Every move the generators build
      on a reachable position has these properties (`Invariant.CandidatesFit`). */
  predicate Fits(p: Position, m: Move)
    requires Applicable(m)
  {
    var b := p.board;
    b[m.startRow][m.startCol] == m.pieceMoved &&
    (m.startRow != m.endRow || m.startCol != m.endCol) &&
    (!m.isEnpassantMove ==> b[m.endRow][m.endCol] == m.pieceCaptured) &&
    (m.isEnpassantMove ==>
       b[m.endRow][m.endCol] == Empty && b[m.startRow][m.endCol] == m.pieceCaptured &&
       m.startRow != m.endRow && m.startCol != m.endCol && !m.isCastleMove) &&
    (m.isCastleMove ==>
       m.startRow == m.endRow &&
       ((m.endCol - m.startCol == 2 && b[m.endRow][m.endCol - 1] == Empty) ||
        (m.endCol - m.startCol == -2 && b[m.endRow][m.endCol + 1] == Empty))) &&
    (m.pieceMoved == Piece(White, King) ==> p.whiteKingLocation == Coord(m.startRow, m.startCol)) &&
    (m.pieceMoved == Piece(Black, King) ==> p.blackKingLocation == Coord(m.startRow, m.startCol))
  }

  lemma UndoBoardOfMakeBoard(b: Board, m: Move)
    requires Applicable(m)
    requires b[m.startRow][m.startCol] == m.pieceMoved
    requires m.startRow != m.endRow || m.startCol != m.endCol
    requires !m.isEnpassantMove ==> b[m.endRow][m.endCol] == m.pieceCaptured
    requires m.isEnpassantMove ==>
       b[m.endRow][m.endCol] == Empty && b[m.startRow][m.endCol] == m.pieceCaptured &&
       m.startRow != m.endRow && m.startCol != m.endCol && !m.isCastleMove
    requires m.isCastleMove ==>
       m.startRow == m.endRow &&
       ((m.endCol - m.startCol == 2 && b[m.endRow][m.endCol - 1] == Empty) ||
        (m.endCol - m.startCol == -2 && b[m.endRow][m.endCol + 1] == Empty))
    ensures UndoMoveBoard(MakeMoveBoard(b, m), m) == b
  {
    var after := UndoMoveBoard(MakeMoveBoard(b, m), m);
    if m.isCastleMove {
      assert forall i, j | 0 <= i < 8 && 0 <= j < 8 :: after[i][j] == b[i][j];
    } else if m.isEnpassantMove {
      assert forall i, j | 0 <= i < 8 && 0 <= j < 8 :: after[i][j] == b[i][j];
    } else {
      assert forall i, j | 0 <= i < 8 && 0 <= j < 8 :: after[i][j] == b[i][j];
    }
    BoardExt(after, b);
  }

  /** `undoMove` right after `makeMove(m)` restores the exact prior position: grid, side
      to move, both king caches, en passant target, castle rights and all three logs. */
  lemma MakeUndoRoundTrip(p: Position, m: Move)
    requires LogsAligned(p) && LogTopsCurrent(p)
    requires Applicable(m) && Fits(p, m)
    ensures UndoPos(MakeMovePos(p, m)) == p
  {
    var q := MakeMovePos(p, m);
    UndoBoardOfMakeBoard(p.board, m);
    var n := |q.moveLog|;
    assert q.moveLog[n - 1] == m;
    assert q.moveLog[..n - 1] == p.moveLog;
    assert q.enpassantPossibleLog[..n] == p.enpassantPossibleLog;
    assert q.castleRightsLog[..n] == p.castleRightsLog;
  }

  /** After `makeMove` the en passant target is set exactly when a pawn advanced two rows,
      and it is then the square between start and end in the end column. */
  lemma EnPassantAfterMake(p: Position, m: Move)
    requires Applicable(m)
    ensures var t := MakeMovePos(p, m).enpassantPossible;
      && (t.Some? <==> m.pieceMoved.Piece? && m.pieceMoved.kind == Pawn &&
                       (m.startRow - m.endRow == 2 || m.endRow - m.startRow == 2))
      && (t.Some? ==> t.value.col == m.endCol &&
                      t.value.row - m.startRow == m.endRow - t.value.row &&
                      (t.value.row == m.startRow + 1 || t.value.row == m.startRow - 1))
  {
  }

  /** Castling moves the rook: kingside from the column right of the king's end square to
      the column left of it, queenside from two columns left of it to the column right
      of it; the king stands on its end square. En passant empties the taken pawn's square. */
  lemma SpecialMovesOnBoard(p: Position, m: Move)
    requires Applicable(m) && Fits(p, m)
    ensures var b, b' := p.board, MakeMovePos(p, m).board;
      && (m.isCastleMove && m.endCol - m.startCol == 2 ==>
            b'[m.endRow][m.endCol - 1] == b[m.endRow][m.endCol + 1] && b'[m.endRow][m.endCol + 1] == Empty &&
            b'[m.startRow][m.startCol] == Empty &&
            (!m.isPawnPromotion ==> b'[m.endRow][m.endCol] == m.pieceMoved))
      && (m.isCastleMove && m.endCol - m.startCol != 2 ==>
            b'[m.endRow][m.endCol + 1] == b[m.endRow][m.endCol - 2] && b'[m.endRow][m.endCol - 2] == Empty &&
            b'[m.startRow][m.startCol] == Empty &&
            (!m.isPawnPromotion ==> b'[m.endRow][m.endCol] == m.pieceMoved))
      && (m.isEnpassantMove ==>
            b'[m.startRow][m.endCol] == Empty && b'[m.startRow][m.startCol] == Empty &&
            (!m.isPawnPromotion ==> b'[m.endRow][m.endCol] == m.pieceMoved))
  {
  }

  /** The content of cell (i, j) after `makeMove(m)`, cell by cell: the end square gets
      the moved (or promoted) piece, the start square is emptied, an en passant capture
      empties the taken pawn's square, a castle moves the rook beside the king; every
      other cell keeps its piece. */
  function CellAfterMove(b: Board, m: Move, i: int, j: int): Square
    requires Applicable(m) && InBounds(i, j)
  {
    var r := m.endRow;
    if i == m.endRow && j == m.endCol then
      (if m.isPawnPromotion then Piece(m.pieceMoved.color, Queen) else m.pieceMoved)
    else if i == m.startRow && j == m.startCol then Empty
    else if m.isEnpassantMove && i == m.startRow && j == m.endCol then Empty
    else if m.isCastleMove && m.endCol - m.startCol == 2 && i == r && j == m.endCol - 1 then b[r][m.endCol + 1]
    else if m.isCastleMove && m.endCol - m.startCol == 2 && i == r && j == m.endCol + 1 then Empty
    else if m.isCastleMove && m.endCol - m.startCol != 2 && i == r && j == m.endCol + 1 then b[r][m.endCol - 2]
    else if m.isCastleMove && m.endCol - m.startCol != 2 && i == r && j == m.endCol - 2 then Empty
    else b[i][j]
  }

  /** For a move that fits the board, `makeMove` changes the grid exactly as
      `CellAfterMove` says. */
  lemma MakeMoveCell(p: Position, m: Move, i: int, j: int)
    requires Applicable(m) && Fits(p, m) && InBounds(i, j)
    ensures MakeMoveBoard(p.board, m)[i][j] == CellAfterMove(p.board, m, i, j)
  {
  }

  /** Applies a sequence of moves with `makeMove`, one after the other. */
  function MakeMoves(p: Position, ms: seq<Move>): (r: Position)
    requires forall i | 0 <= i < |ms| :: Applicable(ms[i])
    ensures |r.moveLog| == |p.moveLog| + |ms|
    ensures LogsAligned(p) ==> LogsAligned(r)
    decreases |ms|
  {
    if ms == [] then p else MakeMoves(MakeMovePos(p, ms[0]), ms[1..])
  }

  /** Along any sequence of `makeMove`s a castling right never comes back once lost. */
  lemma {:induction false} CastleRightsMonotone(p: Position, ms: seq<Move>)
    requires forall i | 0 <= i < |ms| :: Applicable(ms[i])
    ensures var r, q := MakeMoves(p, ms).currentCastleRights, p.currentCastleRights;
      (r.wks ==> q.wks) && (r.bks ==> q.bks) && (r.wqs ==> q.wqs) && (r.bqs ==> q.bqs)
    decreases |ms|
  {
    if ms != [] {
      CastleRightsMonotone(MakeMovePos(p, ms[0]), ms[1..]);
    }
  }

  /** Playing the first i + 1 moves is playing the first move, then i of the rest. */
  lemma MakeMovesCons(p: Position, ms: seq<Move>, i: nat)
    requires forall k | 0 <= k < |ms| :: Applicable(ms[k])
    requires i < |ms|
    ensures MakeMoves(p, ms[..i + 1]) == MakeMoves(MakeMovePos(p, ms[0]), ms[1..][..i])
  {
    assert ms[..i + 1][0] == ms[0] && ms[..i + 1][1..] == ms[1..][..i];
  }

  /** Each move of a run fits the position the moves before it lead to. */
  predicate FitsInTurn(p: Position, ms: seq<Move>)
    requires forall i | 0 <= i < |ms| :: Applicable(ms[i])
  {
    forall i | 0 <= i < |ms| :: Fits(MakeMoves(p, ms[..i]), ms[i])
  }

  /** If a run fits in turn, its first move fits the start and the rest fits in turn after it. */
  lemma FitsInTurnTail(p: Position, ms: seq<Move>)
    requires forall i | 0 <= i < |ms| :: Applicable(ms[i])
    requires ms != [] && FitsInTurn(p, ms)
    ensures Fits(p, ms[0]) && FitsInTurn(MakeMovePos(p, ms[0]), ms[1..])
  {
    assert MakeMoves(p, ms[..0]) == p;
    var q := MakeMovePos(p, ms[0]);
    forall i | 0 <= i < |ms[1..]|
      ensures Fits(MakeMoves(q, ms[1..][..i]), ms[1..][i])
    {
      MakeMovesCons(p, ms, i);
      assert Fits(MakeMoves(p, ms[..i + 1]), ms[i + 1]);
    }
  }

  /** The log lengths stay aligned along any sequence of `makeMove`s and `undoMove`s;
      here for a run of moves followed by as many undos, which gives back the start. */
  lemma {:induction false} MakeAllUndoAll(p: Position, ms: seq<Move>)
    requires LogsAligned(p) && LogTopsCurrent(p)
    requires forall i | 0 <= i < |ms| :: Applicable(ms[i])
    requires FitsInTurn(p, ms)
    ensures UndoN(MakeMoves(p, ms), |ms|) == p
    decreases |ms|
  {
    if ms != [] {
      var q := MakeMovePos(p, ms[0]);
      FitsInTurnTail(p, ms);
      var r := MakeMoves(q, ms[1..]);
      assert MakeMoves(p, ms) == r;
      MakeAllUndoAll(q, ms[1..]);
      UndoNSplit(r, |ms| - 1);
      MakeUndoRoundTrip(p, ms[0]);
      calc {
        UndoN(r, |ms|);
        UndoPos(UndoN(r, |ms| - 1));
        UndoPos(q);
        p;
      }
    }
  }

  /** `undoMove` applied n times. */
  function UndoN(p: Position, n: nat): (r: Position)
    requires LogsAligned(p)
    ensures LogsAligned(r)
    decreases n
  {
    if n == 0 then p else UndoN(UndoPos(p), n - 1)
  }

  lemma {:induction false} UndoNSplit(p: Position, n: nat)
    requires LogsAligned(p)
    ensures UndoN(p, n + 1) == UndoPos(UndoN(p, n))
    decreases n
  {
    if n > 0 {
      UndoNSplit(UndoPos(p), n - 1);
    }
  }
}
