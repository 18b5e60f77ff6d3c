/** The invariant every position reached by `GameState.__init__` and `makeMove` of
    valid moves keeps, and what it buys: every candidate of `getValidMoves` is taken
    back exactly by `undoMove`, and playing a valid move leads to a position that again
    satisfies the invariant. */
module Invariant {
  import opened Basics
  import opened Moves
  import opened Rules
  import opened Generation
  import opened Legality

  /** Each king stands on its cached square, and there is no other king of its colour. */
  predicate KingsCached(p: Position)
    requires InBounds(p.whiteKingLocation.row, p.whiteKingLocation.col)
    requires InBounds(p.blackKingLocation.row, p.blackKingLocation.col)
  {
    var b, w, k := p.board, p.whiteKingLocation, p.blackKingLocation;
    b[w.row][w.col] == Piece(White, King) && b[k.row][k.col] == Piece(Black, King) &&
    forall i, j | 0 <= i < 8 && 0 <= j < 8 ::
      (b[i][j] == Piece(White, King) ==> Coord(i, j) == w) &&
      (b[i][j] == Piece(Black, King) ==> Coord(i, j) == k)
  }

  /** A castling right is held only while the rook of that corner is on its corner. */
  predicate RooksHome(p: Position)
  {
    var b, cr := p.board, p.currentCastleRights;
    (cr.wks ==> b[7][7] == Piece(White, Rook)) && (cr.wqs ==> b[7][0] == Piece(White, Rook)) &&
    (cr.bks ==> b[0][7] == Piece(Black, Rook)) && (cr.bqs ==> b[0][0] == Piece(Black, Rook))
  }

  /** The en passant target is the square a pawn of the other side has just skipped:
      empty, with that pawn right in front of it. */
  predicate EnPassantSound(p: Position)
  {
    match p.enpassantPossible
    case None => true
    case Some(e) =>
      0 <= e.col < 8 &&
      if p.whiteToMove then e.row == 2 && p.board[2][e.col] == Empty && p.board[3][e.col] == Piece(Black, Pawn)
      else e.row == 5 && p.board[5][e.col] == Empty && p.board[4][e.col] == Piece(White, Pawn)
  }

  /** The invariant of every reachable position, apart from check. */
  predicate WellFormed(p: Position)
  {
    Ready(p) && LogsAligned(p) && LogTopsCurrent(p) && KingsCached(p) && RooksHome(p) && EnPassantSound(p)
  }

  /** The side that has just moved has not left its king attacked. */
  predicate Valid(p: Position)
  {
    WellFormed(p) && !KingInCheck(p.(whiteToMove := !p.whiteToMove))
  }

  /** Every pseudo-legal move of a well-formed position fits it. */
  lemma PseudoFits(p: Position, m: Move)
    requires WellFormed(p) && Pseudo(p.board, p.whiteToMove, p.enpassantPossible, m)
    ensures Applicable(m) && Fits(p, m)
  {
  }

  /** So does every castle move. */
  lemma CastleFits(p: Position, m: Move)
    requires WellFormed(p) && m in CastleMoves(p, KingLocation(p).row, KingLocation(p).col)
    ensures Applicable(m) && Fits(p, m)
  {
    assert KingsideRight(p) || QueensideRight(p);
  }

  /** Every move of ms can be played on p by `makeMove` and taken back by `undoMove`. */
  predicate Tryable(p: Position, ms: seq<Move>)
  {
    forall m | m in ms :: Applicable(m) && Fits(p, m) && Makeable(p, m)
  }

  /** Every candidate of `getValidMoves` on a well-formed position can be played and is
      taken back exactly by `undoMove`. */
  lemma CandidatesFit(p: Position)
    requires WellFormed(p)
    ensures forall m | m in Candidates(p) :: Applicable(m) && Fits(p, m)
  {
    forall m | m in Candidates(p) ensures Applicable(m) && Fits(p, m) {
      if m in AllMoves(p.board, p.whiteToMove, p.enpassantPossible) {
        PseudoFits(p, m);
      } else {
        CastleFits(p, m);
      }
    }
  }

  /** So the pruning loop can try every candidate. */
  lemma CandidatesTryable(p: Position)
    requires WellFormed(p)
    ensures Tryable(p, Candidates(p))
  {
    CandidatesFit(p);
    CandidatesMakeable(p);
  }

  /** In a valid position no candidate captures the other side's king. */
  lemma CandidateSparesKing(p: Position, m: Move)
    requires Valid(p) && m in Candidates(p)
    ensures m.OnBoard() && p.board[m.endRow][m.endCol] != Piece(Opponent(SideColor(p.whiteToMove)), King)
  {
    CandidatesFit(p);
    if m in AllMoves(p.board, p.whiteToMove, p.enpassantPossible) {
      var q := p.(whiteToMove := !p.whiteToMove);
      assert !(m.endRow == KingLocation(q).row && m.endCol == KingLocation(q).col);
    }
  }

  /** The positional part of the invariant survives a candidate that spares the other king. */
  lemma ReadyAfter(p: Position, m: Move)
    requires Valid(p) && m in Candidates(p)
    ensures Applicable(m) && Fits(p, m) && Ready(MakeMovePos(p, m))
  {
    CandidatesFit(p);
    CandidatesMakeable(p);
  }

  /** A castle move of a well-formed position starts on the king's home square and
      moves the rook of the corner its right names. */
  lemma CastleShape(p: Position, m: Move)
    requires WellFormed(p) && m in CastleMoves(p, KingLocation(p).row, KingLocation(p).col)
    ensures var r := if p.whiteToMove then 7 else 0;
      m.startRow == r && m.startCol == 4 && m.endRow == r &&
      m.pieceMoved == Piece(SideColor(p.whiteToMove), King) &&
      ((m.endCol == 6 && p.board[r][7] == Piece(SideColor(p.whiteToMove), Rook) && KingsideRight(p)) ||
       (m.endCol == 2 && p.board[r][0] == Piece(SideColor(p.whiteToMove), Rook) && QueensideRight(p)))
  {
    assert KingsideRight(p) || QueensideRight(p);
  }

  /** What a candidate of a valid position guarantees about the cells `makeMove` touches. */
  lemma CandidateCells(p: Position, m: Move)
    requires Valid(p) && m in Candidates(p)
    ensures Applicable(m) && Fits(p, m) && BuiltFrom(p.board, m)
    ensures var e := p.board[m.endRow][m.endCol]; e.Piece? ==> e.kind != King
    ensures m.isCastleMove ==> CastleRookCell(p.board, m).Piece? && CastleRookCell(p.board, m).kind == Rook
    ensures m.isCastleMove ==> m.pieceMoved == Piece(SideColor(p.whiteToMove), King)
  {
    CandidateSparesKing(p, m);
    if m in AllMoves(p.board, p.whiteToMove, p.enpassantPossible) {
      PseudoCells(p, m);
    } else {
      CastleCells(p, m);
    }
  }

  /** The same for a move of `getAllMoves`: it is no castle and lands off the mover's
      own pieces. */
  lemma PseudoCells(p: Position, m: Move)
    requires WellFormed(p) && m in AllMoves(p.board, p.whiteToMove, p.enpassantPossible)
    ensures Applicable(m) && Fits(p, m) && BuiltFrom(p.board, m) && !m.isCastleMove
    ensures var e := p.board[m.endRow][m.endCol]; e.Piece? ==> e.color != SideColor(p.whiteToMove)
  {
    assert Pseudo(p.board, p.whiteToMove, p.enpassantPossible, m);
    PseudoFits(p, m);
  }

  /** The same for a castle move: it moves the king onto an empty cell, past a rook. */
  lemma CastleCells(p: Position, m: Move)
    requires WellFormed(p) && m in CastleMoves(p, KingLocation(p).row, KingLocation(p).col)
    ensures Applicable(m) && Fits(p, m) && BuiltFrom(p.board, m) && p.board[m.endRow][m.endCol] == Empty
    ensures m.isCastleMove && CastleRookCell(p.board, m).Piece? && CastleRookCell(p.board, m).kind == Rook
    ensures m.pieceMoved == Piece(SideColor(p.whiteToMove), King)
  {
    CastleFits(p, m);
    CastleShape(p, m);
    CastleTarget(p, m);
  }

  /** A castle move lands on an empty cell. */
  lemma CastleTarget(p: Position, m: Move)
    requires WellFormed(p) && m in CastleMoves(p, KingLocation(p).row, KingLocation(p).col)
    ensures m.OnBoard() && p.board[m.endRow][m.endCol] == Empty
  {
    var k := KingLocation(p);
    if m in KingsideCastleMoves(p, k.row, k.col) {
    }
  }

  /** The cell a castle move takes its rook from. */
  function CastleRookCell(b: Board, m: Move): Square
    requires Applicable(m) && m.isCastleMove
  {
    if m.endCol - m.startCol == 2 then b[m.endRow][m.endCol + 1] else b[m.endRow][m.endCol - 2]
  }

  /** One king, one cell: after the move the king of colour c stands on its new cached
      square, and cell (i, j) holds that king only if it is that square. */
  lemma KingCellStep(p: Position, m: Move, c: Color, w: Coord, i: int, j: int)
    requires Applicable(m) && Fits(p, m) && BuiltFrom(p.board, m)
    requires var e := p.board[m.endRow][m.endCol]; e.Piece? ==> e.kind != King
    requires m.isCastleMove ==> CastleRookCell(p.board, m).Piece? && CastleRookCell(p.board, m).kind == Rook
    requires InBounds(w.row, w.col) && InBounds(i, j)
    requires m.pieceMoved == Piece(c, King) ==> w == Coord(m.startRow, m.startCol)
    requires p.board[w.row][w.col] == Piece(c, King)
    requires p.board[i][j] == Piece(c, King) ==> Coord(i, j) == w
    ensures var w' := if m.pieceMoved == Piece(c, King) then Coord(m.endRow, m.endCol) else w;
      CellAfterMove(p.board, m, w'.row, w'.col) == Piece(c, King) &&
      (CellAfterMove(p.board, m, i, j) == Piece(c, King) ==> Coord(i, j) == w')
  {
  }

  /** The king caches stay right across a move that captures no king, moves no king by
      castling's rook step, and promotes only pawns. */
  lemma KingsCachedStep(p: Position, m: Move)
    requires InBounds(p.whiteKingLocation.row, p.whiteKingLocation.col)
    requires InBounds(p.blackKingLocation.row, p.blackKingLocation.col)
    requires KingsCached(p) && Applicable(m) && Fits(p, m) && BuiltFrom(p.board, m)
    requires var e := p.board[m.endRow][m.endCol]; e.Piece? ==> e.kind != King
    requires m.isCastleMove ==> CastleRookCell(p.board, m).Piece? && CastleRookCell(p.board, m).kind == Rook
    ensures KingsCached(MakeMovePos(p, m))
  {
    var q := MakeMovePos(p, m);
    var w, k := p.whiteKingLocation, p.blackKingLocation;
    var w', k' := q.whiteKingLocation, q.blackKingLocation;
    KingCellStep(p, m, White, w, w.row, w.col);
    KingCellStep(p, m, Black, k, k.row, k.col);
    MakeMoveCell(p, m, w'.row, w'.col);
    MakeMoveCell(p, m, k'.row, k'.col);
    forall i, j | 0 <= i < 8 && 0 <= j < 8
      ensures (q.board[i][j] == Piece(White, King) ==> Coord(i, j) == w') &&
              (q.board[i][j] == Piece(Black, King) ==> Coord(i, j) == k')
    {
      MakeMoveCell(p, m, i, j);
      KingCellStep(p, m, White, w, i, j);
      KingCellStep(p, m, Black, k, i, j);
    }
  }

  lemma KingsCachedAfter(p: Position, m: Move)
    requires Valid(p) && m in Candidates(p)
    ensures Applicable(m) && Ready(MakeMovePos(p, m)) && KingsCached(MakeMovePos(p, m))
  {
    ReadyAfter(p, m);
    CandidateCells(p, m);
    KingsCachedStep(p, m);
  }

  /** A rook stays on its corner while its right is kept. */
  lemma RooksHomeStep(p: Position, m: Move)
    requires Ready(p) && KingsCached(p) && RooksHome(p) && Applicable(m) && Fits(p, m) && BuiltFrom(p.board, m)
    requires m.isEnpassantMove ==> m.startRow == 3 || m.startRow == 4
    requires m.isCastleMove ==> m.pieceMoved.Piece? && m.pieceMoved.kind == King
    ensures RooksHome(MakeMovePos(p, m))
  {
    var cr := p.currentCastleRights;
    CastleRightsCleared(cr, m);
    MakeMoveCell(p, m, 7, 7);
    MakeMoveCell(p, m, 7, 0);
    MakeMoveCell(p, m, 0, 7);
    MakeMoveCell(p, m, 0, 0);
  }

  lemma RooksHomeAfter(p: Position, m: Move)
    requires Valid(p) && m in Candidates(p)
    ensures Applicable(m) && RooksHome(MakeMovePos(p, m))
  {
    CandidateCells(p, m);
    RooksHomeStep(p, m);
  }

  /** A pawn's two-row advance from its home row over an empty cell onto an empty cell
      leaves a sound en passant target; any other move leaves none. */
  lemma EnPassantStep(p: Position, m: Move)
    requires Applicable(m) && Fits(p, m)
    requires Pseudo(p.board, p.whiteToMove, p.enpassantPossible, m) ||
             (m.isCastleMove && m.pieceMoved == Piece(SideColor(p.whiteToMove), King))
    ensures EnPassantSound(MakeMovePos(p, m))
  {
    if EnPassantTarget(m).Some? {
      MakeMoveCell(p, m, (m.startRow + m.endRow) / 2, m.endCol);
      MakeMoveCell(p, m, m.endRow, m.endCol);
    }
  }

  lemma EnPassantAfter(p: Position, m: Move)
    requires Valid(p) && m in Candidates(p)
    ensures Applicable(m) && EnPassantSound(MakeMovePos(p, m))
  {
    CandidatesFit(p);
    if m !in AllMoves(p.board, p.whiteToMove, p.enpassantPossible) {
      CastleShape(p, m);
    }
    EnPassantStep(p, m);
  }

  /** Playing a move `getValidMoves` returned leads to a valid position again. */
  lemma ValidPreserved(p: Position, m: Move)
    requires Valid(p) && m in ValidMoves(p)
    ensures Applicable(m) && Valid(MakeMovePos(p, m))
  {
    ValidMovesSafe(p);
    ReadyAfter(p, m);
    KingsCachedAfter(p, m);
    RooksHomeAfter(p, m);
    EnPassantAfter(p, m);
    var q := MakeMovePos(p, m);
    assert q.(whiteToMove := !q.whiteToMove) == q.(whiteToMove := p.whiteToMove);
  }

  /** A ray whose first cell is off the grid or holds an own piece yields no move. */
  lemma BlockedRay(b: Board, whiteToMove: bool, r: int, c: int, dr: int, dc: int)
    requires InBounds(r, c) && UnitStep(dr, dc) && Blocked(b, whiteToMove, r + dr, c + dc)
    ensures Ray(b, whiteToMove, r, c, dr, dc) == []
  {
  }

  /** Rays whose first cells are all blocked yield no move. */
  lemma {:induction false} BlockedRays(b: Board, whiteToMove: bool, r: int, c: int, dirs: seq<(int, int)>)
    requires InBounds(r, c)
    requires forall k | 0 <= k < |dirs| :: UnitStep(dirs[k].0, dirs[k].1)
    requires forall k | 0 <= k < |dirs| :: Blocked(b, whiteToMove, r + dirs[k].0, c + dirs[k].1)
    ensures Rays(b, whiteToMove, r, c, dirs) == []
    decreases |dirs|
  {
    if dirs != [] {
      var n := |dirs| - 1;
      BlockedRays(b, whiteToMove, r, c, dirs[..n]);
      BlockedRay(b, whiteToMove, r, c, dirs[n].0, dirs[n].1);
    }
  }

  /** A slider whose eight neighbouring cells are all off the grid or own pieces has no move. */
  lemma SurroundedSlider(b: Board, whiteToMove: bool, r: int, c: int)
    requires InBounds(r, c)
    requires forall dr, dc | UnitStep(dr, dc) :: Blocked(b, whiteToMove, r + dr, c + dc)
    ensures RookMoves(b, whiteToMove, r, c) == [] && BishopMoves(b, whiteToMove, r, c) == []
    ensures QueenMoves(b, whiteToMove, r, c) == []
  {
    assert UnitStep(1, 0) && UnitStep(-1, 0) && UnitStep(0, 1) && UnitStep(0, -1);
    BlockedRay(b, whiteToMove, r, c, 1, 0);
    BlockedRay(b, whiteToMove, r, c, -1, 0);
    BlockedRay(b, whiteToMove, r, c, 0, 1);
    BlockedRay(b, whiteToMove, r, c, 0, -1);
    BishopDirectionsUnit();
    BlockedRays(b, whiteToMove, r, c, BISHOP_DIRECTIONS);
  }

  /** The cells of the initial grid, row by row. */
  lemma InitialCells()
    ensures forall i, j | 0 <= i < 8 && 0 <= j < 8 ::
      InitialBoard()[i][j] ==
        if i == 0 then BackRank(Black)[j]
        else if i == 1 then Piece(Black, Pawn)
        else if i == 6 then Piece(White, Pawn)
        else if i == 7 then BackRank(White)[j]
        else Empty
  {
    var b := InitialBoard();
    assert b[0] == BackRank(Black) && b[7] == BackRank(White);
    assert b[1] == seq(8, _ => Piece(Black, Pawn)) && b[6] == seq(8, _ => Piece(White, Pawn));
    assert b[2] == b[3] == b[4] == b[5] == seq(8, _ => Empty);
  }

  /** A white pawn on its home row of the initial grid advances one or two cells and
      captures nothing. */
  lemma InitialPawnMoves(c: int)
    requires 0 <= c < 8
    ensures PawnsOffLastRanks(InitialBoard())
    ensures forall m | m in PawnMoves(InitialBoard(), true, None, 6, c) :: m.endRow >= 4
  {
    InitialCells();
  }

  /** A knight's or king's jump changes the row by at most two. */
  lemma JumpsNear(b: Board, whiteToMove: bool, r: int, c: int)
    requires InBounds(r, c)
    ensures forall m | m in Jumps(b, whiteToMove, r, c, KNIGHT_OFFSETS) :: m.endRow >= r - 2
    ensures forall m | m in Jumps(b, whiteToMove, r, c, KING_OFFSETS) :: m.endRow >= r - 1
  {
    JumpsSound(b, whiteToMove, r, c, KNIGHT_OFFSETS);
    JumpsSound(b, whiteToMove, r, c, KING_OFFSETS);
    assert forall j | 0 <= j < |KNIGHT_OFFSETS| :: KNIGHT_OFFSETS[j].0 >= -2;
    assert forall j | 0 <= j < |KING_OFFSETS| :: KING_OFFSETS[j].0 >= -1;
  }

  /** Every neighbour of a back-row cell of the initial grid is off the grid or white. */
  lemma InitialBackRowBlocked(c: int)
    requires 0 <= c < 8
    ensures forall dr, dc | UnitStep(dr, dc) :: Blocked(InitialBoard(), true, 7 + dr, c + dc)
  {
    InitialCells();
  }

  /** A white piece on the back row of the initial grid stays within two rows of it. */
  lemma InitialBackMoves(c: int)
    requires 0 <= c < 8
    ensures PawnsOffLastRanks(InitialBoard()) && IsColor(InitialBoard()[7][c], White)
    ensures forall m | m in PieceMoves(InitialBoard(), true, None, 7, c) :: m.endRow >= 5
  {
    var b := InitialBoard();
    assert b[7] == BackRank(White);
    InitialBackRowBlocked(c);
    SurroundedSlider(b, true, 7, c);
    JumpsNear(b, true, 7, c);
    assert b[7][c].kind != Pawn;
  }

  /** On the initial grid no move of a white piece reaches beyond row 4. */
  lemma InitialCellMoves(r: int, c: int)
    requires InBounds(r, c)
    ensures PawnsOffLastRanks(InitialBoard())
    ensures forall m | m in CellMoves(InitialBoard(), true, None, r, c) :: m.endRow >= 4
  {
    var b := InitialBoard();
    InitialCells();
    if r == 6 {
      InitialPawnMoves(c);
    } else if r == 7 {
      InitialBackMoves(c);
    } else {
      assert !IsColor(b[r][c], White);
    }
  }

  /** The same for the first n cells of row r. */
  lemma {:induction false} InitialRowStaysBack(r: int, n: nat)
    requires 0 <= r < 8 && n <= 8
    ensures PawnsOffLastRanks(InitialBoard())
    ensures forall m | m in RowMoves(InitialBoard(), true, None, r, n) :: m.endRow >= 4
  {
    InitialCells();
    if n > 0 {
      InitialRowStaysBack(r, n - 1);
      InitialCellMoves(r, n - 1);
    }
  }

  /** No move of white in the initial position reaches beyond row 4. */
  lemma {:induction false} InitialMovesStayBack(n: nat)
    requires n <= 8
    ensures PawnsOffLastRanks(InitialBoard())
    ensures forall m | m in RowsMoves(InitialBoard(), true, None, n) :: m.endRow >= 4
  {
    InitialCells();
    if n > 0 {
      InitialMovesStayBack(n - 1);
      InitialRowStaysBack(n - 1, 8);
    }
  }

  /** The position `GameState.__init__` sets up satisfies the invariant. */
  lemma InitialValid()
    ensures Valid(InitialPosition())
  {
    var p := InitialPosition();
    InitialCells();
    InitialMovesStayBack(8);
    assert WellFormed(p);
  }
}
