/** The immutable `Move` and `CastleRights` values of Chess/ChessEngine.py. */
module Moves {
  import opened Basics

  /** The four castling rights: white/black kingside, white/black queenside. */
  datatype CastleRights = CastleRights(wks: bool, bks: bool, wqs: bool, bqs: bool)

  /** A move as the source's `Move` object holds it: squares, the two pieces read from
      the board when it was built, and the three flags. */
  datatype Move = Move(
    startRow: int, startCol: int, endRow: int, endCol: int,
    pieceMoved: Square, pieceCaptured: Square,
    isPawnPromotion: bool, isEnpassantMove: bool, isCastleMove: bool)
  {
    /** The integer key that the source's `__eq__` compares. */
    function MoveID(): int
    {
      startRow * 1000 + startCol * 100 + endRow * 10 + endCol
    }

    predicate OnBoard()
    {
      InBounds(startRow, startCol) && InBounds(endRow, endCol)
    }
  }

  /** The piece an en passant capture removes: the pawn of the other colour. */
  function EnPassantVictim(moved: Square): Square
  {
    if moved == Piece(Black, Pawn) then Piece(White, Pawn) else Piece(Black, Pawn)
  }

  /** True iff a pawn lands on the far rank, the source's `isPawnPromotion`. */
  predicate PromotionFlag(moved: Square, endRow: int)
  {
    (moved == Piece(White, Pawn) && endRow == 0) || (moved == Piece(Black, Pawn) && endRow == 7)
  }

  /** `Move.__init__`: reads the moved and captured pieces from the board snapshot. The
      promotion flag marks exactly a pawn reaching the far rank of its colour, and an en
      passant pawn capture takes a pawn of the other colour, not what stands on the
      target cell. */
  function NewMove(startSq: Coord, endSq: Coord, board: Board, isEnpassantMove: bool, isCastleMove: bool): (m: Move)
    requires InBounds(startSq.row, startSq.col) && InBounds(endSq.row, endSq.col)
    ensures m.OnBoard() && Coord(m.startRow, m.startCol) == startSq && Coord(m.endRow, m.endCol) == endSq
    ensures m.pieceMoved == board[startSq.row][startSq.col]
    ensures m.isPawnPromotion <==>
      m.pieceMoved.Piece? && m.pieceMoved.kind == Pawn && m.endRow == (if m.pieceMoved.color == White then 0 else 7)
    ensures !isEnpassantMove ==> m.pieceCaptured == board[endSq.row][endSq.col]
    ensures isEnpassantMove && m.pieceMoved.Piece? && m.pieceMoved.kind == Pawn ==>
      m.pieceCaptured == Piece(Opponent(m.pieceMoved.color), Pawn)
    ensures m.isEnpassantMove == isEnpassantMove && m.isCastleMove == isCastleMove
  {
    var moved := board[startSq.row][startSq.col];
    assert PromotionFlag(moved, endSq.row) <==>
      moved.Piece? && moved.kind == Pawn && endSq.row == (if moved.color == White then 0 else 7);
    Move(startSq.row, startSq.col, endSq.row, endSq.col,
         moved,
         if isEnpassantMove then EnPassantVictim(moved) else board[endSq.row][endSq.col],
         PromotionFlag(moved, endSq.row),
         isEnpassantMove, isCastleMove)
  }

  /** A move whose pieces and flags are the ones `Move.__init__` computes from `board`. */
  predicate BuiltFrom(board: Board, m: Move)
  {
    m.OnBoard() &&
    m == NewMove(Coord(m.startRow, m.startCol), Coord(m.endRow, m.endCol), board, m.isEnpassantMove, m.isCastleMove)
  }

  /** `Move.__eq__`. */
  predicate SameMove(a: Move, b: Move)
  {
    a.MoveID() == b.MoveID()
  }

  /** The last decimal digit of 10q + d, and what is left in front of it. */
  lemma DivMod10(q: int, d: int)
    requires 0 <= d < 10
    ensures (10 * q + d) % 10 == d && (10 * q + d) / 10 == q
  {
  }

  /** On the board the key spells its four coordinates as decimal digits. */
  lemma MoveIDDigits(m: Move)
    requires m.OnBoard()
    ensures var id := m.MoveID();
      id % 10 == m.endCol && (id / 10) % 10 == m.endRow &&
      (id / 100) % 10 == m.startCol && id / 1000 == m.startRow
  {
    var a := 10 * m.startRow + m.startCol;
    var b := 10 * a + m.endRow;
    assert m.MoveID() == 10 * b + m.endCol;
    DivMod10(b, m.endCol);
    DivMod10(a, m.endRow);
    DivMod10(m.startRow, m.startCol);
    assert m.MoveID() / 100 == a;
    assert m.MoveID() / 1000 == m.startRow;
  }

  /** On squares of the board the move key is injective: two moves are equal exactly
      when their start and end squares coincide. */
  lemma MoveIDInjective(a: Move, b: Move)
    requires a.OnBoard() && b.OnBoard()
    ensures SameMove(a, b) <==>
      (a.startRow == b.startRow && a.startCol == b.startCol && a.endRow == b.endRow && a.endCol == b.endCol)
  {
    MoveIDDigits(a);
    MoveIDDigits(b);
  }

  const RANKS_TO_ROWS: map<char, int> :=
    map['1' := 7, '2' := 6, '3' := 5, '4' := 4, '5' := 3, '6' := 2, '7' := 1, '8' := 0]

  /** The inverse dictionary, written out (the source builds it by inverting RANKS_TO_ROWS;
      `RanksInverse` and `FilesInverse` show these are those inverses). */
  const ROWS_TO_RANKS: map<int, char> :=
    map[7 := '1', 6 := '2', 5 := '3', 4 := '4', 3 := '5', 2 := '6', 1 := '7', 0 := '8']

  const FILES_TO_COLS: map<char, int> :=
    map['a' := 0, 'b' := 1, 'c' := 2, 'd' := 3, 'e' := 4, 'f' := 5, 'g' := 6, 'h' := 7]

  const COLS_TO_FILES: map<int, char> :=
    map[0 := 'a', 1 := 'b', 2 := 'c', 3 := 'd', 4 := 'e', 5 := 'f', 6 := 'g', 7 := 'h']

  /** The written-out row table is the inverse of the rank dictionary. */
  lemma RanksInverse()
    ensures forall k | k in RANKS_TO_ROWS :: RANKS_TO_ROWS[k] in ROWS_TO_RANKS && ROWS_TO_RANKS[RANKS_TO_ROWS[k]] == k
    ensures forall v | v in ROWS_TO_RANKS :: ROWS_TO_RANKS[v] in RANKS_TO_ROWS && RANKS_TO_ROWS[ROWS_TO_RANKS[v]] == v
  {
    forall k | k in RANKS_TO_ROWS
      ensures RANKS_TO_ROWS[k] in ROWS_TO_RANKS && ROWS_TO_RANKS[RANKS_TO_ROWS[k]] == k
    {
      assert k in {'1', '2', '3', '4', '5', '6', '7', '8'};
    }
    forall v | v in ROWS_TO_RANKS
      ensures ROWS_TO_RANKS[v] in RANKS_TO_ROWS && RANKS_TO_ROWS[ROWS_TO_RANKS[v]] == v
    {
      assert 0 <= v <= 7;
    }
  }

  /** The written-out column table is the inverse of the file dictionary. */
  lemma FilesInverse()
    ensures forall k | k in FILES_TO_COLS :: FILES_TO_COLS[k] in COLS_TO_FILES && COLS_TO_FILES[FILES_TO_COLS[k]] == k
    ensures forall v | v in COLS_TO_FILES :: COLS_TO_FILES[v] in FILES_TO_COLS && FILES_TO_COLS[COLS_TO_FILES[v]] == v
  {
    forall k | k in FILES_TO_COLS
      ensures FILES_TO_COLS[k] in COLS_TO_FILES && COLS_TO_FILES[FILES_TO_COLS[k]] == k
    {
      assert k in {'a', 'b', 'c', 'd', 'e', 'f', 'g', 'h'};
    }
    forall v | v in COLS_TO_FILES
      ensures COLS_TO_FILES[v] in FILES_TO_COLS && FILES_TO_COLS[COLS_TO_FILES[v]] == v
    {
      assert 0 <= v <= 7;
    }
  }

  /** Every row and column has a rank and file letter, and reading the letter back gives
      the row or column again. */
  lemma RankFileRoundTrip(r: int, c: int)
    requires InBounds(r, c)
    ensures r in ROWS_TO_RANKS && ROWS_TO_RANKS[r] in RANKS_TO_ROWS && RANKS_TO_ROWS[ROWS_TO_RANKS[r]] == r
    ensures c in COLS_TO_FILES && COLS_TO_FILES[c] in FILES_TO_COLS && FILES_TO_COLS[COLS_TO_FILES[c]] == c
  {
  }

  /** `Move.getRankFile`: file letter then rank digit. */
  function RankFile(r: int, c: int): (s: string)
    requires InBounds(r, c)
    ensures |s| == 2 && s[0] in FILES_TO_COLS && s[1] in RANKS_TO_ROWS
    ensures FILES_TO_COLS[s[0]] == c && RANKS_TO_ROWS[s[1]] == r
  {
    RankFileRoundTrip(r, c);
    [COLS_TO_FILES[c], ROWS_TO_RANKS[r]]
  }

  /** `Move.getChessNotation`: start square then end square, e.g. "e2e4". */
  function ChessNotation(m: Move): (s: string)
    requires m.OnBoard()
    ensures |s| == 4
  {
    RankFile(m.startRow, m.startCol) + RankFile(m.endRow, m.endCol)
  }

  /** Two moves have the same notation exactly when they are equal moves. */
  lemma NotationMatchesEquality(a: Move, b: Move)
    requires a.OnBoard() && b.OnBoard()
    ensures ChessNotation(a) == ChessNotation(b) <==> SameMove(a, b)
  {
    MoveIDInjective(a, b);
    var na, nb := ChessNotation(a), ChessNotation(b);
    if na == nb {
      assert na[0] == nb[0] && na[1] == nb[1] && na[2] == nb[2] && na[3] == nb[3];
      assert RankFile(a.startRow, a.startCol) == na[0..2];
      assert RankFile(b.startRow, b.startCol) == nb[0..2];
      assert RankFile(a.endRow, a.endCol) == na[2..4];
      assert RankFile(b.endRow, b.endCol) == nb[2..4];
    }
  }

  /** The white king's pawn advance from row 6 to row 4 of column 4 reads "e2e4". */
  lemma NotationExample(m: Move)
    requires m.startRow == 6 && m.startCol == 4 && m.endRow == 4 && m.endCol == 4
    ensures ChessNotation(m) == "e2e4"
  {
  }
}
