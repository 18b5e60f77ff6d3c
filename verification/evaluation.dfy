/** The static evaluation of Chess/SmartMoveFinder.py: `pieceScore`, the piece-square
    tables, and the sums `scoreBoard` and `scoreMaterial` compute over the grid.
    `scoreBoard` weighs each table entry by 0.1; every score here is therefore kept in
    tenths (ten times the source's value), which keeps all arithmetic on integers. */
module Evaluation {
  import opened Basics

  /** `pieceScore`. */
  function PieceScore(k: Kind): int
  {
    match k
    case King => 0
    case Rook => 5
    case Queen => 9
    case Bishop => 3
    case Knight => 3
    case Pawn => 1
  }

  const CHECKMATE: int := 1000
  const STALEMATE: int := 0
  /** The search depth `findBestMove` uses. */
  const DEPTH: nat := 3

  /** A score of the source, in tenths. */
  function Tenths(x: int): int
  {
    10 * x
  }

  const KNIGHT_SCORE: seq<seq<int>> :=
    [[1, 1, 1, 1, 1, 1, 1, 1],
     [1, 2, 2, 2, 2, 2, 2, 1],
     [1, 3, 3, 3, 3, 3, 2, 1],
     [1, 3, 3, 4, 4, 3, 2, 1],
     [1, 3, 3, 4, 4, 3, 2, 1],
     [1, 3, 3, 3, 3, 3, 2, 1],
     [1, 2, 2, 2, 2, 2, 2, 1],
     [1, 1, 1, 1, 1, 1, 1, 1]]

  const BISHOP_SCORE: seq<seq<int>> :=
    [[4, 0, 0, 0, 0, 0, 0, 4],
     [3, 4, 2, 2, 2, 2, 4, 3],
     [1, 3, 4, 3, 3, 4, 2, 1],
     [1, 3, 4, 4, 4, 4, 2, 1],
     [1, 3, 3, 4, 4, 3, 2, 1],
     [1, 3, 4, 3, 3, 4, 3, 1],
     [1, 4, 2, 2, 2, 2, 4, 3],
     [4, 0, 0, 0, 0, 0, 0, 4]]

  const ROOK_SCORE: seq<seq<int>> :=
    [[1, 1, 4, 4, 4, 3, 2, 1],
     [1, 2, 2, 2, 2, 2, 2, 1],
     [1, 2, 2, 2, 2, 2, 2, 1],
     [1, 2, 2, 2, 2, 2, 2, 3],
     [1, 2, 2, 2, 2, 2, 2, 1],
     [1, 3, 3, 3, 3, 3, 2, 3],
     [2, 2, 2, 2, 2, 2, 2, 2],
     [1, 1, 4, 4, 4, 4, 2, 1]]

  /** The king's table; `scoreBoard` never reads it, since it skips kings. */
  const KING_SCORE: seq<seq<int>> :=
    [[1, 1, 4, 4, 4, 3, 2, 1],
     [1, 2, 2, 2, 2, 2, 2, 1],
     [1, 2, 2, 2, 2, 2, 2, 1],
     [1, 2, 2, 2, 2, 2, 2, 3],
     [1, 2, 2, 2, 2, 2, 2, 1],
     [1, 3, 3, 3, 3, 3, 2, 3],
     [2, 2, 2, 2, 2, 2, 2, 2],
     [1, 4, 4, 4, 4, 4, 5, 5]]

  const QUEEN_SCORE: seq<seq<int>> :=
    [[1, 1, 4, 4, 4, 3, 2, 1],
     [1, 4, 4, 4, 2, 2, 2, 1],
     [1, 4, 4, 2, 2, 2, 2, 1],
     [1, 4, 4, 5, 5, 2, 2, 3],
     [1, 4, 4, 5, 5, 3, 3, 1],
     [1, 4, 4, 3, 3, 3, 2, 3],
     [2, 2, 3, 3, 3, 3, 3, 2],
     [1, 1, 2, 2, 2, 2, 2, 1]]

  /** The pawn's table, read by row for both colours alike. */
  const PAWN_SCORE: seq<seq<int>> :=
    [[10, 10, 10, 10, 10, 10, 10, 10],
     [2, 2, 2, 2, 2, 2, 2, 2],
     [3, 3, 3, 3, 3, 3, 3, 3],
     [4, 4, 4, 6, 6, 4, 4, 4],
     [4, 4, 4, 6, 6, 4, 4, 3],
     [1, 3, 3, 3, 3, 3, 3, 3],
     [2, 2, 2, 2, 2, 2, 2, 2],
     [10, 10, 10, 10, 10, 10, 10, 10]]

  /** `piecePositionScores`. */
  function PositionTable(k: Kind): seq<seq<int>>
  {
    match k
    case Knight => KNIGHT_SCORE
    case King => KING_SCORE
    case Bishop => BISHOP_SCORE
    case Pawn => PAWN_SCORE
    case Rook => ROOK_SCORE
    case Queen => QUEEN_SCORE
  }

  /** An 8x8 table whose entries lie between 0 and 10. */
  predicate TableBounded(t: seq<seq<int>>)
  {
    |t| == 8 && forall i | 0 <= i < 8 :: |t[i]| == 8 && forall j | 0 <= j < 8 :: 0 <= t[i][j] <= 10
  }

  lemma TablesBounded(k: Kind)
    ensures TableBounded(PositionTable(k))
  {
  }

  /** The positional weight of the piece on (r, c), in tenths: its table entry, or 0 for a king. */
  function PositionScore(k: Kind, r: int, c: int): (v: int)
    requires InBounds(r, c)
    ensures 0 <= v <= 10
  {
    TablesBounded(k);
    if k == King then 0 else PositionTable(k)[r][c]
  }

  /** What one cell adds to `scoreBoard`, in tenths: piece value plus positional weight,
      counted for white and against black. */
  function SquareScore(s: Square, r: int, c: int): int
    requires InBounds(r, c)
  {
    match s
    case Empty => 0
    case Piece(White, k) => Tenths(PieceScore(k)) + PositionScore(k, r, c)
    case Piece(Black, k) => -(Tenths(PieceScore(k)) + PositionScore(k, r, c))
  }

  /** The cells (r, 0) .. (r, c - 1) of the grid, summed. */
  function RowScore(b: Board, r: int, c: nat): int
    requires 0 <= r < 8 && c <= 8
  {
    if c == 0 then 0 else RowScore(b, r, c - 1) + SquareScore(b[r][c - 1], r, c - 1)
  }

  /** The rows 0 .. r - 1 of the grid, summed. */
  function RowsScore(b: Board, r: nat): int
    requires r <= 8
  {
    if r == 0 then 0 else RowsScore(b, r - 1) + RowScore(b, r - 1, 8)
  }

  /** `scoreBoard` in tenths: the checkmate and stalemate values first, else the sum. */
  function BoardScore(b: Board, whiteToMove: bool, checkmate: bool, stalemate: bool): int
  {
    if checkmate then (if whiteToMove then -Tenths(CHECKMATE) else Tenths(CHECKMATE))
    else if stalemate then Tenths(STALEMATE)
    else RowsScore(b, 8)
  }

  /** No cell moves the score by more than a queen on her best square. */
  lemma SquareScoreBound(s: Square, r: int, c: int)
    requires InBounds(r, c)
    ensures -100 <= SquareScore(s, r, c) <= 100
  {
  }

  lemma {:induction false} RowScoreBound(b: Board, r: int, c: nat)
    requires 0 <= r < 8 && c <= 8
    ensures -100 * c <= RowScore(b, r, c) <= 100 * c
  {
    if c > 0 {
      RowScoreBound(b, r, c - 1);
      SquareScoreBound(b[r][c - 1], r, c - 1);
    }
  }

  lemma {:induction false} RowsScoreBound(b: Board, r: nat)
    requires r <= 8
    ensures -800 * r <= RowsScore(b, r) <= 800 * r
  {
    if r > 0 {
      RowsScoreBound(b, r - 1);
      RowScoreBound(b, r - 1, 8);
    }
  }

  /** A board that is neither checkmate nor stalemate scores strictly between the two
      checkmate values, so a checkmate outweighs any material and position. */
  lemma BoardScoreInside(b: Board, whiteToMove: bool)
    ensures -Tenths(CHECKMATE) < BoardScore(b, whiteToMove, false, false) < Tenths(CHECKMATE)
  {
    RowsScoreBound(b, 8);
  }

  /** `scoreBoard` returns +CHECKMATE exactly when black is checkmated, and -CHECKMATE
      exactly when white is; every score lies between the two. */
  lemma BoardScoreExtremes(b: Board, whiteToMove: bool, checkmate: bool, stalemate: bool)
    ensures var v := BoardScore(b, whiteToMove, checkmate, stalemate);
      -Tenths(CHECKMATE) <= v <= Tenths(CHECKMATE) &&
      (v == Tenths(CHECKMATE) <==> checkmate && !whiteToMove) &&
      (v == -Tenths(CHECKMATE) <==> checkmate && whiteToMove)
  {
    BoardScoreInside(b, whiteToMove);
  }

  /** What one cell adds to `scoreMaterial`. */
  function SquareMaterial(s: Square): int
  {
    match s
    case Empty => 0
    case Piece(White, k) => PieceScore(k)
    case Piece(Black, k) => -PieceScore(k)
  }

  /** The first c cells of a row, summed. */
  function RowMaterial(row: seq<Square>, c: nat): int
    requires c <= |row|
  {
    if c == 0 then 0 else RowMaterial(row, c - 1) + SquareMaterial(row[c - 1])
  }

  /** The first r rows, summed. */
  function RowsMaterial(b: Board, r: nat): int
    requires r <= 8
  {
    if r == 0 then 0 else RowsMaterial(b, r - 1) + RowMaterial(b[r - 1], 8)
  }

  /** `scoreMaterial`. */
  function Material(b: Board): int
  {
    RowsMaterial(b, 8)
  }

  /** The grid with every piece given to the other side. */
  function SwapColors(b: Board): (s: Board)
    ensures forall i, j | 0 <= i < 8 && 0 <= j < 8 ::
      s[i][j] == if b[i][j] == Empty then Empty else Piece(Opponent(b[i][j].color), b[i][j].kind)
  {
    seq(8, i requires 0 <= i < 8 =>
      seq(8, j requires 0 <= j < 8 =>
        if b[i][j] == Empty then Empty else Piece(Opponent(b[i][j].color), b[i][j].kind)))
  }

  /** The grid with both kings taken off. */
  function WithoutKings(b: Board): (s: Board)
    ensures forall i, j | 0 <= i < 8 && 0 <= j < 8 ::
      s[i][j] == if b[i][j].Piece? && b[i][j].kind == King then Empty else b[i][j]
  {
    seq(8, i requires 0 <= i < 8 =>
      seq(8, j requires 0 <= j < 8 =>
        if b[i][j].Piece? && b[i][j].kind == King then Empty else b[i][j]))
  }

  /** The grid with no piece at all. */
  function EmptyBoard(): (s: Board)
    ensures forall i, j | 0 <= i < 8 && 0 <= j < 8 :: s[i][j] == Empty
  {
    seq(8, i => seq(8, j => Empty))
  }

  /** Two rows whose cells score pairwise `f` and `g` with g = -f sum to opposite values. */
  lemma {:induction false} RowMaterialSwap(row: seq<Square>, swapped: seq<Square>, c: nat)
    requires c <= |row| == |swapped|
    requires forall j | 0 <= j < |row| :: SquareMaterial(swapped[j]) == -SquareMaterial(row[j])
    ensures RowMaterial(swapped, c) == -RowMaterial(row, c)
  {
    if c > 0 {
      RowMaterialSwap(row, swapped, c - 1);
    }
  }

  lemma {:induction false} RowsMaterialSwap(b: Board, r: nat)
    requires r <= 8
    ensures RowsMaterial(SwapColors(b), r) == -RowsMaterial(b, r)
  {
    if r > 0 {
      RowsMaterialSwap(b, r - 1);
      var s := SwapColors(b);
      RowMaterialSwap(b[r - 1], s[r - 1], 8);
    }
  }

  /** Swapping the colour of every piece negates `scoreMaterial`. */
  lemma MaterialSwap(b: Board)
    ensures Material(SwapColors(b)) == -Material(b)
  {
    RowsMaterialSwap(b, 8);
  }

  /** Two rows whose cells score alike sum alike. */
  lemma {:induction false} RowMaterialSame(row: seq<Square>, other: seq<Square>, c: nat)
    requires c <= |row| == |other|
    requires forall j | 0 <= j < |row| :: SquareMaterial(other[j]) == SquareMaterial(row[j])
    ensures RowMaterial(other, c) == RowMaterial(row, c)
  {
    if c > 0 {
      RowMaterialSame(row, other, c - 1);
    }
  }

  lemma {:induction false} RowsMaterialKings(b: Board, r: nat)
    requires r <= 8
    ensures RowsMaterial(WithoutKings(b), r) == RowsMaterial(b, r)
  {
    if r > 0 {
      RowsMaterialKings(b, r - 1);
      var s := WithoutKings(b);
      RowMaterialSame(b[r - 1], s[r - 1], 8);
    }
  }

  /** Kings are worth nothing: taking them off leaves `scoreMaterial` as it was. */
  lemma MaterialIgnoresKings(b: Board)
    ensures Material(WithoutKings(b)) == Material(b)
  {
    RowsMaterialKings(b, 8);
  }

  lemma {:induction false} RowsMaterialEmpty(r: nat)
    requires r <= 8
    ensures RowsMaterial(EmptyBoard(), r) == 0
  {
    if r > 0 {
      RowsMaterialEmpty(r - 1);
      RowMaterialZero(EmptyBoard()[r - 1], 8);
    }
  }

  /** A row of empty cells sums to zero. */
  lemma {:induction false} RowMaterialZero(row: seq<Square>, c: nat)
    requires c <= |row| && forall j | 0 <= j < |row| :: row[j] == Empty
    ensures RowMaterial(row, c) == 0
  {
    if c > 0 {
      RowMaterialZero(row, c - 1);
    }
  }

  /** An empty grid scores 0. */
  lemma MaterialEmpty()
    ensures Material(EmptyBoard()) == 0
  {
    RowsMaterialEmpty(8);
  }
}
