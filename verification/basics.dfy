/** Squares, pieces and the 8x8 grid that every other module works on.
    The source stores each cell as a two-character string ("--" for an empty
    square, colour letter then piece letter otherwise); `Code` gives that string. */
module Basics {

  datatype Option<T> = None | Some(value: T)

  datatype Color = White | Black

  datatype Kind = Pawn | Knight | Bishop | Rook | Queen | King

  datatype Square = Empty | Piece(color: Color, kind: Kind)

  /** A (row, column) pair, as the source's tuples; row 0 is black's back rank. */
  datatype Coord = Coord(row: int, col: int)

  function Opponent(c: Color): Color
  {
    if c == White then Black else White
  }

  /** The colour whose turn it is, given the source's `whiteToMove` flag. */
  function SideColor(whiteToMove: bool): Color
  {
    if whiteToMove then White else Black
  }

  predicate IsColor(s: Square, c: Color)
  {
    s.Piece? && s.color == c
  }

  function ColorChar(c: Color): char
  {
    if c == White then 'w' else 'b'
  }

  function KindChar(k: Kind): char
  {
    match k
    case Pawn => 'p'
    case Knight => 'N'
    case Bishop => 'B'
    case Rook => 'R'
    case Queen => 'Q'
    case King => 'K'
  }

  /** The source's two-character cell string. */
  function Code(s: Square): (r: string)
    ensures |r| == 2
    ensures r[0] == '-' <==> s == Empty
  {
    match s
    case Empty => "--"
    case Piece(c, k) => [ColorChar(c), KindChar(k)]
  }

  /** Distinct squares have distinct codes, so the string grid and this one carry the same information. */
  lemma CodeInjective(a: Square, b: Square)
    requires Code(a) == Code(b)
    ensures a == b
  {
    if a.Piece? && b.Piece? {
      assert Code(a)[0] == Code(b)[0] && Code(a)[1] == Code(b)[1];
      assert a.color == b.color;
      match a.kind {
        case Pawn =>
        case Knight =>
        case Bishop =>
        case Rook =>
        case Queen =>
        case King =>
      }
    }
  }

  /** Concatenation is associative (Dafny proves sequence equalities only when asked). */
  lemma AppendAssoc<T>(a: seq<T>, b: seq<T>, c: seq<T>)
    ensures (a + b) + c == a + (b + c)
  {
  }

  predicate InBounds(r: int, c: int)
  {
    0 <= r <= 7 && 0 <= c <= 7
  }

  /** The 8x8 grid of the source (a list of eight lists of eight cells). */
  type Board = b: seq<seq<Square>> | |b| == 8 && forall i | 0 <= i < 8 :: |b[i]| == 8
    witness seq(8, _ => seq(8, _ => Empty))

  /** Writes one cell, as `board[r][c] = s` does. */
  function Set(b: Board, r: int, c: int, s: Square): (b': Board)
    requires InBounds(r, c)
  {
    b[r := b[r][c := s]]
  }

  /** Two grids that agree on every cell are the same grid. */
  lemma BoardExt(a: Board, b: Board)
    requires forall i, j | 0 <= i < 8 && 0 <= j < 8 :: a[i][j] == b[i][j]
    ensures a == b
  {
    forall i | 0 <= i < 8
      ensures a[i] == b[i]
    {
      assert forall j | 0 <= j < 8 :: a[i][j] == b[i][j];
    }
  }

  /** No white pawn stands on row 0 and no black pawn on row 7: a pawn is promoted on
      arrival, and the pawn generator would index outside the grid otherwise. */
  predicate PawnsOffLastRanks(b: Board)
  {
    forall j | 0 <= j < 8 :: b[0][j] != Piece(White, Pawn) && b[7][j] != Piece(Black, Pawn)
  }
}
