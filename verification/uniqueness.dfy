/** No two candidates of `getValidMoves` are equal under `Move.__eq__`, which compares
    the start and end squares only. So `list.remove` in its pruning loop always drops
    the move the loop is looking at, and `getValidMoves` returns every safe candidate.
    Each generator lists every target once: a ray's cells lie one further step out each
    time, different rays head in different directions, the jump tables hold no offset
    twice, a pawn's advances stay in its column and its captures leave it, and the
    moves of different pieces start on different squares. A castle moves the king two
    columns, which no step of the king does. */
module Uniqueness {
  import opened Basics
  import opened Moves
  import opened Rules
  import opened Generation
  import opened Legality
  import opened Invariant

  /** The squares `Move.__eq__` compares. */
  function Squares(m: Move): (Coord, Coord)
  {
    (Coord(m.startRow, m.startCol), Coord(m.endRow, m.endCol))
  }

  /** No two moves of the list share both their squares. */
  predicate Apart(ms: seq<Move>)
  {
    forall i, j | 0 <= i < j < |ms| :: Squares(ms[i]) != Squares(ms[j])
  }

  /** No value occurs twice in the list. */
  predicate NoRepeats<T(==)>(xs: seq<T>)
  {
    forall i, j | 0 <= i < j < |xs| :: xs[i] != xs[j]
  }

  /** Two lists that are each apart, and share no pair of squares, are apart together. */
  lemma ApartConcat(xs: seq<Move>, ys: seq<Move>)
    requires Apart(xs) && Apart(ys)
    requires forall x, y | x in xs && y in ys :: Squares(x) != Squares(y)
    ensures Apart(xs + ys)
  {
    var zs := xs + ys;
    forall i, j | 0 <= i < j < |zs|
      ensures Squares(zs[i]) != Squares(zs[j])
    {
      if j < |xs| {
        assert zs[i] == xs[i] && zs[j] == xs[j];
      } else if i >= |xs| {
        assert zs[i] == ys[i - |xs|] && zs[j] == ys[j - |xs|];
      } else {
        assert zs[i] == xs[i] && zs[j] == ys[j - |xs|];
      }
    }
  }

  function Sign(x: int): int
  {
    if x > 0 then 1 else if x < 0 then -1 else 0
  }

  /** The direction from (r, c) towards the end of m. */
  function Heading(m: Move, r: int, c: int): (int, int)
  {
    (Sign(m.endRow - r), Sign(m.endCol - c))
  }

  /** A ray lists each of its cells once, every move starting on (r, c) and heading
      in the ray's direction. */
  lemma RayApart(b: Board, whiteToMove: bool, r: int, c: int, dr: int, dc: int)
    requires InBounds(r, c) && UnitStep(dr, dc)
    ensures var ms := Ray(b, whiteToMove, r, c, dr, dc);
      Apart(ms) && forall m | m in ms :: m.startRow == r && m.startCol == c && Heading(m, r, c) == (dr, dc)
  {
    var i, x := r + dr, c + dc;
    var cs := RayCells(b, whiteToMove, dr, dc, i, x);
    RayFromCells(b, whiteToMove, r, c, dr, dc, i, x);
    RayLine(b, whiteToMove, dr, dc, i, x);
    var ms := MovesTo(b, r, c, cs);
    MovesToSquares(b, r, c, cs);
    LineApart(ms, r, c, i, x, dr, dc);
  }

  /** The k-th move to a list of cells goes from (r, c) to the k-th cell. */
  lemma MovesToSquares(b: Board, r: int, c: int, cs: seq<Coord>)
    requires InBounds(r, c) && forall k | 0 <= k < |cs| :: InBounds(cs[k].row, cs[k].col)
    ensures var ms := MovesTo(b, r, c, cs);
      forall k | 0 <= k < |ms| :: Squares(ms[k]) == (Coord(r, c), cs[k])
  {
  }

  /** Moves from (r, c) whose k-th ends k steps beyond (i, x), the cell next to (r, c)
      in direction (dr, dc), end on different cells and head that way. */
  lemma LineApart(ms: seq<Move>, r: int, c: int, i: int, x: int, dr: int, dc: int)
    requires UnitStep(dr, dc) && i == r + dr && x == c + dc
    requires forall k | 0 <= k < |ms| :: Squares(ms[k]) == (Coord(r, c), Coord(i + Steps(k, dr), x + Steps(k, dc)))
    ensures Apart(ms) && forall m | m in ms :: m.startRow == r && m.startCol == c && Heading(m, r, c) == (dr, dc)
  {
  }

  /** So do the rays of distinct directions, one after the other, each move heading in
      one of the directions. */
  lemma {:induction false} RaysApart(b: Board, whiteToMove: bool, r: int, c: int, dirs: seq<(int, int)>)
    requires InBounds(r, c) && (forall k | 0 <= k < |dirs| :: UnitStep(dirs[k].0, dirs[k].1)) && NoRepeats(dirs)
    ensures var ms := Rays(b, whiteToMove, r, c, dirs);
      Apart(ms) && forall m | m in ms :: m.startRow == r && m.startCol == c && Heading(m, r, c) in dirs
    decreases |dirs|
  {
    if dirs != [] {
      var n := |dirs| - 1;
      var front := dirs[..n];
      assert forall k | 0 <= k < n :: front[k] == dirs[k];
      RaysApart(b, whiteToMove, r, c, front);
      RayApart(b, whiteToMove, r, c, dirs[n].0, dirs[n].1);
      assert dirs[n] !in front;
      ApartConcat(Rays(b, whiteToMove, r, c, front), Ray(b, whiteToMove, r, c, dirs[n].0, dirs[n].1));
    }
  }

  /** The directions of `getRookMoves`, in its order. */
  const ROOK_DIRECTIONS: seq<(int, int)> := [(1, 0), (-1, 0), (0, 1), (0, -1)]

  /** `getRookMoves`'s four loops are the rays of those directions. */
  lemma RookRays(b: Board, whiteToMove: bool, r: int, c: int)
    requires InBounds(r, c)
    ensures forall k | 0 <= k < |ROOK_DIRECTIONS| :: UnitStep(ROOK_DIRECTIONS[k].0, ROOK_DIRECTIONS[k].1)
    ensures RookMoves(b, whiteToMove, r, c) == Rays(b, whiteToMove, r, c, ROOK_DIRECTIONS)
  {
    var d0, d1, d2, d3 := [(1, 0)], [(1, 0), (-1, 0)], [(1, 0), (-1, 0), (0, 1)], ROOK_DIRECTIONS;
    var down, up := Ray(b, whiteToMove, r, c, 1, 0), Ray(b, whiteToMove, r, c, -1, 0);
    var right, left := Ray(b, whiteToMove, r, c, 0, 1), Ray(b, whiteToMove, r, c, 0, -1);
    assert d0[..0] == [] && d1[..1] == d0 && d2[..2] == d1 && d3[..3] == d2;
    assert Rays(b, whiteToMove, r, c, d0) == down;
    assert Rays(b, whiteToMove, r, c, d1) == down + up;
    assert Rays(b, whiteToMove, r, c, d2) == down + up + right;
  }

  /** Each move of a rook on (r, c) heads in a direction of its own. */
  lemma RookApart(b: Board, whiteToMove: bool, r: int, c: int)
    requires InBounds(r, c)
    ensures Apart(RookMoves(b, whiteToMove, r, c))
    ensures forall m | m in RookMoves(b, whiteToMove, r, c) :: Heading(m, r, c) in ROOK_DIRECTIONS
  {
    RookRays(b, whiteToMove, r, c);
    RaysApart(b, whiteToMove, r, c, ROOK_DIRECTIONS);
  }

  /** So does each move of a bishop. */
  lemma BishopApart(b: Board, whiteToMove: bool, r: int, c: int)
    requires InBounds(r, c)
    ensures Apart(BishopMoves(b, whiteToMove, r, c))
    ensures forall m | m in BishopMoves(b, whiteToMove, r, c) :: Heading(m, r, c) in BISHOP_DIRECTIONS
  {
    BishopDirectionsUnit();
    RaysApart(b, whiteToMove, r, c, BISHOP_DIRECTIONS);
  }

  /** And each move of a queen: its bishop moves head diagonally, its rook moves straight. */
  lemma QueenApart(b: Board, whiteToMove: bool, r: int, c: int)
    requires InBounds(r, c)
    ensures Apart(QueenMoves(b, whiteToMove, r, c))
  {
    var diagonal, straight := BishopMoves(b, whiteToMove, r, c), RookMoves(b, whiteToMove, r, c);
    BishopApart(b, whiteToMove, r, c);
    RookApart(b, whiteToMove, r, c);
    forall x, y | x in diagonal && y in straight
      ensures Squares(x) != Squares(y)
    {
      assert Heading(x, r, c) != Heading(y, r, c);
    }
    ApartConcat(diagonal, straight);
  }

  /** A jump table without repeated offsets lists each target once, every move starting
      on (r, c) and ending one of the offsets away. */
  lemma {:induction false} JumpsApart(b: Board, whiteToMove: bool, r: int, c: int, offsets: seq<(int, int)>)
    requires InBounds(r, c) && NoRepeats(offsets)
    ensures var ms := Jumps(b, whiteToMove, r, c, offsets);
      Apart(ms) && forall m | m in ms :: m.startRow == r && m.startCol == c && (m.endRow - r, m.endCol - c) in offsets
    decreases |offsets|
  {
    if offsets != [] {
      var n := |offsets| - 1;
      var front := offsets[..n];
      assert forall k | 0 <= k < n :: front[k] == offsets[k];
      JumpsApart(b, whiteToMove, r, c, front);
      var last := Jump(b, whiteToMove, r, c, offsets[n]);
      assert forall m | m in last :: m.startRow == r && m.startCol == c && (m.endRow - r, m.endCol - c) == offsets[n];
      assert offsets[n] !in front;
      ApartConcat(Jumps(b, whiteToMove, r, c, front), last);
    }
  }

  lemma OffsetsNoRepeats()
    ensures NoRepeats(KNIGHT_OFFSETS) && NoRepeats(KING_OFFSETS)
  {
  }

  /** A pawn's advances stay in its column, one or two rows on; its captures go one
      column left and one column right. */
  lemma PawnApart(b: Board, whiteToMove: bool, ep: Option<Coord>, r: int, c: int)
    requires InBounds(r, c) && InBounds(r + Forward(whiteToMove), c)
    ensures Apart(PawnMoves(b, whiteToMove, ep, r, c))
  {
    var pushes := PawnPushes(b, whiteToMove, r, c);
    var left := if c - 1 >= 0 then PawnCapture(b, whiteToMove, ep, r, c, c - 1) else [];
    var right := if c + 1 <= 7 then PawnCapture(b, whiteToMove, ep, r, c, c + 1) else [];
    PushesApart(b, whiteToMove, r, c);
    assert |left| <= 1 && |right| <= 1;
    forall x, y | x in pushes && y in left ensures Squares(x) != Squares(y) {
      assert x.endCol == c && y.endCol == c - 1;
    }
    ApartConcat(pushes, left);
    forall x, y | x in pushes + left && y in right ensures Squares(x) != Squares(y) {
      assert x.endCol <= c && y.endCol == c + 1;
    }
    ApartConcat(pushes + left, right);
    assert PawnMoves(b, whiteToMove, ep, r, c) == pushes + left + right;
  }

  /** The one or two advances of a pawn end on different rows of its column. */
  lemma PushesApart(b: Board, whiteToMove: bool, r: int, c: int)
    requires InBounds(r, c) && InBounds(r + Forward(whiteToMove), c)
    ensures Apart(PawnPushes(b, whiteToMove, r, c))
  {
  }

  /** The moves of the piece on (r, c) are apart, and a king's stay within one column. */
  lemma PieceApart(b: Board, whiteToMove: bool, ep: Option<Coord>, r: int, c: int)
    requires InBounds(r, c) && PawnsOffLastRanks(b) && IsColor(b[r][c], SideColor(whiteToMove))
    ensures Apart(PieceMoves(b, whiteToMove, ep, r, c))
    ensures b[r][c].kind == King ==> forall m | m in PieceMoves(b, whiteToMove, ep, r, c) :: c - 1 <= m.endCol <= c + 1
  {
    OffsetsNoRepeats();
    match b[r][c].kind
    case Pawn => PawnApart(b, whiteToMove, ep, r, c);
    case Rook => RookApart(b, whiteToMove, r, c);
    case Bishop => BishopApart(b, whiteToMove, r, c);
    case Queen => QueenApart(b, whiteToMove, r, c);
    case Knight => JumpsApart(b, whiteToMove, r, c, KNIGHT_OFFSETS);
    case King => JumpsApart(b, whiteToMove, r, c, KING_OFFSETS);
  }

  /** The moves of the first n cells of row r are apart: different cells, different
      start squares. */
  lemma {:induction false} RowApart(b: Board, whiteToMove: bool, ep: Option<Coord>, r: int, n: nat)
    requires 0 <= r < 8 && n <= 8 && PawnsOffLastRanks(b)
    ensures Apart(RowMoves(b, whiteToMove, ep, r, n))
    decreases n
  {
    if n > 0 {
      var x := n - 1;
      RowApart(b, whiteToMove, ep, r, x);
      var cell := CellMoves(b, whiteToMove, ep, r, x);
      if IsColor(b[r][x], SideColor(whiteToMove)) {
        PieceApart(b, whiteToMove, ep, r, x);
      }
      ApartConcat(RowMoves(b, whiteToMove, ep, r, x), cell);
    }
  }

  /** So are the moves of the first n rows. */
  lemma {:induction false} RowsApart(b: Board, whiteToMove: bool, ep: Option<Coord>, n: nat)
    requires n <= 8 && PawnsOffLastRanks(b)
    ensures Apart(RowsMoves(b, whiteToMove, ep, n))
    decreases n
  {
    if n > 0 {
      var y := n - 1;
      RowsApart(b, whiteToMove, ep, y);
      RowApart(b, whiteToMove, ep, y, 8);
      ApartConcat(RowsMoves(b, whiteToMove, ep, y), RowMoves(b, whiteToMove, ep, y, 8));
    }
  }

  /** A move of row r's first n cells is one of the moves of the cell it starts on. */
  lemma {:induction false} RowFrom(b: Board, whiteToMove: bool, ep: Option<Coord>, r: int, n: nat, m: Move)
    requires 0 <= r < 8 && n <= 8 && PawnsOffLastRanks(b) && m in RowMoves(b, whiteToMove, ep, r, n)
    ensures m.startRow == r && 0 <= m.startCol < 8 && m in CellMoves(b, whiteToMove, ep, r, m.startCol)
    decreases n
  {
    var x := n - 1;
    if m in RowMoves(b, whiteToMove, ep, r, x) {
      RowFrom(b, whiteToMove, ep, r, x, m);
    }
  }

  /** A move of `getAllMoves` is one of the moves of the cell it starts on. */
  lemma {:induction false} RowsFrom(b: Board, whiteToMove: bool, ep: Option<Coord>, n: nat, m: Move)
    requires n <= 8 && PawnsOffLastRanks(b) && m in RowsMoves(b, whiteToMove, ep, n)
    ensures InBounds(m.startRow, m.startCol) && m in CellMoves(b, whiteToMove, ep, m.startRow, m.startCol)
    decreases n
  {
    var y := n - 1;
    if m in RowsMoves(b, whiteToMove, ep, y) {
      RowsFrom(b, whiteToMove, ep, y, m);
    } else {
      RowFrom(b, whiteToMove, ep, y, 8, m);
    }
  }

  /** The castle moves start on the king's square and end two columns to one side or
      the other, at most one to each side. */
  lemma CastlesApart(p: Position)
    requires Ready(p)
    ensures var k := KingLocation(p);
      var ms := CastleMoves(p, k.row, k.col);
      Apart(ms) &&
      forall m | m in ms :: (m.startRow == k.row && m.startCol == k.col &&
        (m.endCol == k.col + 2 || m.endCol == k.col - 2))
  {
    var k := KingLocation(p);
    if !SquareAttacked(p.board, p.whiteToMove, p.enpassantPossible, k.row, k.col) {
      var ks := if KingsideRight(p) then KingsideCastleMoves(p, k.row, k.col) else [];
      var qs := if QueensideRight(p) then QueensideCastleMoves(p, k.row, k.col) else [];
      assert |ks| <= 1 && |qs| <= 1;
      ApartConcat(ks, qs);
    }
  }

  /** The candidates of a well-formed position are apart: the king's square holds the
      king, whose steps never reach the two columns a castle moves it. */
  lemma CandidatesApart(p: Position)
    requires WellFormed(p)
    ensures Apart(Candidates(p))
  {
    var b, k := p.board, KingLocation(p);
    var pseudo := AllMoves(b, p.whiteToMove, p.enpassantPossible);
    var castles := CastleMoves(p, k.row, k.col);
    RowsApart(b, p.whiteToMove, p.enpassantPossible, 8);
    CastlesApart(p);
    assert b[k.row][k.col] == Piece(SideColor(p.whiteToMove), King);
    PieceApart(b, p.whiteToMove, p.enpassantPossible, k.row, k.col);
    forall x, y | x in pseudo && y in castles
      ensures Squares(x) != Squares(y)
    {
      RowsFrom(b, p.whiteToMove, p.enpassantPossible, 8, x);
    }
    ApartConcat(pseudo, castles);
  }

  /** Hence no two candidates are equal under `Move.__eq__`. */
  lemma CandidatesDistinct(p: Position)
    requires WellFormed(p)
    ensures DistinctIDs(Candidates(p))
  {
    var cs := Candidates(p);
    CandidatesApart(p);
    CandidatesFit(p);
    forall i, j | 0 <= i < j < |cs|
      ensures !SameMove(cs[i], cs[j])
    {
      assert cs[i] in cs && cs[j] in cs;
      MoveIDInjective(cs[i], cs[j]);
    }
  }

  /** In a well-formed position `getValidMoves` returns exactly the candidates that leave
      the mover's king unattacked, in order, and so every such candidate. */
  lemma ValidMovesComplete(p: Position)
    requires WellFormed(p)
    ensures ValidMoves(p) == Filter(p, Candidates(p))
    ensures forall m | m in Candidates(p) && SafeMove(p, m) :: m in ValidMoves(p)
  {
    CandidatesDistinct(p);
    ValidMovesOfDistinct(p);
  }
}
