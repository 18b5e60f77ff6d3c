/** The pseudo-legal move generators of `GameState` (`getPawnMoves`, `getRookMoves`,
    `getBishopMoves`, `getQueenMoves`, `getKnightMoves`, `getKingMoves`, `getAllMoves`)
    as functions of the grid, the side to move and the en passant target. Each list is
    in the order the source appends to it. The methods of the class in chess_engine.dfy
    run the source's loops and are proved to produce these lists. */
module Generation {
  import opened Basics
  import opened Moves

  /** The row step of a pawn of the side to move. */
  function Forward(whiteToMove: bool): int
  {
    if whiteToMove then -1 else 1
  }

  /** The row a pawn may advance two squares from. */
  function PawnHome(whiteToMove: bool): int
  {
    if whiteToMove then 6 else 1
  }

  /** What every generator promises of a move built for the piece on (r, c): it is the
      move `Move.__init__` builds from this grid, it starts on (r, c), it is no castle, and
      unless it is an en passant capture it does not land on a piece of the mover's colour. */
  predicate FromSquare(b: Board, whiteToMove: bool, r: int, c: int, m: Move)
  {
    BuiltFrom(b, m) && m.startRow == r && m.startCol == c && !m.isCastleMove &&
    (!m.isEnpassantMove ==> !IsColor(b[m.endRow][m.endCol], SideColor(whiteToMove)))
  }

  /** A cell a sliding piece cannot enter: off the grid or holding a piece of its own colour. */
  predicate Blocked(b: Board, whiteToMove: bool, i: int, x: int)
  {
    !InBounds(i, x) || IsColor(b[i][x], SideColor(whiteToMove))
  }

  predicate UnitStep(dr: int, dc: int)
  {
    -1 <= dr <= 1 && -1 <= dc <= 1 && (dr != 0 || dc != 0)
  }

  /** k steps of size d (d is -1, 0 or 1). */
  function Steps(k: int, d: int): int
  {
    if d > 0 then k else if d < 0 then -k else 0
  }

  /** How many cells the grid leaves a walk from (i, x) in direction (dr, dc): what makes
      a ray finite. */
  function RayRoom(dr: int, dc: int, i: int, x: int): int
  {
    if dr > 0 then 8 - i else if dr < 0 then i + 1 else if dc > 0 then 8 - x else x + 1
  }

  /** The cells one ray of a rook, bishop or queen reaches, walking from (i, x) in
      direction (dr, dc): empty cells are taken and the walk goes on; an enemy piece is
      taken and the walk stops; the edge or an own piece stops it. The k-th cell lies k
      steps beyond (i, x), every cell but the last is empty, and the walk stops at the
      first cell it cannot pass. */
  function RayCells(b: Board, whiteToMove: bool, dr: int, dc: int, i: int, x: int): (cs: seq<Coord>)
    requires UnitStep(dr, dc)
    ensures forall k | 0 <= k < |cs| ::
      InBounds(cs[k].row, cs[k].col) && !IsColor(b[cs[k].row][cs[k].col], SideColor(whiteToMove))
    ensures forall k | 0 <= k < |cs| - 1 :: InBounds(cs[k].row, cs[k].col) && b[cs[k].row][cs[k].col] == Empty
    ensures |cs| == 0 ==> Blocked(b, whiteToMove, i, x)
    decreases RayRoom(dr, dc, i, x)
  {
    if !InBounds(i, x) then []
    else if b[i][x] == Empty then [Coord(i, x)] + RayCells(b, whiteToMove, dr, dc, i + dr, x + dc)
    else if IsColor(b[i][x], Opponent(SideColor(whiteToMove))) then [Coord(i, x)]
    else []
  }

  /** A cell where a ray in direction (dr, dc) ends: it holds an enemy piece, or it is
      empty and the next cell is off the grid or holds an own piece. */
  predicate StopsAt(b: Board, whiteToMove: bool, dr: int, dc: int, e: Coord)
  {
    InBounds(e.row, e.col) &&
    (IsColor(b[e.row][e.col], Opponent(SideColor(whiteToMove))) ||
     (b[e.row][e.col] == Empty && Blocked(b, whiteToMove, e.row + dr, e.col + dc)))
  }

  /** A step from a cell of the grid leaves the walk less room. */
  lemma RoomShrinks(dr: int, dc: int, i: int, x: int)
    requires UnitStep(dr, dc) && InBounds(i, x)
    ensures RayRoom(dr, dc, i + dr, x + dc) < RayRoom(dr, dc, i, x)
  {
  }

  /** A ray stops at the first cell it cannot pass. */
  lemma {:induction false} RayStops(b: Board, whiteToMove: bool, dr: int, dc: int, i: int, x: int)
    requires UnitStep(dr, dc)
    ensures var cs := RayCells(b, whiteToMove, dr, dc, i, x);
      |cs| > 0 ==> StopsAt(b, whiteToMove, dr, dc, cs[|cs| - 1])
    decreases RayRoom(dr, dc, i, x)
  {
    if InBounds(i, x) && b[i][x] == Empty {
      var rest := RayCells(b, whiteToMove, dr, dc, i + dr, x + dc);
      RoomShrinks(dr, dc, i, x);
      RayStops(b, whiteToMove, dr, dc, i + dr, x + dc);
      var cs := RayCells(b, whiteToMove, dr, dc, i, x);
      assert cs == [Coord(i, x)] + rest;
      if rest == [] {
        assert cs[|cs| - 1] == Coord(i, x);
      } else {
        assert cs[|cs| - 1] == rest[|rest| - 1];
      }
    }
  }

  /** The cells k steps beyond (i, x) in direction (dr, dc), for k below |cs|. */
  predicate OnLine(cs: seq<Coord>, i: int, x: int, dr: int, dc: int)
  {
    forall k | 0 <= k < |cs| :: cs[k] == Coord(i + Steps(k, dr), x + Steps(k, dc))
  }

  lemma ShiftLine(cs: seq<Coord>, i: int, x: int, dr: int, dc: int)
    requires OnLine(cs, i + dr, x + dc, dr, dc) && UnitStep(dr, dc)
    ensures OnLine([Coord(i, x)] + cs, i, x, dr, dc)
  {
    var ds := [Coord(i, x)] + cs;
    forall k | 1 <= k < |ds|
      ensures ds[k] == Coord(i + Steps(k, dr), x + Steps(k, dc))
    {
      assert ds[k] == cs[k - 1];
      assert Steps(k, dr) == dr + Steps(k - 1, dr);
      assert Steps(k, dc) == dc + Steps(k - 1, dc);
    }
  }

  /** The k-th cell of a ray lies k steps beyond its first cell, on one line. */
  lemma {:induction false} RayLine(b: Board, whiteToMove: bool, dr: int, dc: int, i: int, x: int)
    requires UnitStep(dr, dc)
    ensures OnLine(RayCells(b, whiteToMove, dr, dc, i, x), i, x, dr, dc)
    decreases RayRoom(dr, dc, i, x)
  {
    if InBounds(i, x) && b[i][x] == Empty {
      RayLine(b, whiteToMove, dr, dc, i + dr, x + dc);
      ShiftLine(RayCells(b, whiteToMove, dr, dc, i + dr, x + dc), i, x, dr, dc);
    }
  }

  /** The moves from (r, c) to the given cells, in their order. */
  function MovesTo(b: Board, r: int, c: int, cs: seq<Coord>): (ms: seq<Move>)
    requires InBounds(r, c) && forall k | 0 <= k < |cs| :: InBounds(cs[k].row, cs[k].col)
    ensures |ms| == |cs|
    ensures forall k | 0 <= k < |cs| :: ms[k] == NewMove(Coord(r, c), cs[k], b, false, false)
  {
    if cs == [] then [] else [NewMove(Coord(r, c), cs[0], b, false, false)] + MovesTo(b, r, c, cs[1..])
  }

  /** The moves from (r, c) along the ray from (i, x) onwards, as the source's loops
      append them: the move to an empty cell and the rest of the ray; the move to an enemy
      piece and nothing after it; nothing at an own piece or off the grid. */
  function RayFrom(b: Board, whiteToMove: bool, r: int, c: int, dr: int, dc: int, i: int, x: int): (ms: seq<Move>)
    requires InBounds(r, c) && UnitStep(dr, dc)
    ensures forall m {:trigger m in ms} | m in ms :: FromSquare(b, whiteToMove, r, c, m) && !m.isEnpassantMove
    decreases RayRoom(dr, dc, i, x)
  {
    if !InBounds(i, x) then []
    else if b[i][x] == Empty then
      [NewMove(Coord(r, c), Coord(i, x), b, false, false)] + RayFrom(b, whiteToMove, r, c, dr, dc, i + dr, x + dc)
    else if IsColor(b[i][x], Opponent(SideColor(whiteToMove))) then [NewMove(Coord(r, c), Coord(i, x), b, false, false)]
    else []
  }

  /** The moves along a ray are the moves to its cells, one per cell, in order. */
  lemma {:induction false} RayFromCells(b: Board, whiteToMove: bool, r: int, c: int, dr: int, dc: int, i: int, x: int)
    requires InBounds(r, c) && UnitStep(dr, dc)
    ensures RayFrom(b, whiteToMove, r, c, dr, dc, i, x) == MovesTo(b, r, c, RayCells(b, whiteToMove, dr, dc, i, x))
    decreases RayRoom(dr, dc, i, x)
  {
    if InBounds(i, x) && b[i][x] == Empty {
      RayFromCells(b, whiteToMove, r, c, dr, dc, i + dr, x + dc);
      var cs := [Coord(i, x)] + RayCells(b, whiteToMove, dr, dc, i + dr, x + dc);
      assert cs[0] == Coord(i, x) && cs[1..] == RayCells(b, whiteToMove, dr, dc, i + dr, x + dc);
    }
  }

  /** One ray as moves: the ray from the cell next to (r, c). */
  function Ray(b: Board, whiteToMove: bool, r: int, c: int, dr: int, dc: int): (ms: seq<Move>)
    requires InBounds(r, c) && UnitStep(dr, dc)
    ensures forall m {:trigger m in ms} | m in ms :: FromSquare(b, whiteToMove, r, c, m) && !m.isEnpassantMove
  {
    RayFrom(b, whiteToMove, r, c, dr, dc, r + dr, c + dc)
  }

  /** `getRookMoves`: down the board, up the board, right, left, in that order. */
  function RookMoves(b: Board, whiteToMove: bool, r: int, c: int): (ms: seq<Move>)
    requires InBounds(r, c)
    ensures forall m {:trigger m in ms} | m in ms :: FromSquare(b, whiteToMove, r, c, m) && !m.isEnpassantMove
  {
    Ray(b, whiteToMove, r, c, 1, 0) + Ray(b, whiteToMove, r, c, -1, 0) +
    Ray(b, whiteToMove, r, c, 0, 1) + Ray(b, whiteToMove, r, c, 0, -1)
  }

  /** The rays along the given directions, one after the other. */
  function Rays(b: Board, whiteToMove: bool, r: int, c: int, dirs: seq<(int, int)>): (ms: seq<Move>)
    requires InBounds(r, c) && forall k | 0 <= k < |dirs| :: UnitStep(dirs[k].0, dirs[k].1)
    ensures forall m {:trigger m in ms} | m in ms :: FromSquare(b, whiteToMove, r, c, m) && !m.isEnpassantMove
    decreases |dirs|
  {
    if dirs == [] then []
    else
      var n := |dirs| - 1;
      Rays(b, whiteToMove, r, c, dirs[..n]) + Ray(b, whiteToMove, r, c, dirs[n].0, dirs[n].1)
  }

  /** The diagonal directions of `getBishopMoves`, in its order. */
  const BISHOP_DIRECTIONS: seq<(int, int)> := [(-1, -1), (-1, 1), (1, -1), (1, 1)]

  lemma BishopDirectionsUnit()
    ensures forall k | 0 <= k < |BISHOP_DIRECTIONS| :: UnitStep(BISHOP_DIRECTIONS[k].0, BISHOP_DIRECTIONS[k].1)
  {
  }

  /** `getBishopMoves`: one ray per diagonal direction. */
  function BishopMoves(b: Board, whiteToMove: bool, r: int, c: int): (ms: seq<Move>)
    requires InBounds(r, c)
    ensures forall m {:trigger m in ms} | m in ms :: FromSquare(b, whiteToMove, r, c, m) && !m.isEnpassantMove
  {
    BishopDirectionsUnit();
    Rays(b, whiteToMove, r, c, BISHOP_DIRECTIONS)
  }

  /** `getQueenMoves`: the bishop's rays, then the rook's. */
  function QueenMoves(b: Board, whiteToMove: bool, r: int, c: int): (ms: seq<Move>)
    requires InBounds(r, c)
    ensures forall m {:trigger m in ms} | m in ms :: FromSquare(b, whiteToMove, r, c, m) && !m.isEnpassantMove
  {
    BishopMoves(b, whiteToMove, r, c) + RookMoves(b, whiteToMove, r, c)
  }

  const KNIGHT_OFFSETS: seq<(int, int)> := [(2, 1), (2, -1), (-2, 1), (-2, -1), (1, 2), (-1, 2), (1, -2), (-1, -2)]

  const KING_OFFSETS: seq<(int, int)> := [(-1, -1), (-1, 0), (-1, 1), (0, -1), (0, 1), (1, -1), (1, 0), (1, 1)]

  /** The target of one jump, kept when it is on the grid and not an own piece. */
  function Jump(b: Board, whiteToMove: bool, r: int, c: int, offset: (int, int)): seq<Move>
    requires InBounds(r, c)
  {
    var i, x := r + offset.0, c + offset.1;
    if InBounds(i, x) && !IsColor(b[i][x], SideColor(whiteToMove))
    then [NewMove(Coord(r, c), Coord(i, x), b, false, false)]
    else []
  }

  /** `getKnightMoves` and `getKingMoves`: one candidate per offset, in table order. */
  function Jumps(b: Board, whiteToMove: bool, r: int, c: int, offsets: seq<(int, int)>): (ms: seq<Move>)
    requires InBounds(r, c)
    ensures forall m {:trigger m in ms} | m in ms :: FromSquare(b, whiteToMove, r, c, m) && !m.isEnpassantMove
    decreases |offsets|
  {
    if offsets == [] then []
    else
      var n := |offsets| - 1;
      Jumps(b, whiteToMove, r, c, offsets[..n]) + Jump(b, whiteToMove, r, c, offsets[n])
  }

  /** Every listed jump lands on the target of one of the offsets. */
  lemma {:induction false} JumpsSound(b: Board, whiteToMove: bool, r: int, c: int, offsets: seq<(int, int)>)
    requires InBounds(r, c)
    ensures forall m | m in Jumps(b, whiteToMove, r, c, offsets) :: exists j | 0 <= j < |offsets| ::
      m.endRow == r + offsets[j].0 && m.endCol == c + offsets[j].1
    decreases |offsets|
  {
    if offsets != [] {
      var n := |offsets| - 1;
      JumpsSound(b, whiteToMove, r, c, offsets[..n]);
      forall m | m in Jumps(b, whiteToMove, r, c, offsets)
        ensures exists j | 0 <= j < |offsets| :: m.endRow == r + offsets[j].0 && m.endCol == c + offsets[j].1
      {
        if m in Jumps(b, whiteToMove, r, c, offsets[..n]) {
          var j :| 0 <= j < n && m.endRow == r + offsets[..n][j].0 && m.endCol == c + offsets[..n][j].1;
          assert offsets[..n][j] == offsets[j];
        } else {
          assert m.endRow == r + offsets[n].0 && m.endCol == c + offsets[n].1;
        }
      }
    }
  }

  /** A target is listed whenever it is on the grid and holds no piece of the mover's. */
  lemma {:induction false} JumpsComplete(b: Board, whiteToMove: bool, r: int, c: int, offsets: seq<(int, int)>)
    requires InBounds(r, c)
    ensures forall j | 0 <= j < |offsets| ::
      InBounds(r + offsets[j].0, c + offsets[j].1) &&
      !IsColor(b[r + offsets[j].0][c + offsets[j].1], SideColor(whiteToMove)) ==>
      NewMove(Coord(r, c), Coord(r + offsets[j].0, c + offsets[j].1), b, false, false) in Jumps(b, whiteToMove, r, c, offsets)
    decreases |offsets|
  {
    if offsets != [] {
      var n := |offsets| - 1;
      JumpsComplete(b, whiteToMove, r, c, offsets[..n]);
      var ms := Jumps(b, whiteToMove, r, c, offsets);
      assert ms == Jumps(b, whiteToMove, r, c, offsets[..n]) + Jump(b, whiteToMove, r, c, offsets[n]);
      forall j | 0 <= j < |offsets| && InBounds(r + offsets[j].0, c + offsets[j].1) &&
          !IsColor(b[r + offsets[j].0][c + offsets[j].1], SideColor(whiteToMove))
        ensures NewMove(Coord(r, c), Coord(r + offsets[j].0, c + offsets[j].1), b, false, false) in ms
      {
        if j < n {
          assert offsets[..n][j] == offsets[j];
        }
      }
    }
  }

  /** The advances of the pawn on (r, c): one cell onto an empty cell, then, from the
      home row, a second cell onto an empty cell. */
  function PawnPushes(b: Board, whiteToMove: bool, r: int, c: int): (ms: seq<Move>)
    requires InBounds(r, c) && InBounds(r + Forward(whiteToMove), c)
    ensures forall m {:trigger m in ms} | m in ms :: FromSquare(b, whiteToMove, r, c, m) && !m.isEnpassantMove && m.endCol == c
    ensures forall m {:trigger m in ms} | m in ms ::
      (m.endRow == r + Forward(whiteToMove) ||
       (m.endRow == r + 2 * Forward(whiteToMove) && r == PawnHome(whiteToMove) &&
        b[r + Forward(whiteToMove)][c] == Empty && b[m.endRow][c] == Empty))
    ensures forall m {:trigger m in ms} | m in ms :: b[r + Forward(whiteToMove)][c] == Empty
    ensures |ms| <= 2 && (|ms| > 0 <==> b[r + Forward(whiteToMove)][c] == Empty)
    ensures |ms| > 0 ==> ms[0].endRow == r + Forward(whiteToMove)
    ensures |ms| == 2 <==>
      b[r + Forward(whiteToMove)][c] == Empty && r == PawnHome(whiteToMove) &&
      b[r + 2 * Forward(whiteToMove)][c] == Empty
    ensures |ms| == 2 ==> ms[1].endRow == r + 2 * Forward(whiteToMove)
  {
    var f := r + Forward(whiteToMove);
    if b[f][c] != Empty then []
    else if r == PawnHome(whiteToMove) && b[f + Forward(whiteToMove)][c] == Empty then
      [NewMove(Coord(r, c), Coord(f, c), b, false, false), NewMove(Coord(r, c), Coord(f + Forward(whiteToMove), c), b, false, false)]
    else [NewMove(Coord(r, c), Coord(f, c), b, false, false)]
  }

  /** The diagonal capture of the pawn on (r, c) towards column x: onto an enemy piece,
      or else, as an en passant capture, onto the en passant target. */
  function PawnCapture(b: Board, whiteToMove: bool, ep: Option<Coord>, r: int, c: int, x: int): (ms: seq<Move>)
    requires InBounds(r, c) && InBounds(r + Forward(whiteToMove), x)
    ensures forall m {:trigger m in ms} | m in ms :: FromSquare(b, whiteToMove, r, c, m) && m.endRow == r + Forward(whiteToMove) && m.endCol == x
    ensures forall m {:trigger m in ms} | m in ms :: m.isEnpassantMove ==> ep == Some(Coord(m.endRow, m.endCol))
    ensures forall m {:trigger m in ms} | m in ms ::
      (m.isEnpassantMove <==> !IsColor(b[r + Forward(whiteToMove)][x], Opponent(SideColor(whiteToMove))))
    ensures |ms| <= 1 &&
      (|ms| == 1 <==> IsColor(b[r + Forward(whiteToMove)][x], Opponent(SideColor(whiteToMove))) ||
                      ep == Some(Coord(r + Forward(whiteToMove), x)))
  {
    var f := r + Forward(whiteToMove);
    if IsColor(b[f][x], Opponent(SideColor(whiteToMove))) then [NewMove(Coord(r, c), Coord(f, x), b, false, false)]
    else if ep == Some(Coord(f, x)) then [NewMove(Coord(r, c), Coord(f, x), b, true, false)]
    else []
  }

  /** `getPawnMoves`: the advances, then the capture to the left, then to the right. */
  function PawnMoves(b: Board, whiteToMove: bool, ep: Option<Coord>, r: int, c: int): (ms: seq<Move>)
    requires InBounds(r, c) && InBounds(r + Forward(whiteToMove), c)
  {
    var f := r + Forward(whiteToMove);
    PawnPushes(b, whiteToMove, r, c) +
    (if c - 1 >= 0 then PawnCapture(b, whiteToMove, ep, r, c, c - 1) else []) +
    (if c + 1 <= 7 then PawnCapture(b, whiteToMove, ep, r, c, c + 1) else [])
  }

  /** What `getAllMoves` promises of every move it lists: it is built from this grid, it
      starts on a piece of the side to move and ends on the grid, it never lands on a piece
      of the mover's colour, an en passant capture is a pawn's diagonal step onto the
      target, and a pawn moves two rows only from its home row over an empty cell onto an
      empty cell. */
  predicate Pseudo(b: Board, whiteToMove: bool, ep: Option<Coord>, m: Move)
  {
    var side := SideColor(whiteToMove);
    var d := Forward(whiteToMove);
    BuiltFrom(b, m) && !m.isCastleMove &&
    IsColor(b[m.startRow][m.startCol], side) &&
    (!m.isEnpassantMove ==> !IsColor(b[m.endRow][m.endCol], side)) &&
    (m.isEnpassantMove ==>
       m.pieceMoved.kind == Pawn && ep == Some(Coord(m.endRow, m.endCol)) && m.endRow == m.startRow + d &&
       (m.endCol == m.startCol - 1 || m.endCol == m.startCol + 1)) &&
    (m.pieceMoved.kind == Pawn ==>
       m.endRow == m.startRow + d ||
       (m.endRow == m.startRow + 2 * d && m.startRow == PawnHome(whiteToMove) && m.endCol == m.startCol &&
        b[m.startRow + d][m.startCol] == Empty && b[m.endRow][m.endCol] == Empty && !m.isEnpassantMove))
  }

  /** The generator `moveFunctions` picks for the piece on (r, c). */
  function PieceMoves(b: Board, whiteToMove: bool, ep: Option<Coord>, r: int, c: int): (ms: seq<Move>)
    requires InBounds(r, c) && PawnsOffLastRanks(b) && IsColor(b[r][c], SideColor(whiteToMove))
    ensures forall m {:trigger m in ms} | m in ms :: Pseudo(b, whiteToMove, ep, m) && m.startRow == r && m.startCol == c
  {
    match b[r][c].kind
    case Pawn =>
      var ms := PawnMoves(b, whiteToMove, ep, r, c);
      PawnMovesArePseudo(b, whiteToMove, ep, r, c, ms);
      ms
    case Rook => var ms := RookMoves(b, whiteToMove, r, c); NonPawnMovesArePseudo(b, whiteToMove, ep, r, c, ms); ms
    case Bishop => var ms := BishopMoves(b, whiteToMove, r, c); NonPawnMovesArePseudo(b, whiteToMove, ep, r, c, ms); ms
    case Queen => var ms := QueenMoves(b, whiteToMove, r, c); NonPawnMovesArePseudo(b, whiteToMove, ep, r, c, ms); ms
    case Knight =>
      var ms := Jumps(b, whiteToMove, r, c, KNIGHT_OFFSETS); NonPawnMovesArePseudo(b, whiteToMove, ep, r, c, ms); ms
    case King =>
      var ms := Jumps(b, whiteToMove, r, c, KING_OFFSETS); NonPawnMovesArePseudo(b, whiteToMove, ep, r, c, ms); ms
  }

  lemma NonPawnMovesArePseudo(b: Board, whiteToMove: bool, ep: Option<Coord>, r: int, c: int, ms: seq<Move>)
    requires InBounds(r, c) && IsColor(b[r][c], SideColor(whiteToMove)) && b[r][c].kind != Pawn
    requires forall m | m in ms :: FromSquare(b, whiteToMove, r, c, m) && !m.isEnpassantMove
    ensures forall m | m in ms :: Pseudo(b, whiteToMove, ep, m) && m.startRow == r && m.startCol == c
  {
  }

  lemma PawnMovesArePseudo(b: Board, whiteToMove: bool, ep: Option<Coord>, r: int, c: int, ms: seq<Move>)
    requires InBounds(r, c) && InBounds(r + Forward(whiteToMove), c)
    requires IsColor(b[r][c], SideColor(whiteToMove)) && b[r][c].kind == Pawn
    requires ms == PawnMoves(b, whiteToMove, ep, r, c)
    ensures forall m | m in ms :: Pseudo(b, whiteToMove, ep, m) && m.startRow == r && m.startCol == c
  {
  }

  /** The moves of the piece on (r, c), if it is the mover's. */
  function CellMoves(b: Board, whiteToMove: bool, ep: Option<Coord>, r: int, c: int): (ms: seq<Move>)
    requires InBounds(r, c) && PawnsOffLastRanks(b)
    ensures forall m {:trigger m in ms} | m in ms :: Pseudo(b, whiteToMove, ep, m) && m.startRow == r && m.startCol == c
  {
    if IsColor(b[r][c], SideColor(whiteToMove)) then PieceMoves(b, whiteToMove, ep, r, c) else []
  }

  /** The moves of the mover's pieces on the first n cells of row r, left to right. */
  function RowMoves(b: Board, whiteToMove: bool, ep: Option<Coord>, r: int, n: nat): (ms: seq<Move>)
    requires 0 <= r < 8 && n <= 8 && PawnsOffLastRanks(b)
    ensures forall m {:trigger m in ms} | m in ms :: Pseudo(b, whiteToMove, ep, m) && m.startRow == r && m.startCol < n
  {
    if n == 0 then [] else RowMoves(b, whiteToMove, ep, r, n - 1) + CellMoves(b, whiteToMove, ep, r, n - 1)
  }

  /** The moves of the mover's pieces on the first n rows, top to bottom. */
  function RowsMoves(b: Board, whiteToMove: bool, ep: Option<Coord>, n: nat): (ms: seq<Move>)
    requires n <= 8 && PawnsOffLastRanks(b)
    ensures forall m {:trigger m in ms} | m in ms :: Pseudo(b, whiteToMove, ep, m) && m.startRow < n
  {
    if n == 0 then [] else RowsMoves(b, whiteToMove, ep, n - 1) + RowMoves(b, whiteToMove, ep, n - 1, 8)
  }

  /** `getAllMoves`: every piece of the side to move, row by row, column by column. */
  function AllMoves(b: Board, whiteToMove: bool, ep: Option<Coord>): (ms: seq<Move>)
    requires PawnsOffLastRanks(b)
    ensures forall m {:trigger m in ms} | m in ms :: Pseudo(b, whiteToMove, ep, m)
  {
    RowsMoves(b, whiteToMove, ep, 8)
  }

  /** One more offset adds its target to the moves so far when that target is on the
      grid and is empty or holds a piece not of the ally colour. */
  lemma JumpsSnoc(b: Board, whiteToMove: bool, r: int, c: int, offsets: seq<(int, int)>, k: nat, moves: seq<Move>)
    requires InBounds(r, c) && k < |offsets|
    ensures var i, x := r + offsets[k].0, c + offsets[k].1;
      moves + Jumps(b, whiteToMove, r, c, offsets[..k + 1]) ==
      (moves + Jumps(b, whiteToMove, r, c, offsets[..k])) +
      (if 0 <= i <= 7 && 0 <= x <= 7 && (b[i][x] == Empty || b[i][x].color != SideColor(whiteToMove))
       then [NewMove(Coord(r, c), Coord(i, x), b, false, false)] else [])
  {
    assert offsets[..k + 1][..k] == offsets[..k];
    AppendAssoc(moves, Jumps(b, whiteToMove, r, c, offsets[..k]), Jump(b, whiteToMove, r, c, offsets[k]));
  }

  /** The pawn's moves appended to a list: the advances, then each capture in turn. */
  lemma PawnMovesParts(b: Board, whiteToMove: bool, ep: Option<Coord>, r: int, c: int, moves: seq<Move>)
    requires InBounds(r, c) && InBounds(r + Forward(whiteToMove), c)
    ensures moves + PawnMoves(b, whiteToMove, ep, r, c) ==
      ((moves + PawnPushes(b, whiteToMove, r, c)) +
       (if c - 1 >= 0 then PawnCapture(b, whiteToMove, ep, r, c, c - 1) else [])) +
      (if c + 1 <= 7 then PawnCapture(b, whiteToMove, ep, r, c, c + 1) else [])
  {
    var pushes := PawnPushes(b, whiteToMove, r, c);
    var left := if c - 1 >= 0 then PawnCapture(b, whiteToMove, ep, r, c, c - 1) else [];
    var right := if c + 1 <= 7 then PawnCapture(b, whiteToMove, ep, r, c, c + 1) else [];
    AppendAssoc(moves, pushes, left);
    AppendAssoc(moves, pushes + left, right);
  }

  /** One more cell of a row adds the moves of that cell. */
  lemma CellStep(b: Board, whiteToMove: bool, ep: Option<Coord>, r: int, c: int, front: seq<Move>)
    requires InBounds(r, c) && PawnsOffLastRanks(b)
    ensures front + RowMoves(b, whiteToMove, ep, r, c + 1) ==
      (front + RowMoves(b, whiteToMove, ep, r, c)) + CellMoves(b, whiteToMove, ep, r, c)
  {
    AppendAssoc(front, RowMoves(b, whiteToMove, ep, r, c), CellMoves(b, whiteToMove, ep, r, c));
  }
}
