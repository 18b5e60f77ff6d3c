/** The mutable `GameState` of Chess/ChessEngine.py: its fields, and its methods written
    step by step as the source writes them, each proved against the pure definitions of
    modules Rules, Generation and Legality. */
module ChessEngine {
  import opened Basics
  import opened Moves
  import opened Rules
  import opened Generation
  import opened Legality
  import opened Invariant
  import opened Play

  /** The characters of the first c cells of one row, left to right. */
  function RowText(row: seq<Square>, c: nat): (s: string)
    requires c <= |row|
    ensures |s| == 2 * c
  {
    if c == 0 then [] else RowText(row, c - 1) + Code(row[c - 1])
  }

  /** The characters of the first r rows of the grid, top to bottom. */
  function RowsText(b: Board, r: nat): (s: string)
    requires r <= 8
    ensures |s| == 16 * r
  {
    if r == 0 then [] else RowsText(b, r - 1) + RowText(b[r - 1], 8)
  }

  /** The key `boardString` builds: every cell's two characters, row by row, then the
      letter of the side to move. */
  function BoardText(b: Board, whiteToMove: bool): string
  {
    RowsText(b, 8) + [if whiteToMove then 'w' else 'b']
  }

  /** Cell j of a row sits at characters 2j and 2j + 1 of its text. */
  lemma {:induction false} RowTextAt(row: seq<Square>, c: nat, j: nat)
    requires j < c <= |row|
    ensures RowText(row, c)[2 * j] == Code(row[j])[0] && RowText(row, c)[2 * j + 1] == Code(row[j])[1]
    decreases c
  {
    if j < c - 1 {
      RowTextAt(row, c - 1, j);
    }
  }

  /** Character k of row i is character 16i + k of the text of the rows. */
  lemma {:induction false} RowsTextAt(b: Board, r: nat, i: nat, k: nat)
    requires i < r <= 8 && k < 16
    ensures RowsText(b, r)[16 * i + k] == RowText(b[i], 8)[k]
    decreases r
  {
    if i < r - 1 {
      RowsTextAt(b, r - 1, i, k);
    }
  }

  /** The text is 129 characters long: cell (i, j) is spelt by characters 16i + 2j and
      16i + 2j + 1, and the last one names the side to move. */
  lemma BoardTextLayout(b: Board, whiteToMove: bool)
    ensures var s := BoardText(b, whiteToMove);
      |s| == 129 && s[128] == (if whiteToMove then 'w' else 'b') &&
      forall i, j | 0 <= i < 8 && 0 <= j < 8 ::
        s[16 * i + 2 * j] == Code(b[i][j])[0] && s[16 * i + 2 * j + 1] == Code(b[i][j])[1]
  {
    var s := BoardText(b, whiteToMove);
    forall i, j | 0 <= i < 8 && 0 <= j < 8
      ensures s[16 * i + 2 * j] == Code(b[i][j])[0] && s[16 * i + 2 * j + 1] == Code(b[i][j])[1]
    {
      RowTextAt(b[i], 8, j);
      RowsTextAt(b, 8, i, 2 * j);
      RowsTextAt(b, 8, i, 2 * j + 1);
    }
  }

  /** The text identifies the grid and the side to move: equal texts come only from
      equal grids with the same side to move. */
  lemma BoardTextInjective(b: Board, w: bool, b': Board, w': bool)
    requires BoardText(b, w) == BoardText(b', w')
    ensures b == b' && w == w'
  {
    BoardTextLayout(b, w);
    BoardTextLayout(b', w');
    forall i, j | 0 <= i < 8 && 0 <= j < 8
      ensures b[i][j] == b'[i][j]
    {
      assert Code(b[i][j]) == Code(b'[i][j]);
      CodeInjective(b[i][j], b'[i][j]);
    }
    BoardExt(b, b');
  }

  class GameState {
    var board: Board
    var whiteToMove: bool
    var moveLog: seq<Move>
    var whiteKingLocation: Coord
    var blackKingLocation: Coord
    var checkmate: bool
    var stalemate: bool
    /** The misspelt attribute `undoMove` writes; it is never read. */
    var stalemage: bool
    var enpassantPossible: Option<Coord>
    var enpassantPossibleLog: seq<Option<Coord>>
    var currentCastleRights: CastleRights
    var castleRightsLog: seq<CastleRights>

    /** The position the fields hold, apart from the three flags. */
    function Pos(): Position
      reads this`board, this`whiteToMove, this`whiteKingLocation, this`blackKingLocation,
        this`enpassantPossible, this`currentCastleRights, this`moveLog, this`enpassantPossibleLog, this`castleRightsLog
    {
      Position(board, whiteToMove, whiteKingLocation, blackKingLocation, enpassantPossible,
               currentCastleRights, moveLog, enpassantPossibleLog, castleRightsLog)
    }

    /** `__init__`: the standard set-up with white to move, a position that satisfies
        the invariant by `Invariant.InitialValid`. */
    constructor()
      ensures Pos() == InitialPosition()
      ensures !checkmate && !stalemate && !stalemage
    {
      board := InitialBoard();
      whiteToMove := true;
      moveLog := [];
      whiteKingLocation := Coord(7, 4);
      blackKingLocation := Coord(0, 4);
      checkmate := false;
      stalemate := false;
      stalemage := false;
      enpassantPossible := None;
      enpassantPossibleLog := [None];
      currentCastleRights := CastleRights(true, true, true, true);
      castleRightsLog := [currentCastleRights];
    }

    /** `boardString`. */
    method BoardString() returns (s: string)
      ensures s == BoardText(board, whiteToMove)
    {
      var b := board;
      s := [];
      var r := 0;
      while r < 8
        invariant 0 <= r <= 8 && s == RowsText(b, r)
      {
        var c := 0;
        while c < 8
          invariant 0 <= c <= 8 && s == RowsText(b, r) + RowText(b[r], c)
        {
          assert RowText(b[r], c + 1) == RowText(b[r], c) + Code(b[r][c]);
          s := s + Code(b[r][c]);
          c := c + 1;
        }
        r := r + 1;
      }
      s := s + [if whiteToMove then 'w' else 'b'];
    }

    /** `makeMove`; the three flags are left alone. */
    method MakeMove(move: Move)
      requires Applicable(move)
      modifies this`board, this`whiteToMove, this`whiteKingLocation, this`blackKingLocation,
        this`enpassantPossible, this`currentCastleRights, this`moveLog, this`enpassantPossibleLog, this`castleRightsLog
      ensures Pos() == MakeMovePos(old(Pos()), move)
      ensures checkmate == old(checkmate) && stalemate == old(stalemate) && stalemage == old(stalemage)
    {
      var q := ApplyMove(Pos(), move);
      board, whiteToMove, whiteKingLocation, blackKingLocation, enpassantPossible,
        currentCastleRights, moveLog, enpassantPossibleLog, castleRightsLog :=
        q.board, q.whiteToMove, q.whiteKingLocation, q.blackKingLocation, q.enpassantPossible,
        q.currentCastleRights, q.moveLog, q.enpassantPossibleLog, q.castleRightsLog;
    }

    /** `updateCastleRights`: only the current rights change. */
    method UpdateCastleRights(move: Move)
      modifies this`currentCastleRights
      ensures currentCastleRights == Rules.UpdateCastleRights(old(currentCastleRights), move)
    {
      currentCastleRights := UpdatedRights(currentCastleRights, move);
    }

    /** `undoMove`: nothing on an empty log; otherwise the last move is taken back, and
        `checkmate` and the misspelt `stalemage` are cleared; `stalemate` is left alone. */
    method UndoMove()
      requires LogsAligned(Pos())
      modifies this`board, this`whiteToMove, this`whiteKingLocation, this`blackKingLocation,
        this`enpassantPossible, this`currentCastleRights, this`moveLog, this`enpassantPossibleLog, this`castleRightsLog,
        this`checkmate, this`stalemage
      ensures Pos() == UndoPos(old(Pos())) && stalemate == old(stalemate)
      ensures old(moveLog) == [] ==> checkmate == old(checkmate) && stalemage == old(stalemage)
      ensures old(moveLog) != [] ==> !checkmate && !stalemage
    {
      if |moveLog| != 0 {
        var q := TakeBack(Pos());
        board, whiteToMove, whiteKingLocation, blackKingLocation, enpassantPossible,
          currentCastleRights, moveLog, enpassantPossibleLog, castleRightsLog :=
          q.board, q.whiteToMove, q.whiteKingLocation, q.blackKingLocation, q.enpassantPossible,
          q.currentCastleRights, q.moveLog, q.enpassantPossibleLog, q.castleRightsLog;
        checkmate, stalemage := false, false;
      } else {
        assert UndoPos(Pos()) == Pos();
      }
    }

    /** `getPawnMoves`: the advances, then the capture to the left, then to the right (the
        source writes this once per colour, with the row step, the home row and the enemy
        letter filled in). */
    method GetPawnMoves(r: int, c: int, moves: seq<Move>) returns (ms: seq<Move>)
      requires InBounds(r, c) && InBounds(r + Forward(whiteToMove), c)
      ensures ms == moves + PawnMoves(board, whiteToMove, enpassantPossible, r, c)
    {
      ms := PawnPushSteps(r, c, moves);
      if c - 1 >= 0 {
        ms := PawnCaptureStep(r, c, c - 1, ms);
      }
      if c + 1 <= 7 {
        ms := PawnCaptureStep(r, c, c + 1, ms);
      }
      PawnMovesParts(board, whiteToMove, enpassantPossible, r, c, moves);
    }

    /** The advances of `getPawnMoves`: onto the empty cell in front and, from the home
        row, onto the empty cell beyond it. */
    method PawnPushSteps(r: int, c: int, moves: seq<Move>) returns (ms: seq<Move>)
      requires InBounds(r, c) && InBounds(r + Forward(whiteToMove), c)
      ensures ms == moves + PawnPushes(board, whiteToMove, r, c)
    {
      var d := Forward(whiteToMove);
      ms := moves;
      if board[r + d][c] == Empty {
        ms := ms + [NewMove(Coord(r, c), Coord(r + d, c), board, false, false)];
        if r == PawnHome(whiteToMove) && board[r + 2 * d][c] == Empty {
          ms := ms + [NewMove(Coord(r, c), Coord(r + 2 * d, c), board, false, false)];
        }
      }
    }

    /** One diagonal capture of `getPawnMoves`, towards column x. */
    method PawnCaptureStep(r: int, c: int, x: int, moves: seq<Move>) returns (ms: seq<Move>)
      requires InBounds(r, c) && InBounds(r + Forward(whiteToMove), x)
      ensures ms == moves + PawnCapture(board, whiteToMove, enpassantPossible, r, c, x)
    {
      var f := r + Forward(whiteToMove);
      ms := moves;
      if IsColor(board[f][x], Opponent(SideColor(whiteToMove))) {
        ms := ms + [NewMove(Coord(r, c), Coord(f, x), board, false, false)];
      } else if enpassantPossible == Some(Coord(f, x)) {
        ms := ms + [NewMove(Coord(r, c), Coord(f, x), board, true, false)];
      }
    }

    /** One ray of a sliding piece, as each `while` loop of `getRookMoves` and the inner
        loop of `getBishopMoves` walk it: an empty cell is added and the walk goes on, an
        enemy piece is added and the walk stops, an own piece or the edge stops it. */
    method RayLoop(r: int, c: int, dr: int, dc: int, moves: seq<Move>) returns (ms: seq<Move>)
      requires InBounds(r, c) && UnitStep(dr, dc)
      ensures ms == moves + Ray(board, whiteToMove, r, c, dr, dc)
    {
      var side := SideColor(whiteToMove);
      ms := moves;
      var i, x := r + dr, c + dc;
      while InBounds(i, x)
        invariant ms + RayFrom(board, whiteToMove, r, c, dr, dc, i, x) == moves + Ray(board, whiteToMove, r, c, dr, dc)
        decreases RayRoom(dr, dc, i, x)
      {
        var m := NewMove(Coord(r, c), Coord(i, x), board, false, false);
        if board[i][x] == Empty {
          AppendAssoc(ms, [m], RayFrom(board, whiteToMove, r, c, dr, dc, i + dr, x + dc));
          ms := ms + [m];
        } else if IsColor(board[i][x], Opponent(side)) {
          ms := ms + [m];
          break;
        } else {
          break;
        }
        i, x := i + dr, x + dc;
      }
    }

    /** `getRookMoves`: four rays, down the board, up the board, right, left (the source
        writes the same four loops once for each colour, differing only in the letter of
        the enemy colour). */
    method GetRookMoves(r: int, c: int, moves: seq<Move>) returns (ms: seq<Move>)
      requires InBounds(r, c)
      ensures ms == moves + RookMoves(board, whiteToMove, r, c)
    {
      ms := RayLoop(r, c, 1, 0, moves);
      ms := RayLoop(r, c, -1, 0, ms);
      ms := RayLoop(r, c, 0, 1, ms);
      ms := RayLoop(r, c, 0, -1, ms);
      var down, up := Ray(board, whiteToMove, r, c, 1, 0), Ray(board, whiteToMove, r, c, -1, 0);
      var right, left := Ray(board, whiteToMove, r, c, 0, 1), Ray(board, whiteToMove, r, c, 0, -1);
      AppendAssoc(moves, down, up);
      AppendAssoc(moves, down + up, right);
      AppendAssoc(moves, down + up + right, left);
    }

    /** `getBishopMoves`: one ray per entry of the direction list. */
    method GetBishopMoves(r: int, c: int, moves: seq<Move>) returns (ms: seq<Move>)
      requires InBounds(r, c)
      ensures ms == moves + BishopMoves(board, whiteToMove, r, c)
    {
      var directions := BISHOP_DIRECTIONS;
      BishopDirectionsUnit();
      ms := moves;
      for k := 0 to |directions|
        invariant ms == moves + Rays(board, whiteToMove, r, c, directions[..k])
      {
        var (dr, dc) := directions[k];
        assert directions[..k + 1][..k] == directions[..k];
        AppendAssoc(moves, Rays(board, whiteToMove, r, c, directions[..k]), Ray(board, whiteToMove, r, c, dr, dc));
        ms := RayLoop(r, c, dr, dc, ms);
      }
      assert directions[..|directions|] == directions;
    }

    /** `getQueenMoves`: the bishop's moves, then the rook's. */
    method GetQueenMoves(r: int, c: int, moves: seq<Move>) returns (ms: seq<Move>)
      requires InBounds(r, c)
      ensures ms == moves + QueenMoves(board, whiteToMove, r, c)
    {
      ms := GetBishopMoves(r, c, moves);
      ms := GetRookMoves(r, c, ms);
      AppendAssoc(moves, BishopMoves(board, whiteToMove, r, c), RookMoves(board, whiteToMove, r, c));
    }

    /** The loop of `getKnightMoves` and `getKingMoves` over their offset lists: a target
        on the grid that is empty or holds a piece not of the ally colour is added. */
    method JumpLoop(r: int, c: int, offsets: seq<(int, int)>, moves: seq<Move>) returns (ms: seq<Move>)
      requires InBounds(r, c)
      ensures ms == moves + Jumps(board, whiteToMove, r, c, offsets)
    {
      var ally := SideColor(whiteToMove);
      ms := moves;
      for k := 0 to |offsets|
        invariant ms == moves + Jumps(board, whiteToMove, r, c, offsets[..k])
      {
        var newR, newC := r + offsets[k].0, c + offsets[k].1;
        JumpsSnoc(board, whiteToMove, r, c, offsets, k, moves);
        if 0 <= newR <= 7 && 0 <= newC <= 7 {
          var piece := board[newR][newC];
          if piece == Empty || piece.color != ally {
            ms := ms + [NewMove(Coord(r, c), Coord(newR, newC), board, false, false)];
          }
        }
      }
      assert offsets[..|offsets|] == offsets;
    }

    /** `getKnightMoves`. */
    method GetKnightMoves(r: int, c: int, moves: seq<Move>) returns (ms: seq<Move>)
      requires InBounds(r, c)
      ensures ms == moves + Jumps(board, whiteToMove, r, c, KNIGHT_OFFSETS)
    {
      ms := JumpLoop(r, c, KNIGHT_OFFSETS, moves);
    }

    /** `getKingMoves`. */
    method GetKingMoves(r: int, c: int, moves: seq<Move>) returns (ms: seq<Move>)
      requires InBounds(r, c)
      ensures ms == moves + Jumps(board, whiteToMove, r, c, KING_OFFSETS)
    {
      ms := JumpLoop(r, c, KING_OFFSETS, moves);
    }

    /** The `moveFunctions` table: the generator for the kind of the piece on (r, c). */
    method GetPieceMoves(r: int, c: int, moves: seq<Move>) returns (ms: seq<Move>)
      requires InBounds(r, c) && PawnsOffLastRanks(board) && IsColor(board[r][c], SideColor(whiteToMove))
      ensures ms == moves + PieceMoves(board, whiteToMove, enpassantPossible, r, c)
    {
      match board[r][c].kind
      case Pawn => ms := GetPawnMoves(r, c, moves);
      case Rook => ms := GetRookMoves(r, c, moves);
      case Bishop => ms := GetBishopMoves(r, c, moves);
      case Queen => ms := GetQueenMoves(r, c, moves);
      case Knight => ms := GetKnightMoves(r, c, moves);
      case King => ms := GetKingMoves(r, c, moves);
    }

    /** `getAllMoves`: every row top to bottom, and in each the columns left to right; a
        piece of the side to move has the generator of its kind called. */
    method GetAllMoves() returns (moves: seq<Move>)
      requires PawnsOffLastRanks(board)
      ensures moves == AllMoves(board, whiteToMove, enpassantPossible)
    {
      moves := [];
      for r := 0 to 8
        invariant moves == RowsMoves(board, whiteToMove, enpassantPossible, r)
      {
        ghost var above := moves;
        for c := 0 to 8
          invariant moves == above + RowMoves(board, whiteToMove, enpassantPossible, r, c)
        {
          CellStep(board, whiteToMove, enpassantPossible, r, c, above);
          if IsColor(board[r][c], SideColor(whiteToMove)) {
            moves := GetPieceMoves(r, c, moves);
          }
        }
      }
    }

    /** `squareUnderAttack`: hands the turn to the other side to list its moves, hands it
        back, and answers true at the first of them that ends on (r, c). */
    method SquareUnderAttack(r: int, c: int) returns (attacked: bool)
      requires PawnsOffLastRanks(board)
      modifies this`whiteToMove
      ensures Pos() == old(Pos())
      ensures attacked == SquareAttacked(board, whiteToMove, enpassantPossible, r, c)
    {
      whiteToMove := !whiteToMove;
      var oppMoves := GetAllMoves();
      whiteToMove := !whiteToMove;
      assert oppMoves == AllMoves(board, !whiteToMove, enpassantPossible);
      for k := 0 to |oppMoves|
        invariant forall j | 0 <= j < k :: !(oppMoves[j].endRow == r && oppMoves[j].endCol == c)
      {
        if oppMoves[k].endRow == r && oppMoves[k].endCol == c {
          assert oppMoves[k] in oppMoves;
          return true;
        }
      }
      return false;
    }

    /** `inCheck`: the cached square of the mover's king is attacked. */
    method InCheck() returns (check: bool)
      requires PawnsOffLastRanks(board)
      modifies this`whiteToMove
      ensures Pos() == old(Pos())
      ensures check == KingInCheck(Pos())
    {
      if whiteToMove {
        check := SquareUnderAttack(whiteKingLocation.row, whiteKingLocation.col);
      } else {
        check := SquareUnderAttack(blackKingLocation.row, blackKingLocation.col);
      }
    }

    /** `getKingsideCastleMoves`: the castle is added when both cells right of the king
        are empty and neither is attacked. */
    method GetKingsideCastleMoves(r: int, c: int, moves: seq<Move>) returns (ms: seq<Move>)
      requires PawnsOffLastRanks(board) && InBounds(r, c) && c + 2 <= 7
      modifies this`whiteToMove
      ensures Pos() == old(Pos())
      ensures ms == moves + KingsideCastleMoves(Pos(), r, c)
    {
      ms := moves;
      if board[r][c + 1] == Empty && board[r][c + 2] == Empty {
        var first := SquareUnderAttack(r, c + 1);
        if !first {
          var second := SquareUnderAttack(r, c + 2);
          if !second {
            ms := ms + [NewMove(Coord(r, c), Coord(r, c + 2), board, false, true)];
          }
        }
      }
    }

    /** `getQueensideCastleMoves`: the castle is added when the three cells left of the
        king are empty and the two next to it are not attacked. */
    method GetQueensideCastleMoves(r: int, c: int, moves: seq<Move>) returns (ms: seq<Move>)
      requires PawnsOffLastRanks(board) && InBounds(r, c) && c - 3 >= 0
      modifies this`whiteToMove
      ensures Pos() == old(Pos())
      ensures ms == moves + QueensideCastleMoves(Pos(), r, c)
    {
      ms := moves;
      if board[r][c - 1] == Empty && board[r][c - 2] == Empty && board[r][c - 3] == Empty {
        var first := SquareUnderAttack(r, c - 1);
        if !first {
          var second := SquareUnderAttack(r, c - 2);
          if !second {
            ms := ms + [NewMove(Coord(r, c), Coord(r, c - 2), board, false, true)];
          }
        }
      }
    }

    /** `getCastleMoves`: nothing while the king's square is attacked; otherwise the
        kingside castle if that right is held, then the queenside one. */
    method GetCastleMoves(r: int, c: int, moves: seq<Move>) returns (ms: seq<Move>)
      requires PawnsOffLastRanks(board) && InBounds(r, c)
      requires KingsideRight(Pos()) ==> c + 2 <= 7
      requires QueensideRight(Pos()) ==> c - 3 >= 0
      modifies this`whiteToMove
      ensures Pos() == old(Pos())
      ensures ms == moves + CastleMoves(Pos(), r, c)
    {
      ghost var p := Pos();
      var attacked := SquareUnderAttack(r, c);
      if attacked {
        return moves;
      }
      ms := moves;
      if (whiteToMove && currentCastleRights.wks) || (!whiteToMove && currentCastleRights.bks) {
        ms := GetKingsideCastleMoves(r, c, ms);
      }
      ghost var kingside := if KingsideRight(p) then KingsideCastleMoves(p, r, c) else [];
      if (whiteToMove && currentCastleRights.wqs) || (!whiteToMove && currentCastleRights.bqs) {
        ms := GetQueensideCastleMoves(r, c, ms);
      }
      AppendAssoc(moves, kingside, if QueensideRight(p) then QueensideCastleMoves(p, r, c) else []);
    }

    /** The body of the pruning loop of `getValidMoves` for one candidate: play it, hand
        the turn back to the mover, ask whether the mover is in check, hand the turn on
        again and take the move back. The position is as before; `undoMove` has cleared
        `checkmate` and `stalemage`. */
    method TryMove(ghost ms: seq<Move>, move: Move) returns (check: bool)
      requires LogsAligned(Pos()) && LogTopsCurrent(Pos())
      requires Tryable(Pos(), ms) && move in ms
      modifies this`board, this`whiteToMove, this`whiteKingLocation, this`blackKingLocation,
        this`enpassantPossible, this`currentCastleRights, this`moveLog, this`enpassantPossibleLog, this`castleRightsLog,
        this`checkmate, this`stalemage
      ensures Pos() == old(Pos())
      ensures check == !SafeMove(Pos(), move)
      ensures !checkmate && !stalemage
    {
      ghost var p := Pos();
      MakeMove(move);
      whiteToMove := !whiteToMove;
      check := InCheck();
      whiteToMove := !whiteToMove;
      MakeUndoRoundTrip(p, move);
      UndoMove();
      assert check == !SafeMove(p, move);
    }

    /** The first part of `getValidMoves`: `getAllMoves`, then `getCastleMoves` for the
        cached square of the mover's king. */
    method GetCandidates() returns (moves: seq<Move>)
      requires Ready(Pos())
      modifies this`whiteToMove
      ensures Pos() == old(Pos())
      ensures moves == Candidates(Pos())
    {
      moves := GetAllMoves();
      if whiteToMove {
        moves := GetCastleMoves(whiteKingLocation.row, whiteKingLocation.col, moves);
      } else {
        moves := GetCastleMoves(blackKingLocation.row, blackKingLocation.col, moves);
      }
    }

    /** The pruning loop of `getValidMoves` over its candidates, from the last to the
        first: a candidate after which the mover is in check is removed with
        `list.remove`. */
    method PruneCandidates(cands: seq<Move>) returns (moves: seq<Move>)
      requires LogsAligned(Pos()) && LogTopsCurrent(Pos())
      requires Tryable(Pos(), cands)
      modifies this`board, this`whiteToMove, this`whiteKingLocation, this`blackKingLocation,
        this`enpassantPossible, this`currentCastleRights, this`moveLog, this`enpassantPossibleLog, this`castleRightsLog,
        this`checkmate, this`stalemage
      ensures Pos() == old(Pos())
      ensures moves == Prune(Pos(), cands, |cands|)
      ensures |cands| == 0 ==> checkmate == old(checkmate) && stalemage == old(stalemage)
      ensures |cands| != 0 ==> !checkmate && !stalemage
    {
      ghost var p := Pos();
      moves := cands;
      var i := |moves|;
      while i > 0
        invariant Pos() == p && 0 <= i <= |moves|
        invariant forall m | m in moves :: m in cands
        invariant Prune(p, moves, i) == Prune(p, cands, |cands|)
        invariant i == |cands| ==> checkmate == old(checkmate) && stalemage == old(stalemage)
        invariant i < |cands| ==> !checkmate && !stalemage
      {
        ghost var i0 := i;
        i := i - 1;
        var move := moves[i];
        assert move in cands;
        var check := TryMove(cands, move);
        PruneStep(p, moves, i, i0, check);
        if check {
          moves := RemoveFirst(moves, move);
        }
      }
    }

    /** The candidates of `getValidMoves` after its pruning loop; the position is as before. */
    method PrunedCandidates() returns (moves: seq<Move>)
      requires WellFormed(Pos())
      modifies this`board, this`whiteToMove, this`whiteKingLocation, this`blackKingLocation,
        this`enpassantPossible, this`currentCastleRights, this`moveLog, this`enpassantPossibleLog, this`castleRightsLog,
        this`checkmate, this`stalemage
      ensures Pos() == old(Pos())
      ensures moves == ValidMoves(old(Pos()))
      ensures |moves| != 0 ==> !checkmate
      ensures checkmate == (old(checkmate) && |Candidates(old(Pos()))| == 0)
      ensures stalemage == (old(stalemage) && |Candidates(old(Pos()))| == 0)
    {
      moves := GetCandidates();
      ghost var p := Pos();
      CandidatesTryable(p);
      moves := PruneCandidates(moves);
    }

    /** `getValidMoves`: the pruned candidates, then the end-of-game flags, and the saved
        en passant target and castling rights written back. The position is as before.
        `checkmate` ends up true exactly when no move is left, since the source tests
        the method object `self.inCheck`, which is always true, instead of calling it;
        `stalemate` is then cleared and is otherwise left alone; `stalemage` is cleared as
        soon as one candidate was tried. */
    method GetValidMoves() returns (moves: seq<Move>)
      requires WellFormed(Pos())
      modifies this`board, this`whiteToMove, this`whiteKingLocation, this`blackKingLocation,
        this`enpassantPossible, this`currentCastleRights, this`moveLog, this`enpassantPossibleLog, this`castleRightsLog,
        this`checkmate, this`stalemate, this`stalemage
      ensures Pos() == old(Pos())
      ensures moves == ValidMoves(old(Pos()))
      ensures checkmate == (|moves| == 0)
      ensures stalemate == (old(stalemate) && |moves| != 0)
      ensures stalemage == (old(stalemage) && |Candidates(old(Pos()))| == 0)
    {
      var tempEnpassantPossible, tempCastleRights := enpassantPossible, currentCastleRights;
      moves := PrunedCandidates();
      checkmate, stalemate, enpassantPossible, currentCastleRights :=
        |moves| == 0 || checkmate, |moves| != 0 && stalemate, tempEnpassantPossible, tempCastleRights;
    }
  }
}
