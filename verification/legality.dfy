/** Legal move generation of Chess/ChessEngine.py as functions of a `Position`:
    `squareUnderAttack`, `inCheck`, `getCastleMoves` with its kingside and queenside
    parts, and the pruning loop of `getValidMoves`, which plays each candidate, asks
    whether the mover's king is then attacked, and removes the candidate if it is. */
module Legality {
  import opened Basics
  import opened Moves
  import opened Rules
  import opened Generation

  /** `squareUnderAttack`: some move the other side could make from this grid, with this
      en passant target, ends on (r, c). */
  predicate SquareAttacked(b: Board, whiteToMove: bool, ep: Option<Coord>, r: int, c: int)
    requires PawnsOffLastRanks(b)
  {
    EndsOn(AllMoves(b, !whiteToMove, ep), r, c)
  }

  /** Some move of `ms` ends on (r, c). */
  predicate EndsOn(ms: seq<Move>, r: int, c: int)
  {
    exists m {:trigger m in ms} | m in ms :: m.endRow == r && m.endCol == c
  }

  /** The cached square of the king of the side to move. */
  function KingLocation(p: Position): Coord
  {
    if p.whiteToMove then p.whiteKingLocation else p.blackKingLocation
  }

  /** `inCheck`: the king square of the side to move is attacked. */
  predicate KingInCheck(p: Position)
    requires PawnsOffLastRanks(p.board)
  {
    SquareAttacked(p.board, p.whiteToMove, p.enpassantPossible, KingLocation(p).row, KingLocation(p).col)
  }

  /** The castling rights of the side to move. */
  function KingsideRight(p: Position): bool
  {
    if p.whiteToMove then p.currentCastleRights.wks else p.currentCastleRights.bks
  }

  function QueensideRight(p: Position): bool
  {
    if p.whiteToMove then p.currentCastleRights.wqs else p.currentCastleRights.bqs
  }

  /** What the move generators need of a position to stay on the grid: no pawn on its
      last rank, both king caches on the grid, and a castling right only while the king
      is on its home square (the castle generators read two and three columns beside it). */
  predicate Ready(p: Position)
  {
    var cr := p.currentCastleRights;
    PawnsOffLastRanks(p.board) &&
    InBounds(p.whiteKingLocation.row, p.whiteKingLocation.col) &&
    InBounds(p.blackKingLocation.row, p.blackKingLocation.col) &&
    ((cr.wks || cr.wqs) ==> p.whiteKingLocation == Coord(7, 4)) &&
    ((cr.bks || cr.bqs) ==> p.blackKingLocation == Coord(0, 4))
  }

  /** `getKingsideCastleMoves`: the two cells right of the king are empty and neither is
      attacked. */
  function KingsideCastleMoves(p: Position, r: int, c: int): (ms: seq<Move>)
    requires PawnsOffLastRanks(p.board) && InBounds(r, c) && c + 2 <= 7
    ensures |ms| <= 1
    ensures forall m {:trigger m in ms} | m in ms ::
      BuiltFrom(p.board, m) && m.isCastleMove && !m.isEnpassantMove &&
      m.startRow == r && m.startCol == c && m.endRow == r && m.endCol == c + 2 &&
      p.board[r][c + 1] == Empty && p.board[r][c + 2] == Empty
  {
    var b := p.board;
    if b[r][c + 1] == Empty && b[r][c + 2] == Empty &&
       !SquareAttacked(b, p.whiteToMove, p.enpassantPossible, r, c + 1) &&
       !SquareAttacked(b, p.whiteToMove, p.enpassantPossible, r, c + 2)
    then [NewMove(Coord(r, c), Coord(r, c + 2), b, false, true)]
    else []
  }

  /** `getQueensideCastleMoves`: the three cells left of the king are empty and the two
      next to it are not attacked. */
  function QueensideCastleMoves(p: Position, r: int, c: int): (ms: seq<Move>)
    requires PawnsOffLastRanks(p.board) && InBounds(r, c) && c - 3 >= 0
    ensures |ms| <= 1
    ensures forall m {:trigger m in ms} | m in ms ::
      BuiltFrom(p.board, m) && m.isCastleMove && !m.isEnpassantMove &&
      m.startRow == r && m.startCol == c && m.endRow == r && m.endCol == c - 2 &&
      p.board[r][c - 1] == Empty && p.board[r][c - 2] == Empty && p.board[r][c - 3] == Empty
  {
    var b := p.board;
    if b[r][c - 1] == Empty && b[r][c - 2] == Empty && b[r][c - 3] == Empty &&
       !SquareAttacked(b, p.whiteToMove, p.enpassantPossible, r, c - 1) &&
       !SquareAttacked(b, p.whiteToMove, p.enpassantPossible, r, c - 2)
    then [NewMove(Coord(r, c), Coord(r, c - 2), b, false, true)]
    else []
  }

  /** `getCastleMoves` for the king on (r, c): none while that square is attacked,
      otherwise the kingside castle if the right is held, then the queenside one. */
  function CastleMoves(p: Position, r: int, c: int): (ms: seq<Move>)
    requires PawnsOffLastRanks(p.board) && InBounds(r, c)
    requires KingsideRight(p) ==> c + 2 <= 7
    requires QueensideRight(p) ==> c - 3 >= 0
  {
    if SquareAttacked(p.board, p.whiteToMove, p.enpassantPossible, r, c) then []
    else
      (if KingsideRight(p) then KingsideCastleMoves(p, r, c) else []) +
      (if QueensideRight(p) then QueensideCastleMoves(p, r, c) else [])
  }

  /** What `getValidMoves` collects before pruning: `getAllMoves`, then the castle moves
      of the king of the side to move. */
  function Candidates(p: Position): (ms: seq<Move>)
    requires Ready(p)
  {
    AllMoves(p.board, p.whiteToMove, p.enpassantPossible) +
    CastleMoves(p, KingLocation(p).row, KingLocation(p).col)
  }

  /** A move `makeMove` can play on this position, leaving no pawn on its last rank. */
  predicate Makeable(p: Position, m: Move)
  {
    Applicable(m) && PawnsOffLastRanks(MakeMoveBoard(p.board, m))
  }

  /** The test in the pruning loop: after `makeMove(m)`, with the turn handed back to the
      mover, the mover's king is not attacked. */
  predicate Safe(p: Position, m: Move)
    requires Makeable(p, m)
  {
    var q := MakeMovePos(p, m);
    !KingInCheck(q.(whiteToMove := p.whiteToMove))
  }

  /** The index of the first move equal to x under `Move.__eq__`. */
  function FirstMatch(ms: seq<Move>, x: Move): (k: nat)
    requires exists i | 0 <= i < |ms| :: SameMove(ms[i], x)
    ensures k < |ms| && SameMove(ms[k], x)
    ensures forall i | 0 <= i < k :: !SameMove(ms[i], x)
  {
    if SameMove(ms[0], x) then 0
    else
      assert exists i | 0 <= i < |ms[1..]| :: SameMove(ms[1..][i], x) by {
        var i :| 0 <= i < |ms| && SameMove(ms[i], x);
        assert ms[1..][i - 1] == ms[i];
      }
      1 + FirstMatch(ms[1..], x)
  }

  /** `list.remove(x)`: drops the first element equal to x. */
  function RemoveFirst(ms: seq<Move>, x: Move): (r: seq<Move>)
    requires exists i | 0 <= i < |ms| :: SameMove(ms[i], x)
    ensures |r| == |ms| - 1
    ensures forall m | m in r :: m in ms
  {
    var k := FirstMatch(ms, x);
    ms[..k] + ms[k + 1..]
  }

  /** The loop of `getValidMoves`, from index i - 1 down to 0, on the list as the loop
      has left it: a move that fails the pruning test of p (`SafeMove`) is removed with
      `list.remove`. */
  function Prune(p: Position, ms: seq<Move>, i: nat): (r: seq<Move>)
    requires i <= |ms|
    ensures forall m | m in r :: m in ms
    decreases i, 0
  {
    if i == 0 then ms else PruneAt(p, ms, i - 1)
  }

  /** The turn of that loop at index j, then the turns below it. */
  function PruneAt(p: Position, ms: seq<Move>, j: nat): (r: seq<Move>)
    requires j < |ms|
    ensures forall m | m in r :: m in ms
    decreases j, 1
  {
    var m := ms[j];
    if SafeMove(p, m) then Prune(p, ms, j)
    else
      assert SameMove(ms[j], m);
      Prune(p, RemoveFirst(ms, m), j)
  }

  /** One turn of the pruning loop, from i down to j = i - 1, whose test of the j-th
      move has answered `drop`. */
  lemma PruneStep(p: Position, ms: seq<Move>, j: nat, i: nat, drop: bool)
    requires j + 1 == i <= |ms| && drop == !SafeMove(p, ms[j])
    ensures exists k | 0 <= k < |ms| :: SameMove(ms[k], ms[j])
    ensures Prune(p, ms, i) == if drop then Prune(p, RemoveFirst(ms, ms[j]), j) else Prune(p, ms, j)
  {
    assert Prune(p, ms, i) == PruneAt(p, ms, j);
    assert SameMove(ms[j], ms[j]);
  }

  /** A pseudo-legal move can be played and leaves no pawn on its last rank: a pawn
      reaching it is promoted. */
  lemma PseudoMakeable(p: Position, m: Move)
    requires PawnsOffLastRanks(p.board) && Pseudo(p.board, p.whiteToMove, p.enpassantPossible, m)
    ensures Makeable(p, m)
  {
    var b := p.board;
    assert Applicable(m);
    var b' := MakeMoveBoard(b, m);
    forall j | 0 <= j < 8
      ensures b'[0][j] != Piece(White, Pawn) && b'[7][j] != Piece(Black, Pawn)
    {
    }
  }

  /** So can a castle move of a position whose rights put the king on its home square. */
  lemma CastleMakeable(p: Position, m: Move)
    requires Ready(p) && m in CastleMoves(p, KingLocation(p).row, KingLocation(p).col)
    ensures Makeable(p, m)
  {
    var b := p.board;
    var (r, c) := (KingLocation(p).row, KingLocation(p).col);
    assert KingsideRight(p) || QueensideRight(p);
    assert r == (if p.whiteToMove then 7 else 0) && c == 4;
    assert m.startRow == r && m.startCol == 4 && (m.endCol == 6 || m.endCol == 2) && m.endRow == r;
    assert !m.isPawnPromotion;
    var b' := MakeMoveBoard(b, m);
    forall j | 0 <= j < 8
      ensures b'[0][j] != Piece(White, Pawn) && b'[7][j] != Piece(Black, Pawn)
    {
    }
  }

  /** Every candidate of `getValidMoves` can be played by `makeMove`. */
  lemma CandidatesMakeable(p: Position)
    requires Ready(p)
    ensures forall m | m in Candidates(p) :: Makeable(p, m)
  {
    forall m | m in Candidates(p) ensures Makeable(p, m) {
      if m in AllMoves(p.board, p.whiteToMove, p.enpassantPossible) {
        PseudoMakeable(p, m);
      } else {
        CastleMakeable(p, m);
      }
    }
  }

  /** The pruning test as a total function: the move can be played and is safe. */
  predicate SafeMove(p: Position, m: Move)
  {
    Makeable(p, m) && Safe(p, m)
  }

  /** `getValidMoves`: the candidates after the pruning loop has run over all of them. */
  function ValidMoves(p: Position): (ms: seq<Move>)
    requires Ready(p)
    ensures forall m | m in ms :: m in Candidates(p)
  {
    var cs := Candidates(p);
    Prune(p, cs, |cs|)
  }

  /** An independent statement of what the loop keeps: the moves of ms that pass the
      pruning test of p, in order. */
  function Filter(p: Position, ms: seq<Move>): (r: seq<Move>)
  {
    if ms == [] then [] else Filter(p, ms[..|ms| - 1]) + (if SafeMove(p, ms[|ms| - 1]) then [ms[|ms| - 1]] else [])
  }

  /** A move is kept exactly when it is one of the given moves and passes the test. */
  lemma {:induction false} FilterMembers(p: Position, ms: seq<Move>)
    ensures forall m | m in Filter(p, ms) :: m in ms && SafeMove(p, m)
    ensures forall m | m in ms && SafeMove(p, m) :: m in Filter(p, ms)
  {
    if ms != [] {
      var n := |ms| - 1;
      FilterMembers(p, ms[..n]);
      assert ms == ms[..n] + [ms[n]];
    }
  }

  /** Two moves of the list are never equal under `Move.__eq__`. */
  predicate DistinctIDs(ms: seq<Move>)
  {
    forall i, j | 0 <= i < j < |ms| :: !SameMove(ms[i], ms[j])
  }

  /** In a list of distinct moves, `list.remove` of the j-th move drops exactly that one,
      and what is left is still distinct. */
  lemma RemoveDistinct(ms: seq<Move>, j: nat)
    requires j < |ms| && DistinctIDs(ms)
    ensures exists i | 0 <= i < |ms| :: SameMove(ms[i], ms[j])
    ensures RemoveFirst(ms, ms[j]) == ms[..j] + ms[j + 1..]
    ensures DistinctIDs(ms[..j] + ms[j + 1..])
  {
    assert SameMove(ms[j], ms[j]);
    var k := FirstMatch(ms, ms[j]);
    assert k == j;
    var rest := ms[..j] + ms[j + 1..];
    forall a, b | 0 <= a < b < |rest| ensures !SameMove(rest[a], rest[b]) {
      var a' := if a < j then a else a + 1;
      var b' := if b < j then b else b + 1;
      assert rest[a] == ms[a'] && rest[b] == ms[b'];
    }
  }

  /** Whatever the list holds, the moves from index i on, which the loop has passed,
      pass the test, so every move the loop returns passes it. */
  lemma {:induction false} PruneKeeps(p: Position, ms: seq<Move>, i: nat)
    requires i <= |ms|
    requires forall k | i <= k < |ms| :: SafeMove(p, ms[k])
    ensures forall m | m in Prune(p, ms, i) :: SafeMove(p, m)
    decreases i
  {
    if i > 0 {
      var j := i - 1;
      var m := ms[j];
      if SafeMove(p, m) {
        PruneKeeps(p, ms, j);
      } else {
        assert SameMove(ms[j], m);
        var rest := RemoveFirst(ms, m);
        assert forall t | j <= t < |rest| :: rest[t] == ms[t + 1];
        PruneKeeps(p, rest, j);
      }
    }
  }

  /** When no two moves are equal under `Move.__eq__`, `list.remove` drops exactly the
      move the loop is looking at, and the loop keeps exactly the moves passing the test. */
  lemma {:induction false} PruneIsFilter(p: Position, ms: seq<Move>, i: nat)
    requires i <= |ms| && DistinctIDs(ms)
    requires forall k | i <= k < |ms| :: SafeMove(p, ms[k])
    ensures Prune(p, ms, i) == Filter(p, ms[..i]) + ms[i..]
    decreases i
  {
    if i > 0 {
      var j := i - 1;
      if SafeMove(p, ms[j]) {
        PruneIsFilter(p, ms, j);
        KeepStep(p, ms, j, i);
      } else {
        RemoveDistinct(ms, j);
        var rest := ms[..j] + ms[j + 1..];
        RestSafe(p, ms, j, i);
        PruneIsFilter(p, rest, j);
        DropStep(p, ms, j, i);
      }
    }
  }

  /** Dropping the j-th move shifts the moves after it down by one, so those the loop
      has passed still pass the test. */
  lemma RestSafe(p: Position, ms: seq<Move>, j: nat, i: nat)
    requires j + 1 == i <= |ms|
    requires forall k | i <= k < |ms| :: SafeMove(p, ms[k])
    ensures var rest := ms[..j] + ms[j + 1..];
      forall k | j <= k < |rest| :: SafeMove(p, rest[k])
  {
    var rest := ms[..j] + ms[j + 1..];
    assert forall k | j <= k < |rest| :: rest[k] == ms[k + 1];
  }

  /** One step of the loop, from j to i = j + 1, on a move that is kept. */
  lemma KeepStep(p: Position, ms: seq<Move>, j: nat, i: nat)
    requires j + 1 == i <= |ms| && SafeMove(p, ms[j])
    requires Prune(p, ms, j) == Filter(p, ms[..j]) + ms[j..]
    ensures Prune(p, ms, i) == Filter(p, ms[..i]) + ms[i..]
  {
    var m := ms[j];
    var front := ms[..j];
    SplitAt(ms, j);
    FilterSnoc(p, front, m);
    assert Prune(p, ms, i) == Prune(p, ms, j);
  }

  /** Cutting a list before and after its i-th element. */
  lemma SplitAt(ms: seq<Move>, i: nat)
    requires i < |ms|
    ensures ms[..i + 1] == ms[..i] + [ms[i]] && ms[i..] == [ms[i]] + ms[i + 1..]
  {
  }

  /** Filtering a list with one more element at the end. */
  lemma FilterSnoc(p: Position, ms: seq<Move>, m: Move)
    ensures Filter(p, ms + [m]) == Filter(p, ms) + (if SafeMove(p, m) then [m] else [])
  {
    var t := ms + [m];
    assert t[..|t| - 1] == ms;
  }

  /** One step of the loop, from j to i = j + 1, on a move that is removed, in a list of
      distinct moves. */
  lemma DropStep(p: Position, ms: seq<Move>, j: nat, i: nat)
    requires j + 1 == i <= |ms| && !SafeMove(p, ms[j]) && DistinctIDs(ms)
    requires var rest := ms[..j] + ms[j + 1..];
      Prune(p, rest, j) == Filter(p, rest[..j]) + rest[j..]
    ensures Prune(p, ms, i) == Filter(p, ms[..i]) + ms[i..]
  {
    RemoveDistinct(ms, j);
    var m := ms[j];
    var front := ms[..j];
    var rest := front + ms[i..];
    assert rest[..j] == front;
    assert rest[j..] == ms[i..];
    assert ms[..i] == front + [m];
    assert Filter(p, ms[..i]) == Filter(p, front);
  }

  /** Every move `getValidMoves` returns is a candidate that can be played and leaves the
      mover's king unattacked. */
  lemma ValidMovesSafe(p: Position)
    requires Ready(p)
    ensures forall m | m in ValidMoves(p) :: m in Candidates(p) && Makeable(p, m) && Safe(p, m)
  {
    var cs := Candidates(p);
    PruneKeeps(p, cs, |cs|);
  }

  /** With distinct candidates, `getValidMoves` returns every safe candidate, in order
      (module Uniqueness shows the candidates of a well-formed position are distinct). */
  lemma ValidMovesOfDistinct(p: Position)
    requires Ready(p) && DistinctIDs(Candidates(p))
    ensures ValidMoves(p) == Filter(p, Candidates(p))
    ensures forall m | m in Candidates(p) && SafeMove(p, m) :: m in ValidMoves(p)
  {
    var cs := Candidates(p);
    CandidatesMakeable(p);
    PruneIsFilter(p, cs, |cs|);
    assert cs[..|cs|] == cs;
    FilterMembers(p, cs);
  }
}
