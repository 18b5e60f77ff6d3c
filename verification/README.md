# Chess engine and negamax search, modelled in Dafny

This project models the core of a small Python chess program. The core is two files:

- `Chess/ChessEngine.py`. This is the mutable `GameState`: the 8×8 grid, the side to
  move, the king caches, the en passant target, the castling rights and the three logs.
  It has `makeMove`/`undoMove`, the pseudo-legal generators per piece kind,
  `getAllMoves`, `squareUnderAttack`/`inCheck`, the castle generators and the pruning
  loop of `getValidMoves`. It also holds the immutable `Move` and `CastleRights` values.
- `Chess/SmartMoveFinder.py`. This is the static evaluation (`scoreBoard`,
  `scoreMaterial`, `pieceScore` and the piece-square tables) and the negamax search with
  alpha-beta pruning (`findMoveNegaMaxAlphaBeta`, started by `findBestMove`).

The files are laid out as follows:

- `GameState` is a Dafny `class` with the source's fields. Its methods run the source's
  loops: the ray `while` loops, the offset loops, the nested `getAllMoves` loops, the
  reverse pruning loop with `list.remove`, and the `boardString` loops. Each method is
  proved to leave the fields equal to a pure definition of the old fields (`Pos()`).
- Those pure definitions live in modules:
  - Rules: `makeMove`, `undoMove`, `updateCastleRights`;
  - Generation: the generators;
  - Legality: attacks, castles, pruning, `getValidMoves`;
  - Evaluation: the scores.
- Module Play holds the value-level steps the class methods call.
- Module Invariant states what every reachable position satisfies and proves that playing
  a valid move keeps it.
- Module Uniqueness proves that no two candidates of `getValidMoves` are equal under
  `Move.__eq__`, so the pruning loop removes exactly the unsafe moves.
- The search is modelled on a tree of positions (module GameTree). The tree is grown from
  `makeMove`, `getValidMoves` and `scoreBoard`. `findMoveNegaMaxAlphaBeta` plays each move
  on the shared `GameState`, recurses and takes the move back. It is proved to return what
  the function `Search.Negamax` gives on that tree, and to leave the position as it found
  it.
- About `Negamax`, the project proves the following:
  - it bounds plain negamax (`Search.Value`) outside the window and equals it inside;
  - it stays within the checkmate values;
  - `nextMove` is set only at the root, to the first move of best plain value.

Scores are in tenths: every score in the model is ten times the source's score, because
`scoreBoard` weighs its table entries by `.1`. `CHECKMATE` is scaled the same way inside
the search.

Three places in the code behave differently from what their names and comments suggest.
The model follows the code in each case:

- `getValidMoves` tests `if self.inCheck:`. That is the bound method, not a call, so the
  test is always true. With no move left, `checkmate` is always set and `stalemate` is
  cleared, so `stalemate` is never set to true.
- `undoMove` clears `checkmate`, but it writes `self.stalemage` instead of `self.stalemate`.
  The class keeps that misspelt attribute as a field, and `stalemate` survives an undo.
- `squareUnderAttack` asks whether any pseudo-legal move of the other side ends on the
  square. So a pawn's straight advance onto a cell counts as an attack on it. A pawn's
  diagonal onto an empty cell does not count, unless that cell is the en passant target.
  Castling through a square a pawn guards diagonally is therefore allowed.

These are kept as behaviour. Each is what the code evidently does, and a corrected version would change every result that depends on it.

## Model

| member | source | states |
|---|---|---|
| Moves.NewMove | Chess/ChessEngine.py:456-470 | The move records the given squares and flags and the piece on the start cell. The promotion flag holds exactly for a pawn reaching the far rank of its colour. The captured piece is what stands on the target cell, except that an en passant pawn capture takes a pawn of the other colour. |
| Moves.MoveIDDigits | Chess/ChessEngine.py:470 | The four decimal digits of `moveID` are the start row, start column, end row and end column of an on-board move. |
| Moves.MoveIDInjective | Chess/ChessEngine.py:470-475 | Two on-board moves are equal under `__eq__` exactly when their start and end squares coincide. |
| Moves.RanksInverse | Chess/ChessEngine.py:451-452 | `rowsToRanks` and `ranksToRows` are inverse maps in both directions. |
| Moves.FilesInverse | Chess/ChessEngine.py:453-454 | `colsToFiles` and `filesToCol` are inverse maps in both directions. |
| Moves.RankFileRoundTrip | Chess/ChessEngine.py:451-454 | Every row and every column of the grid is mapped to a rank or file that maps back to it. |
| Moves.RankFile | Chess/ChessEngine.py:484-485 | `getRankFile` is two characters, a file and a rank, which decode back to the column and row given. |
| Moves.ChessNotation | Chess/ChessEngine.py:480-481 | `getChessNotation` is always four characters long. |
| Moves.NotationMatchesEquality | Chess/ChessEngine.py:473-485 | Two on-board moves have the same notation exactly when they are equal under `__eq__`. |
| Moves.NotationExample | Chess/ChessEngine.py:480-485 | The move from row 6, column 4 to row 4, column 4 reads "e2e4". |
| Basics.CodeInjective | Chess/ChessEngine.py:7-16 | Two cells with the same two-character code hold the same thing. |
| ChessEngine.BoardTextLayout | Chess/ChessEngine.py:31-40 | The board string is 129 characters: the two-character code of cell (i, j) at 16i + 2j, then the side-to-move letter. |
| ChessEngine.BoardTextInjective | Chess/ChessEngine.py:31-40 | Two positions with the same board string have the same grid and side to move, so the string identifies the board state. |
| ChessEngine.GameState.constructor | Chess/ChessEngine.py:5-28 | The fields hold the standard opening position with white to move, all rights set, the kings cached on their home squares, no en passant target, an empty move log, and en passant and rights logs seeded with the current values; no flag is set. |
| ChessEngine.GameState.BoardString | Chess/ChessEngine.py:31-40 | The nested loops build exactly `BoardText` of the grid and side to move. |
| ChessEngine.GameState.MakeMove | Chess/ChessEngine.py:44-78 | The new position is `MakeMovePos` of the old one, and the three flags are unchanged. |
| ChessEngine.GameState.UpdateCastleRights | Chess/ChessEngine.py:83-114 | Only the current rights change, to `Rules.UpdateCastleRights` of the old rights. |
| ChessEngine.GameState.UndoMove | Chess/ChessEngine.py:119-152 | The new position is `UndoPos` of the old one. On an empty log nothing changes. Otherwise `checkmate` and `stalemage` are cleared and `stalemate` is left alone. |
| ChessEngine.GameState.GetPawnMoves | Chess/ChessEngine.py:218-253 | Appends exactly `PawnMoves`: the advances, then the capture to the left, then the capture to the right. |
| ChessEngine.GameState.PawnPushSteps | Chess/ChessEngine.py:221-224 | Appends the single advance onto an empty cell and, from the home row, the double advance onto a second empty cell. |
| ChessEngine.GameState.PawnCaptureStep | Chess/ChessEngine.py:225-235 | Appends a capture onto an enemy piece, or else an en passant move onto the target cell, or nothing. |
| ChessEngine.GameState.RayLoop | Chess/ChessEngine.py:402-415 | One `while` walk appends exactly `Ray` in that direction: empty cells until the first occupied one, which is added only when it holds an enemy piece. |
| ChessEngine.GameState.GetRookMoves | Chess/ChessEngine.py:256-352 | Appends the four rays in the source's order: down, up, right, left. |
| ChessEngine.GameState.GetBishopMoves | Chess/ChessEngine.py:396-415 | Appends one ray for each entry of the direction list, in order. |
| ChessEngine.GameState.GetQueenMoves | Chess/ChessEngine.py:417-419 | Appends the bishop's moves, then the rook's. |
| ChessEngine.GameState.JumpLoop | Chess/ChessEngine.py:426-435 | The offset loop appends exactly `Jumps`: each target on the grid that is empty or holds a piece not of the ally colour. |
| ChessEngine.GameState.GetKnightMoves | Chess/ChessEngine.py:422-435 | Appends the knight's targets in the order of its offset table. |
| ChessEngine.GameState.GetKingMoves | Chess/ChessEngine.py:354-367 | Appends the king's targets in the order of its offset table. |
| ChessEngine.GameState.GetPieceMoves | Chess/ChessEngine.py:17 | The `moveFunctions` table sends the piece on (r, c) to the generator of its kind. |
| ChessEngine.GameState.GetAllMoves | Chess/ChessEngine.py:207-215 | The nested loops return exactly `AllMoves`, every move of which is pseudo-legal. |
| ChessEngine.GameState.SquareUnderAttack | Chess/ChessEngine.py:194-201 | True exactly when some pseudo-legal move of the other side ends on (r, c). The turn is handed back, so the position is unchanged. |
| ChessEngine.GameState.InCheck | Chess/ChessEngine.py:186-190 | True exactly when the cached square of the mover's king is attacked; the position is unchanged. |
| ChessEngine.GameState.GetKingsideCastleMoves | Chess/ChessEngine.py:381-384 | Appends `KingsideCastleMoves`; the position is unchanged. |
| ChessEngine.GameState.GetQueensideCastleMoves | Chess/ChessEngine.py:387-390 | Appends `QueensideCastleMoves`; the position is unchanged. |
| ChessEngine.GameState.GetCastleMoves | Chess/ChessEngine.py:371-377 | Appends exactly `CastleMoves`: nothing while the king's square is attacked, else kingside then queenside as the rights of the side allow. |
| ChessEngine.GameState.GetCandidates | Chess/ChessEngine.py:159-164 | `getAllMoves`, then the castles from the cached king square, equals `Candidates`; the position is unchanged. |
| ChessEngine.GameState.TryMove | Chess/ChessEngine.py:166-171 | Playing the move, asking `inCheck` for the mover and undoing it leaves the position as it was, and answers exactly whether the move is unsafe. The undo clears `checkmate` and `stalemage`. |
| ChessEngine.GameState.PruneCandidates | Chess/ChessEngine.py:165-171 | The reverse loop with `list.remove` returns `Prune` of the candidates and restores the position. |
| ChessEngine.GameState.PrunedCandidates | Chess/ChessEngine.py:157-171 | The pruned candidates are `ValidMoves` of the position on entry, and the position is restored. `checkmate` and `stalemage` keep their old values only when there was no candidate to try; otherwise the undo in the loop has cleared them. |
| ChessEngine.GameState.GetValidMoves | Chess/ChessEngine.py:156-182 | Returns `ValidMoves` of the position on entry and leaves the position, including the saved en passant target and rights, as it was. `checkmate` holds exactly when no move is left, and `stalemate` only if it was already set and a move is left. `stalemage` is cleared once a candidate was tried. |
| Play.MovePieces | Chess/ChessEngine.py:45-74 | The grid writes of `makeMove` produce `MakeMoveBoard`. |
| Play.UnmovePieces | Chess/ChessEngine.py:122-150 | The grid writes of `undoMove` produce `UndoMoveBoard`. |
| Play.UpdatedRights | Chess/ChessEngine.py:83-114 | The two test chains of `updateCastleRights` produce `Rules.UpdateCastleRights`. |
| Play.ApplyMove | Chess/ChessEngine.py:44-78 | The steps of `makeMove` in order produce `MakeMovePos`. |
| Play.TakeBack | Chess/ChessEngine.py:120-150 | The steps of `undoMove` on a non-empty log produce `UndoPos`. |
| Rules.MoverRights | Chess/ChessEngine.py:84-101 | The first test chain never sets a right. |
| Rules.CaptureRights | Chess/ChessEngine.py:103-114 | The second test chain never sets a right. |
| Rules.UpdateCastleRights | Chess/ChessEngine.py:83-114 | `updateCastleRights` only ever clears rights. |
| Rules.MoverRightsCleared | Chess/ChessEngine.py:84-101 | A right survives the mover test exactly when it was held, the king of its colour did not move, and the rook did not leave that corner. |
| Rules.CaptureRightsCleared | Chess/ChessEngine.py:103-114 | A right survives the capture test exactly when it was held and no rook of its colour was captured on that corner. |
| Rules.CastleRightsCleared | Chess/ChessEngine.py:83-114 | A right survives `updateCastleRights` exactly when it was held and none of the three clearing events happened. |
| Rules.CastleRightsMonotone | Chess/ChessEngine.py:83-114 | Along any sequence of `makeMove`s, no right is ever regained. |
| Rules.MakeMovePos | Chess/ChessEngine.py:44-78 | `makeMove` flips the side and appends the move to the log. It keeps the three logs aligned (each value log one longer than the move log) and leaves the current values on top of their logs. |
| Rules.UndoPos | Chess/ChessEngine.py:119-152 | On an empty log nothing changes. Otherwise the last move is popped, the side flips, the logs stay aligned and the restored values are the new log tops. |
| Rules.MakeMoves | Chess/ChessEngine.py:44-78 | A sequence of moves grows the log by its length and keeps the logs aligned. |
| Rules.UndoN | Chess/ChessEngine.py:119-152 | Undoing n moves in a row keeps the logs aligned. |
| Rules.MakeMovesCons | Chess/ChessEngine.py:44-78 | Making the first i + 1 moves is making the first one and then the next i. |
| Rules.EnPassantAfterMake | Chess/ChessEngine.py:62-65 | After `makeMove` there is an en passant target exactly when a pawn moved two rows. It is then the skipped cell in the end column. |
| Rules.SpecialMovesOnBoard | Chess/ChessEngine.py:55-74 | A kingside castle moves the rook from endCol+1 to endCol-1; a queenside castle moves it from endCol-2 to endCol+1. An en passant capture clears (startRow, endCol). |
| Rules.MakeMoveCell | Chess/ChessEngine.py:45-74 | Each cell after `makeMove` is given by `CellAfterMove`, cell by cell. |
| Rules.UndoBoardOfMakeBoard | Chess/ChessEngine.py:119-152 | The grid writes of `undoMove` reverse those of `makeMove` when the move's recorded pieces match the board, including en passant and the rook of a castle. |
| Rules.MakeUndoRoundTrip | Chess/ChessEngine.py:44-152 | `undoMove` right after `makeMove` restores the whole position: grid, side, king caches, en passant target, rights and all three logs. |
| Rules.MakeAllUndoAll | Chess/ChessEngine.py:44-152 | Undoing n moves after making n restores the position, as the search's nested make/undo calls need. |
| Rules.UndoNSplit | Chess/ChessEngine.py:119-152 | Undoing n + 1 moves is undoing n and then one more. |
| Rules.FitsInTurnTail | Chess/ChessEngine.py:44-78 | A sequence that fits its positions starts with a move that fits, and its rest fits the position that move leads to. |
| Generation.RayCells | Chess/ChessEngine.py:396-415 | Every cell of a ray lies on the grid and holds no own piece, and every cell but the last is empty. An empty ray means the first cell is blocked. |
| Generation.RayStops | Chess/ChessEngine.py:402-411 | A ray ends where the walk must stop: at an enemy piece, or just before an own piece or the edge. |
| Generation.RayLine | Chess/ChessEngine.py:402-415 | The cells of a ray are consecutive steps in its direction from the first cell. |
| Generation.RayFromCells | Chess/ChessEngine.py:402-415 | The ray's moves are the moves from (r, c) to its cells, in order. |
| Generation.RayFrom | Chess/ChessEngine.py:402-415 | Every move of the walk from the i-th step on starts on (r, c), is built from the grid, lands on no own piece and is no en passant. |
| Generation.Ray | Chess/ChessEngine.py:400-415 | The same of every move of one direction's walk. |
| Generation.Rays | Chess/ChessEngine.py:400-415 | The same of the walks in a list of unit directions, one after the other. |
| Generation.Jumps | Chess/ChessEngine.py:422-435 | The same of every move of the offset loop. |
| Generation.PawnMovesParts | Chess/ChessEngine.py:218-253 | The pawn's moves are its advances, then the left capture where column c - 1 exists, then the right capture where column c + 1 exists. |
| Generation.NonPawnMovesArePseudo | Chess/ChessEngine.py:211-214 | The moves a rook, knight, bishop, queen or king generator returns from its own square are pseudo-legal. |
| Generation.CellMoves | Chess/ChessEngine.py:210-214 | Every move generated for cell (r, c) is pseudo-legal and starts there. |
| Generation.RowMoves | Chess/ChessEngine.py:210-214 | Every move of the first n cells of row r is pseudo-legal and starts in that row before column n. |
| Generation.RowsMoves | Chess/ChessEngine.py:209-214 | Every move of the first n rows is pseudo-legal and starts before row n. |
| Generation.RookMoves | Chess/ChessEngine.py:256-352 | Every rook move is built from the grid, starts on (r, c), is no castle or en passant, and does not land on an own piece. |
| Generation.BishopMoves | Chess/ChessEngine.py:396-415 | The same of every bishop move. |
| Generation.QueenMoves | Chess/ChessEngine.py:417-419 | The same of every queen move. |
| Generation.JumpsSound | Chess/ChessEngine.py:422-435 | Every knight or king move ends at the start square plus one of the offsets. |
| Generation.JumpsComplete | Chess/ChessEngine.py:422-435 | Every offset whose target is on the grid and holds no own piece yields its move. |
| Generation.PawnPushes | Chess/ChessEngine.py:218-253 | There is an advance exactly when the cell ahead is empty, and every advance needs that cell empty. The first advance goes one row forward in the pawn's column. There is a second advance, two rows forward, exactly when the pawn is on its home row and that cell is empty too. |
| Generation.PawnCapture | Chess/ChessEngine.py:218-253 | At most one move, one row forward into column x. There is one exactly when that cell holds a piece of the other colour or is the en passant target. It is a plain capture onto the enemy piece, and otherwise an en passant capture onto the target. |
| Generation.PawnMovesArePseudo | Chess/ChessEngine.py:218-253 | Every pawn move is pseudo-legal and starts on the pawn's square. |
| Generation.PieceMoves | Chess/ChessEngine.py:211-214 | Every move of the piece on (r, c) is pseudo-legal and starts there. |
| Generation.AllMoves | Chess/ChessEngine.py:207-215 | Every move of `getAllMoves` is pseudo-legal. It starts on a piece of the side to move, ends on the grid, and does not land on an own piece. |
| Generation.JumpsSnoc | Chess/ChessEngine.py:426-435 | One more offset of the loop appends its target when that target is on the grid and is not an own piece. |
| Generation.CellStep | Chess/ChessEngine.py:210-214 | One more cell of a row appends the moves of that cell. |
| Legality.KingsideCastleMoves | Chess/ChessEngine.py:381-384 | At most one move: the king's two-column castle, built from the grid, over two empty cells. |
| Legality.QueensideCastleMoves | Chess/ChessEngine.py:387-390 | At most one move: the king's two-column castle, built from the grid, over three empty cells. |
| Legality.FirstMatch | Chess/ChessEngine.py:169 | `list.remove` finds the first move equal to the given one under `__eq__`: it matches, and no earlier move does. |
| Legality.RemoveFirst | Chess/ChessEngine.py:169 | `list.remove` shortens the list by one and adds nothing. |
| Legality.Prune | Chess/ChessEngine.py:165-171 | The pruning loop keeps only moves of the list it was given. |
| Legality.PruneStep | Chess/ChessEngine.py:165-171 | One turn of the reverse loop: an unsafe move is removed with `list.remove`, a safe one kept. |
| Legality.PruneAt | Chess/ChessEngine.py:165-171 | The loop from index j down keeps only moves of the list it was given. |
| Legality.FilterSnoc | Chess/ChessEngine.py:165-171 | The reference filter of a list with one more move adds that move exactly when it is safe. |
| Legality.KeepStep | Chess/ChessEngine.py:165-171 | Keeping a safe move preserves the relation between the loop and the reference filter. |
| Legality.DropStep | Chess/ChessEngine.py:165-171 | On distinct moves, removing an unsafe move with `list.remove` preserves that relation. |
| Legality.PseudoMakeable | Chess/ChessEngine.py:44-78 | Every pseudo-legal move can be made, and leaves no pawn on its last rank. |
| Legality.CastleMakeable | Chess/ChessEngine.py:44-78 | Every castle move can be made. |
| Legality.CandidatesMakeable | Chess/ChessEngine.py:159-164 | Every candidate of `getValidMoves` can be made. |
| Legality.ValidMoves | Chess/ChessEngine.py:156-182 | Every move `getValidMoves` returns is one of its candidates. |
| Legality.FilterMembers | Chess/ChessEngine.py:165-171 | The reference filter holds exactly the safe moves of a list. |
| Legality.RemoveDistinct | Chess/ChessEngine.py:169 | In a list of pairwise distinct moves, `list.remove` of the j-th move removes that very entry, and the rest stays distinct. |
| Legality.PruneKeeps | Chess/ChessEngine.py:165-171 | Every move the pruning loop keeps is safe. |
| Legality.PruneIsFilter | Chess/ChessEngine.py:165-171 | On distinct moves, the pruning loop equals the reference filter on the moves it has visited, followed by the moves it has not. |
| Legality.ValidMovesSafe | Chess/ChessEngine.py:156-182 | No move `getValidMoves` returns leaves the mover's king attacked, and each is a candidate that can be made. |
| Legality.ValidMovesOfDistinct | Chess/ChessEngine.py:156-182 | On distinct candidates, `getValidMoves` returns exactly the safe candidates, in order. |
| Uniqueness.ApartConcat | Chess/ChessEngine.py:207-215 | Two lists with distinct squares and no shared square pair concatenate to one with distinct squares. |
| Uniqueness.RayApart | Chess/ChessEngine.py:402-415 | The moves of one ray have pairwise distinct squares, and all point in the ray's direction. |
| Uniqueness.RaysApart | Chess/ChessEngine.py:400-415 | Rays in distinct directions have pairwise distinct squares. |
| Uniqueness.RookRays | Chess/ChessEngine.py:256-352 | The rook's four loops are the rays in the four orthogonal directions. |
| Uniqueness.RookApart | Chess/ChessEngine.py:256-352 | The rook's moves have pairwise distinct squares and orthogonal headings. |
| Uniqueness.BishopApart | Chess/ChessEngine.py:396-415 | The bishop's moves have pairwise distinct squares and diagonal headings. |
| Uniqueness.QueenApart | Chess/ChessEngine.py:417-419 | The queen's moves have pairwise distinct squares. |
| Uniqueness.JumpsApart | Chess/ChessEngine.py:422-435 | Distinct offsets give moves with pairwise distinct squares, each ending at its offset. |
| Uniqueness.OffsetsNoRepeats | Chess/ChessEngine.py:423 | The knight's offset table repeats no entry, and neither does the king's (line 355). |
| Uniqueness.PushesApart | Chess/ChessEngine.py:221-224 | The single and double advance of a pawn differ. |
| Uniqueness.PawnApart | Chess/ChessEngine.py:218-253 | A pawn's moves have pairwise distinct squares. |
| Uniqueness.PieceApart | Chess/ChessEngine.py:211-214 | The moves of any piece have pairwise distinct squares, and a king's moves end at most one column from its own. |
| Uniqueness.RowApart | Chess/ChessEngine.py:210-214 | The moves of a row have pairwise distinct squares. |
| Uniqueness.RowsApart | Chess/ChessEngine.py:209-214 | So do the moves of all the rows. |
| Uniqueness.RowFrom | Chess/ChessEngine.py:210-214 | A move of a row comes from the cell it starts on. |
| Uniqueness.RowsFrom | Chess/ChessEngine.py:209-214 | A move of `getAllMoves` comes from the cell it starts on. |
| Uniqueness.CastlesApart | Chess/ChessEngine.py:371-390 | The castle moves are distinct, start on the king's square and end two columns from it. |
| Uniqueness.CandidatesApart | Chess/ChessEngine.py:159-164 | The candidates of a reachable position have pairwise distinct squares, castles included. |
| Uniqueness.CandidatesDistinct | Chess/ChessEngine.py:473-475 | No two candidates are equal under `__eq__`. |
| Uniqueness.ValidMovesComplete | Chess/ChessEngine.py:156-182 | On every reachable position, `getValidMoves` returns exactly the candidates after which the mover's king is not attacked, in order, with none missing. |
| Invariant.PseudoFits | Chess/ChessEngine.py:44-78 | Every pseudo-legal move of a reachable position can be taken back exactly. |
| Invariant.CastleFits | Chess/ChessEngine.py:371-390 | So can every castle move. |
| Invariant.CandidatesFit | Chess/ChessEngine.py:159-164 | Every candidate of `getValidMoves` can be made and taken back exactly. |
| Invariant.CandidatesTryable | Chess/ChessEngine.py:165-171 | The pruning loop may play and undo every candidate. |
| Invariant.CandidateSparesKing | Chess/ChessEngine.py:207-215 | On a reachable position, where the side that just moved is not in check, no candidate lands on the other side's king. |
| Invariant.CastleShape | Chess/ChessEngine.py:371-390 | A castle starts on the king's home square and ends two columns from it, with the rook of that side on its corner and the right held. |
| Invariant.CandidateCells | Chess/ChessEngine.py:159-164 | A candidate is built from the grid and lands on no king. A castle moves the king, with a rook on the cell it relocates. |
| Invariant.PseudoCells | Chess/ChessEngine.py:207-215 | A pseudo-legal candidate is no castle and lands on no own piece. |
| Invariant.CastleCells | Chess/ChessEngine.py:371-390 | A castle candidate lands on an empty cell, moves the king, and has a rook on the cell it relocates. |
| Invariant.CastleTarget | Chess/ChessEngine.py:381-390 | A castle's target cell is empty. |
| Invariant.KingCellStep | Chess/ChessEngine.py:45-52 | After `makeMove` each king is on the cell the cache update points at, and on no other cell. |
| Invariant.KingsCachedStep | Chess/ChessEngine.py:45-52 | `makeMove` keeps the king caches pointing at the kings. |
| Invariant.KingsCachedAfter | Chess/ChessEngine.py:49-52 | After any candidate the king caches still point at the kings. |
| Invariant.RooksHomeStep | Chess/ChessEngine.py:68-114 | `makeMove` keeps every held right's rook on its corner. |
| Invariant.RooksHomeAfter | Chess/ChessEngine.py:83-114 | After any candidate, a held right still has its rook on its corner. |
| Invariant.EnPassantStep | Chess/ChessEngine.py:62-65 | After a pseudo-legal move or a castle, an en passant target is an empty skipped cell with the advanced pawn in front of it. |
| Invariant.EnPassantAfter | Chess/ChessEngine.py:62-65 | The same after any candidate. |
| Invariant.ReadyAfter | Chess/ChessEngine.py:44-78 | Any candidate can be made, fits the position, and leads to a position the generators can run on. |
| Invariant.ValidPreserved | Chess/ChessEngine.py:156-182 | Playing a move `getValidMoves` returns leads to a reachable position again. |
| Invariant.InitialValid | Chess/ChessEngine.py:5-28 | The opening position satisfies the invariant. |
| Invariant.InitialCells | Chess/ChessEngine.py:7-16 | The opening grid holds the back ranks, the pawn rows and empty cells in between. |
| Invariant.BlockedRay | Chess/ChessEngine.py:402-411 | A ray whose first cell is blocked is empty. |
| Invariant.BlockedRays | Chess/ChessEngine.py:400-415 | Rays that are all blocked at their first cell give no moves. |
| Invariant.SurroundedSlider | Chess/ChessEngine.py:396-419 | A slider surrounded by own pieces or the edge has no moves. |
| Invariant.InitialPawnMoves | Chess/ChessEngine.py:218-224 | In the opening position a white pawn's moves end no further than row 4. |
| Invariant.JumpsNear | Chess/ChessEngine.py:422-435 | A knight moves at most two rows and a king at most one. |
| Invariant.InitialBackRowBlocked | Chess/ChessEngine.py:7-16 | In the opening position every neighbour of a white back-rank piece is blocked. |
| Invariant.InitialBackMoves | Chess/ChessEngine.py:207-215 | In the opening position the white back rank's moves end no further than row 5. |
| Invariant.InitialCellMoves | Chess/ChessEngine.py:207-215 | In the opening position no white move ends before row 4. |
| Invariant.InitialRowStaysBack | Chess/ChessEngine.py:210-214 | The same for the moves of any one row. |
| Invariant.InitialMovesStayBack | Chess/ChessEngine.py:207-215 | The same for all of `getAllMoves`, so no black piece is attacked at the start. |
| Evaluation.TablesBounded | Chess/SmartMoveFinder.py:13-68 | Every piece-square table is 8×8 with entries between 0 and 10. |
| Evaluation.PositionScore | Chess/SmartMoveFinder.py:126-127 | The positional weight of any piece on any cell lies between 0 and 10. |
| Evaluation.SquareScoreBound | Chess/SmartMoveFinder.py:124-132 | The contribution of one cell, in tenths, lies between -100 and 100. |
| Evaluation.RowScoreBound | Chess/SmartMoveFinder.py:122-132 | The contribution of c cells lies within ±100c. |
| Evaluation.RowsScoreBound | Chess/SmartMoveFinder.py:121-132 | The contribution of r rows lies within ±800r. |
| Evaluation.BoardScoreInside | Chess/SmartMoveFinder.py:120-133 | Without a flag, the score lies strictly between the checkmate values. |
| Evaluation.BoardScoreExtremes | Chess/SmartMoveFinder.py:111-118 | The score is within the checkmate values. It is +CHECKMATE exactly when checkmate is set with black to move, and -CHECKMATE exactly when it is set with white to move. |
| Evaluation.MaterialSwap | Chess/SmartMoveFinder.py:137-145 | Swapping every piece's colour negates `scoreMaterial`. |
| Evaluation.MaterialIgnoresKings | Chess/SmartMoveFinder.py:137-145 | Kings contribute nothing to `scoreMaterial`. |
| Evaluation.MaterialEmpty | Chess/SmartMoveFinder.py:137-145 | An empty board scores 0. |
| Evaluation.RowMaterialSwap | Chess/SmartMoveFinder.py:140-144 | One row with colours swapped scores the negation. |
| Evaluation.RowsMaterialSwap | Chess/SmartMoveFinder.py:139-144 | The same for the first r rows. |
| Evaluation.RowsMaterialKings | Chess/SmartMoveFinder.py:139-144 | Removing kings leaves the score of the first r rows unchanged. |
| Evaluation.RowsMaterialEmpty | Chess/SmartMoveFinder.py:139-144 | Empty rows score 0. |
| SmartMoveFinder.ScoreMaterial | Chess/SmartMoveFinder.py:137-145 | The nested loops compute `Material`: white's piece values minus black's. |
| SmartMoveFinder.ScoreBoard | Chess/SmartMoveFinder.py:111-133 | Returns `BoardScore` of the grid, side and flags, in tenths. |
| Search.LoopTurn | Chess/SmartMoveFinder.py:90-102 | One turn of the loop, given the child's outcome. A strictly better score raises `maxScore` and, at the root, sets `nextMove`. `alpha` is raised to `maxScore`, and the loop stops once `alpha >= beta`. |
| Search.BestMax | Chess/SmartMoveFinder.py:94-95 | Plain negamax's running maximum commutes with an extra lower bound. |
| Search.BestAtLeast | Chess/SmartMoveFinder.py:94-95 | The running maximum never drops below its start. |
| Search.LoopStep | Chess/SmartMoveFinder.py:93-102 | The bound relation between search and plain negamax survives one turn of the loop. |
| Search.LoopBounds | Chess/SmartMoveFinder.py:89-104 | From any turn on, the loop's score meets the plain maximum inside the window and bounds it outside. |
| Search.ChildBounds | Chess/SmartMoveFinder.py:93 | The recursive call with the window negated and swapped meets the child's plain value the same way. |
| Search.NegamaxBounds | Chess/SmartMoveFinder.py:85-104 | Alpha-beta is exact where plain negamax lies inside (alpha, beta), and on the same side of the window where it lies outside. |
| Search.FullWindowExact | Chess/SmartMoveFinder.py:75-82 | With the full window, as `findBestMove` calls it, pruning does not change the score. |
| Search.LoopRange | Chess/SmartMoveFinder.py:89-104 | The loop's score is at least the `maxScore` it starts with and at most CHECKMATE. |
| Search.NegamaxRange | Chess/SmartMoveFinder.py:85-104 | Every score lies between the checkmate values, and is -CHECKMATE at a depth above 0 when there is no move. |
| Search.BestRange | Chess/SmartMoveFinder.py:89-104 | The same bounds for plain negamax's running maximum. |
| Search.ValueRange | Chess/SmartMoveFinder.py:85-104 | Plain negamax lies between the checkmate values. |
| Search.LoopKeepsNextMove | Chess/SmartMoveFinder.py:96-97 | Below the root the loop never changes `nextMove`. |
| Search.KeepsNextMove | Chess/SmartMoveFinder.py:96-97 | A search at less than `DEPTH` leaves `nextMove` as it was. |
| Search.RootLoopChoice | Chess/SmartMoveFinder.py:94-97 | At the root, either the score and `nextMove` are unchanged, or the score rose and `nextMove` is one of the moves looped over. |
| Search.RootLoopFirstBest | Chess/SmartMoveFinder.py:89-102 | At the root, `nextMove` is the first move whose plain value is the best of all. |
| Search.BestMoveChoice | Chess/SmartMoveFinder.py:75-82 | `findBestMove` returns the first move of best plain negamax value, and its score is that value. It returns None exactly when the score is -CHECKMATE, in particular when there is no move. |
| GameTree.AmongAt | Chess/SmartMoveFinder.py:90 | Each entry of a list drawn from another is in that other list. |
| GameTree.AmongAll | Chess/SmartMoveFinder.py:92 | A list all of whose entries are in another list is drawn from it. |
| GameTree.PlayableAt | Chess/SmartMoveFinder.py:90-91 | Each move the search loops over is a valid move of its position. |
| GameTree.Kids | Chess/SmartMoveFinder.py:90 | A node has one branch per move from the i-th on. |
| GameTree.KidsAt | Chess/SmartMoveFinder.py:90-93 | The k-th branch is the branch of the k-th move. |
| GameTree.TreeEval | Chess/SmartMoveFinder.py:111-133 | A node holds `scoreBoard` of its position. |
| GameTree.TreeSize | Chess/SmartMoveFinder.py:87-90 | A node has one branch per move at a depth above 0 and none at depth 0. |
| GameTree.TreeMoves | Chess/SmartMoveFinder.py:90 | The branches hold the moves in the order the loop visits them. |
| GameTree.SearchEnds | Chess/SmartMoveFinder.py:85-104 | At depth 0 the search returns `turnMultiplier * scoreBoard` and leaves `nextMove` alone. Deeper, with no moves, it returns -CHECKMATE. |
| GameTree.BranchAt | Chess/SmartMoveFinder.py:90-93 | At a depth above 0 the k-th branch is the tree one level down from the position the k-th move leads to. |
| GameTree.TreeBounded | Chess/SmartMoveFinder.py:85-104 | When every score is within the checkmate values, so is every node of the tree. |
| GameTree.ChessScoresBounded | Chess/SmartMoveFinder.py:111-133 | `scoreBoard` never leaves the checkmate values. |
| GameTree.PlayStep | Chess/SmartMoveFinder.py:91-98 | A valid move can be made, leads to a reachable position whose valid moves can be searched, and is taken back exactly by `undoMove`. |
| GameTree.SubtreeAt | Chess/SmartMoveFinder.py:91-93 | The k-th branch holds the k-th move and the tree of the position it leads to, over the valid moves there, with checkmate set exactly when there are none. |
| SmartMoveFinder.Descend | Chess/SmartMoveFinder.py:91-92 | `makeMove` then `getValidMoves` reach the position the move leads to and its valid moves, with `checkmate` set exactly when there are none, `stalemate` still clear, and `stalemage` cleared once a candidate was tried. `undoMove` returns from there. |
| SmartMoveFinder.SearchAfter | Chess/SmartMoveFinder.py:91-98 | Making the k-th move, searching one level down and undoing it returns the child's outcome, and leaves the position as it was. |
| SmartMoveFinder.FindMoveNegaMaxAlphaBeta | Chess/SmartMoveFinder.py:85-104 | Returns what `Negamax` gives on the tree of positions from the state on entry, score and `nextMove` alike, and leaves the position as it was. At a depth above 0 with moves, the flags `undoMove` writes are cleared; otherwise they are untouched. |
| SmartMoveFinder.FindBestMove | Chess/SmartMoveFinder.py:75-82 | Returns `BestMove` on the tree of the moves in the order given. That is the first of them whose plain negamax value is the best, or None when there is none, and the position is as before. When there are moves, the last `undoMove` has cleared `checkmate` and `stalemage`; with none, both are unchanged. |
| SmartMoveFinder.BestMoveIsNegamax | Chess/SmartMoveFinder.py:75-82 | The root search scores the plain negamax value, and finds no move exactly when that value is -CHECKMATE. |

## Left out

- Chess/ChessMain.py is not part of this model: it is the pygame window, the event loop, image loading and click handling.
- `findRandomMove` is left out: it only draws a random index.
- The `random.shuffle` in `findBestMove` is left out. The move order is an input: `FindBestMove` searches the moves in the order it is given.
- The commented-out `findMoveNegaMax` call is not modelled.
- Floating point: `scoreBoard` weighs table entries by `.1`. The model works in tenths, ten times every score and CHECKMATE. Every piece value and table entry is an integer, so the scaled score is exact. Only `>` and `alpha >= beta` compare scores, and they give the same answers on the scaled values. The model does not capture float rounding on ties, where sums of `.1` terms that are equal in tenths could differ in the last binary digit.
- The global `nextMove` is an in/out parameter of the search, and the search returns the value it holds afterwards.
- The board is a value: the class field `board` is reassigned as a whole instead of being written cell by cell. No other object shares the grid, so aliasing is not modelled.
- The generators return the list they were given with their moves appended (`moves + …`), instead of appending to a list shared with the caller.
- `currentcastlerights` is a value: the source mutates that object in place, while its log holds copies, so nothing observes the difference.
- Python's negative-index wraparound, when a pawn stands on its last rank, is excluded by the precondition `PawnsOffLastRanks`. Promotion happens on arrival, so no reachable position has such a pawn.
- Preconditions the source leaves to its callers:
  - `Applicable` on `makeMove`: the move is on the grid, and a castle's and a promotion's extra cells exist;
  - `LogsAligned` on `undoMove`;
  - `WellFormed` on `getValidMoves`: the state of a reachable position;
  - `Valid` and `Playable` on the search: a reachable position and moves `getValidMoves` returned there;
  - `!gs.stalemate` on the search. The constructor clears `stalemate` and no method sets it, so the code meets this. A set flag would make every depth-0 leaf that still has moves score 0. It would last until `getValidMoves` clears it at some position without moves, because `undoMove` never touches `stalemate`.
- The count of 20 legal moves in the opening position is not proved. The model proves only that no white move in the opening position reaches beyond row 4 (`InitialMovesStayBack`).
- Chess/ChessMain.py is not modelled, but `BestMoveIsNegamax` has a consequence for it. `findBestMove` returns None while legal moves exist whenever every move loses to checkmate within `DEPTH`. The caller at ChessMain.py:104-108 then calls `findBestMove` once more, after a fresh shuffle, and passes that answer to `makeMove` even when it is None as well. This is derived from the model, not observed.
- The speed of `squareUnderAttack`, which regenerates every move of the other side for each query, is not modelled.
