# A 4×4 capture game, modelled in Dafny

The game is played on a 4×4 board held as 16 integers in row-major order:
0 is an empty cell, a positive value is a white piece and a negative value a
black piece, each piece carrying its own number. A side moves one of its
pieces one step up, down, left or right onto an empty cell. The pieces that
the move then "presses" on the moved piece's row or column are captured. A
side that cannot move loses.

The model covers four parts of the program.

- **The capture rule engine** (`rules.dfy`, module `Rules`). This is
  `checkLineRule`, `defaultRule`, `checkLine` and `checkBoard` of
  `src/utils/game.ts`.
  - A line of four cells is encoded as a decimal code: one digit per cell,
    0 for empty, 1 for the mover, 2 for the opponent.
  - The code is matched against the table of six named rules.
  - The matching offsets are mapped back to board cells.
- **The terminal test** (`terminal.dfy`, module `Terminal`). This is
  `checkGameOver`: the side opposite the one that just moved has no piece
  with an empty orthogonal neighbour.
- **The move search** (`search.dfy`, module `Search`; `legacy.dfy`, module
  `Legacy`). These are the two copies of `aiNextStep`: `GameUtils.aiNextStep`
  of `src/utils/game.ts` and the older one of `src/utils/ai.ts`, which
  brings its own hard-wired capture test.
  - Both build one candidate per legal move, in board order.
  - Each candidate is scored over three more plies, with weights ±1/3^deep.
  - game.ts returns the first best candidate. ai.ts returns that candidate
    or the second place, depending on a random draw.
  - One recursive scoring function, parametrised by the capture test
    (`Engine`), serves both copies.
- **The game store** (`store.dfy`, module `Store`). This is the state record
  of `src/stores/gameStore.ts` and its actions:
  - `handlePieceMove`, with the step guard and the half-turn mirroring for
    the white player;
  - the store's own string-pattern `checkBoard` and end test;
  - the lone-piece draw counter with `checkOnlyOnePiece`;
  - `handleRestart`, `changeSelfColor`, `syncByFrameData` and the `pieces`
    getter.
- `grid.dfy` (module `Grid`) holds the shared board vocabulary: legal steps,
  `findIndex` over neighbours, cell removal, piece counts and JavaScript's
  remainder.

The three capture tests and the two searches are tied together by proofs:
- the store's capture equals `GameUtils.checkBoard` with only 二打一 enabled;
- ai.ts's capture equals the same;
- the two searches return the same move whenever ai.ts's draw exceeds 0.2;
- a search returns no move exactly when `checkGameOver` says the game is
  over.

## Model

| member | source | states |
|---|---|---|
| Grid.FirstOpen | src/utils/game.ts:255-263 | the result is -1 when no neighbour in the list is an empty cell inside the grid, and otherwise is the position of the first neighbour that is |
| Grid.LegalSteps | src/utils/game.ts:95-112 | the legal one-step moves of a side, each exactly once, in board order and then up, down, left, right; a step is listed iff it is legal |
| Grid.RemoveCells | src/stores/gameStore.ts:179-181 | clearing the captured cells leaves every listed cell empty and every other cell as it was |
| Grid.CountSide | src/stores/gameStore.ts:229-231 | the number of pieces of a side is at most the board's length, and is 0 exactly when no cell holds a piece of that side |
| Rules.Patterns | src/utils/game.ts:18-41 | each rule has at least one entry; every entry captures at least one position, each position in 0..3, and its code lies in [0, 2222] |
| Rules.TableCodesDistinct | src/utils/game.ts:18-41 | no two of the twelve table entries share a code, so at most one entry can match a line |
| Rules.CapturedClass | src/utils/game.ts:21-40 | every capture offset of an entry is a position 0..3 holding digit 2 (an opponent); for the two 一挑二 entries it is the digit-1 position; the offsets of an entry are distinct |
| Rules.LineCodeDigits | src/utils/game.ts:184-190 | a line's code is 1000, 100, 10, 1 times the classes of its four cells, lies in [0, 2222], and each cell's class reads back as the matching digit |
| Rules.CheckLineMatch | src/utils/game.ts:191-201 | checkLine returns the offsets of the one table entry whose code is the line's code when that entry's rule is enabled, and nothing otherwise |
| Rules.CheckLine | src/utils/game.ts:178-202 | every captured offset is a position 0..3 of the line (its exact value is stated by Rules.CheckLineMatch) |
| Rules.CheckBoard | src/utils/game.ts:212-238 | every captured index is a board cell on the destination's row or column |
| Rules.CheckBoardCells | src/utils/game.ts:218-236 | the captures are the row offsets placed at row r, column o, followed by the column offsets placed at row o, column c, with checkLine asked for the side of the destination piece |
| Rules.MoverIsDigitOne | src/utils/game.ts:218-232 | the mover's side is read from the destination's sign, so the destination is digit 1 in both its row code and its column code |
| Rules.CapturesAvoidMover | src/utils/game.ts:212-238 | without 一挑二, checkBoard never returns the destination and never returns a cell twice |
| Rules.CheckBoardLocal | src/utils/game.ts:218-232 | two boards that agree on the destination's row and column get the same captures |
| Rules.CheckBoardColourBlind | src/utils/game.ts:184-190 | negating every cell leaves the captures of an occupied destination unchanged |
| Rules.DefaultRuleOnlyTwoPressOne | src/utils/game.ts:51-58 | the default rule object has distinct keys and enables exactly 二打一 |
| Terminal.ScanEnd | src/utils/game.ts:246-271 | the scan reports "over" exactly when no piece of the side opposite the mover, from the scan position on, has an open neighbour |
| Terminal.CheckGameOver | src/utils/game.ts:246-271 | the game is over exactly when no piece of the side opposite the mover has an open neighbour |
| Terminal.GameOverIffStuck | src/utils/game.ts:246-271 | checkGameOver(board, s) holds exactly when the side opposite s has no legal one-step move |
| Terminal.GameOverWithoutPieces | src/utils/game.ts:246-271 | a side with no pieces cannot move, so the game is over |
| Legacy.FirstMatch | src/utils/ai.ts:112-117 | the result is the offsets of the first entry whose code is the line's code, and nothing when no entry carries that code |
| Legacy.FirstMatchIsOnlyMatch | src/utils/ai.ts:112-117 | with distinct codes, returning the first matching entry equals collecting every matching entry |
| Legacy.LegacyTable | src/utils/ai.ts:97-102 | ai.ts's four entries are game.ts's 二打一 entries with 10000 added to each code, and their codes are distinct |
| Legacy.CheckLineAgrees | src/utils/ai.ts:104-118 | ai.ts's checkLine, whose code starts at 10000, equals game.ts's checkLine with only 二打一 enabled |
| Legacy.CheckLine | src/utils/ai.ts:104-118 | every captured offset is a position 0..3 of the line (its exact value is stated by Legacy.CheckLineAgrees) |
| Legacy.CheckBoard | src/utils/ai.ts:120-143 | every captured index is a board cell on the row or column of the destination |
| Legacy.CheckBoardAgrees | src/utils/ai.ts:120-143 | ai.ts's checkBoard equals game.ts's checkBoard with only 二打一 enabled when the side passed in is the destination piece's side |
| Search.ScaleValue | src/utils/game.ts:75-93 | the score scale is +1 for the AI's own side and -1 for the other, times 1/3^deep below the root |
| Search.Play | src/utils/game.ts:127-145 | a played step leaves its source cell empty, its destination holding the piece or emptied by a capture, and every other cell as it was or emptied; with no capture the board is exactly the moved board |
| Search.MoveScore | src/utils/game.ts:122-150 | no contract of its own: the score of one step, the step point, ten per capture and the replies below; Search.MoveScoresAgree and Search.MoveScoreFlip state its properties |
| Search.Outcome | src/utils/game.ts:133-150 | no contract of its own: the step and capture points at this depth's scale plus, above the last ply, the replies on the cleared board; see Search.MoveScoreFlip |
| Search.ReplyScore | src/utils/game.ts:95-157 | no contract of its own: the scan over every piece and direction below the root, a point lost per blocked direction; see Search.MoveScoresAgree and Search.MoveScoreFlip |
| Search.Candidates | src/utils/game.ts:113-121 | one candidate per legal step of the side to move, in scan order, carrying the piece number and the target cell |
| Search.CandidatesAreLegalSteps | src/utils/game.ts:95-121 | every candidate describes a legal step of the side to move, and every legal step has a candidate |
| Search.Best | src/utils/game.ts:159-164 | the head of a stable descending sort: a candidate of highest score with every earlier candidate scoring strictly less |
| Search.RunnerUp | src/utils/ai.ts:88-92 | the second place of a stable descending sort: not the head, and the first of highest score among the rest |
| Search.AiNextStep | src/utils/game.ts:159-167 | no move exactly when checkGameOver(board, !stepIsWhite); otherwise a candidate of highest score |
| Search.AnswerIsLegal | src/utils/game.ts:95-165 | the move the search returns is a legal one-step move of the side to move |
| Search.Pick | src/utils/ai.ts:88-94 | nothing from no candidates, the only candidate of one, and otherwise a top candidate when the draw exceeds 0.2 and a second-place one otherwise |
| Search.LegacyAiNextStep | src/utils/ai.ts:88-94 | ai.ts's search returns no move exactly when the game is over, and otherwise one of its candidates, a top one when the draw exceeds 0.2 |
| Search.PlayAgrees | src/utils/ai.ts:56-65 | playing a legal step through ai.ts's capture and through game.ts's with only 二打一 gives the same board and capture count |
| Search.MoveScoresAgree | src/utils/ai.ts:54-83 | both copies give every move the same score at every depth when only 二打一 is enabled |
| Search.LegacyAgrees | src/utils/ai.ts:88-94 | with a draw above 0.2, ai.ts's search returns exactly what game.ts's returns with only 二打一 enabled |
| Search.MoveScoreFlip | src/utils/game.ts:90-154 | running the search for the other side negates the score of every move |
| Store.Pieces | src/stores/gameStore.ts:42-57 | one entry per occupied cell, in board order, each with the cell's row, column, number and colour |
| Store.PiecesRoundTrip | src/stores/gameStore.ts:42-57 | drawing the listed pieces onto an empty board gives back the board |
| Store.IndexOf | src/stores/gameStore.ts:67 | the first cell holding the number, or -1 exactly when no cell holds it |
| Store.DropOnShownCell | src/stores/gameStore.ts:87-100 | a drop on the displayed cell that shows board cell (r, c) places the piece on (r, c); for the white player that displayed cell is (3 - r, 3 - c) |
| Store.ShownMoveIsPlay | src/stores/gameStore.ts:87-102 | dragging the piece of a legal step onto the displayed cell that shows its destination is accepted, lands the piece there, and yields the board the search plays for the step |
| Store.AbsentCannotDrop | src/stores/gameStore.ts:67-98 | a piece that is not on the board sits at (-1, -1) under JavaScript's floor and remainder, which is no step from any cell |
| Store.AbsentNeverMoves | src/stores/gameStore.ts:66-123 | a number on no cell leaves the state unchanged |
| Store.DropIffStep | src/stores/gameStore.ts:93-98 | for a piece of a side, the guard holds exactly when the target is an empty in-grid cell one step from the piece |
| Store.Placed | src/stores/gameStore.ts:99-100 | the piece's first cell is cleared, the number is written on the target, and no other cell changes |
| Store.HandlePieceMove | src/stores/gameStore.ts:66-123 | a rejected drop changes nothing; an accepted one adds exactly one step; the turn passes exactly when the game goes on; the player's colour is kept |
| Store.Mark | src/stores/gameStore.ts:130-138 | O, X and Y mark an empty cell, a piece of the side to move and a piece of the other side, each exactly |
| Store.StoreCheckLine | src/stores/gameStore.ts:140-163 | a line gives at most one capture, a cell of the line holding a piece of the other side |
| Store.Captures | src/stores/gameStore.ts:164-177 | at most two captures, each a piece of the other side on the destination's row or column |
| Store.StoreLineAgrees | src/stores/gameStore.ts:140-163 | the store's line test captures the cells game.ts's checkLine returns with only 二打一 enabled |
| Store.StoreCaptureAgrees | src/stores/gameStore.ts:129-181 | the store's captures equal game.ts's checkBoard with only 二打一 enabled whenever the destination holds a piece of the side to move |
| Store.CheckBoard | src/stores/gameStore.ts:129-220 | the board loses exactly the store's captures; the game ends, as a win of the mover, exactly when the other side cannot move; nothing else changes |
| Store.SurviveTurn | src/stores/gameStore.ts:103-115 | a running counter grows by one in magnitude, keeping its sign, exactly when its own side moved in a game still going on; reaching eleven ends the game as a draw |
| Store.CheckOnlyOnePiece | src/stores/gameStore.ts:225-235 | an inactive counter starts at -1 or +1 exactly when the side opposite the mover (black or white) has one piece left; otherwise nothing changes |
| Store.PassTurn | src/stores/gameStore.ts:116-119 | an ended game keeps the turn; otherwise the turn flips once and the counter may start for the side now to move |
| Store.AfterDrop | src/stores/gameStore.ts:99-119 | an accepted drop adds one step, and the turn passes exactly when the game goes on |
| Store.MoveShape | src/stores/gameStore.ts:99-119 | an accepted drop is the capture test on the placed board, then the counter step, then the hand-over of the turn |
| Store.MoveBoard | src/stores/gameStore.ts:99-181 | after an accepted drop the board is the placed board with the store's captures removed |
| Store.MoveIsPlay | src/stores/gameStore.ts:93-102 | dragging a piece of the side to move onto the target of a legal step is accepted and yields the board the search plays for that step |
| Store.MoveEnds | src/stores/gameStore.ts:102-119 | after a move the game is over exactly when it was, when the other side cannot move, or when the mover was the lone side at its tenth surviving turn |
| Store.MoveEndReason | src/stores/gameStore.ts:103-119 | a stuck opponent is recorded as the mover's win, ahead of a draw; a tenth surviving turn is recorded as a draw; otherwise the reason is kept |
| Store.MoveCounter | src/stores/gameStore.ts:103-119 | a running counter keeps its sign and grows by one exactly when its side moved and the game went on; an inactive one starts at one for the side to move exactly when that side has one piece and the game goes on |
| Store.MoveKeepsCounterOk | src/stores/gameStore.ts:103-115 | the counter's magnitude never exceeds eleven, and at eleven the game is over |
| Store.OtherActionsKeepCounterOk | src/stores/gameStore.ts:240-252 | restarting and switching sides keep the counter within its bound |
| Store.MoveKeepsCounts | src/stores/gameStore.ts:99-181 | any accepted drop, whichever piece is dragged, keeps the piece count of the side to move and never raises the other side's |
| Store.MoveKeepsDistinct | src/stores/gameStore.ts:99-100 | piece numbers stay unique through any move |
| Store.DefaultBoardDistinct | src/stores/gameStore.ts:22 | the starting board has unique piece numbers |
| Store.HandleRestart | src/stores/gameStore.ts:240-246 | the starting state (default board, no steps, black to move, no counter, not ended) with the player's colour and the last end reason kept |
| Store.ChangeSelfColor | src/stores/gameStore.ts:248-252 | the player's colour flips exactly when no step has been made, and nothing else changes |
| Store.RestartAllowsSwitch | src/stores/gameStore.ts:240-252 | after a restart the player may always switch sides, and restarting twice is restarting once |
| Store.SyncByFrameData | src/stores/gameStore.ts:257-261 | every field present in the frame is overwritten with its value and every absent field is kept |
| Store.Snapshot | src/stores/gameStore.ts:12-20 | a frame carrying every field reproduces its state whatever state it is applied to |
| Store.SyncIdempotent | src/stores/gameStore.ts:257-261 | applying a frame twice is applying it once, and an empty frame changes nothing |

## Left out

- Pixel-to-cell mapping (`boardSize`, `boardEdgeSize`, `boardGridSize`, `pieceRadius`, `Math.round` and the clamping at src/stores/gameStore.ts:29, 39-41 and 71-85) is floating-point layout. The clamped displayed cell (calcRow, calcCol) is an input of `Store.HandlePieceMove`.
- `piecesRedraw` is a render token drawn from `Math.random()` and is not modelled. On a rejected drop it is the only field that changes, so the model's state is unchanged.
- The `Math.random()` draw of src/utils/ai.ts:91 is the `draw` parameter of `Search.Pick` and `Search.LegacyAiNextStep`.
- The module-level `nextSteps` of src/utils/ai.ts is cleared on every top-level call, so the search is a pure function of its arguments and the draw.
- Both searches recurse to depth 3 on a copy of the board. The model is pure, so the caller's board is never changed and the depth bound is the termination measure.
- AI scores are exact reals, not IEEE doubles. `Search.Best`, `Search.RunnerUp`, `Search.AiNextStep` and `Search.LegacyAgrees`: their tie-breaking and equality claims hold for the real-valued model. With doubles, rounding could reorder near-equal scores.
- Search.Best: the JavaScript sort is modelled only by its first two places (`Search.Best`, `Search.RunnerUp`), which are all the program reads. The sort is stable and runs only when there are at least two candidates.
- `gameEndBecause` is a display string. It is the enum `Store.EndReason`, with one constructor per message.
- Store.SyncByFrameData: a frame is a record of optional fields of the right types. A key present with the value `undefined`, a board of another length and keys outside the record (the source's `as any`) are not modelled.
- An unknown rule key set to true would throw at src/utils/game.ts:194; one set to false is skipped at src/utils/game.ts:193 and changes nothing. Rule names are a datatype of the six named rules, whose twelve entries make up the table, so no behaviour is lost. A rule object is a sequence of (name, enabled) pairs in key order, with distinct names.
- The two 一挑二 entries (codes 2120 and 0212) capture the piece that has just moved. Their only digit 1 is the destination (`Rules.MoverIsDigitOne`), and their offset points at that digit (`Rules.CapturedClass`). The table reproduces this as written.
- A drop of the number 0 (an empty cell's value) is modelled as written: `findIndex` finds the first empty cell, which the guard then treats as the piece's position.
- The store's end-of-game scan (src/stores/gameStore.ts:185-213) is the same loop as `checkGameOver` and is modelled by `Terminal.CheckGameOver`.
- `handlePieceMove` checks neither whose turn it is, nor the colour of the dragged piece, nor whether the game has ended. The model keeps that.
- The game has no move history or undo.
- `GameUtils.log`, the network channel, local storage, toasts, the log store, routing and build configuration are outside the game logic.
