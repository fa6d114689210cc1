# Connect 4 for Banter: the game engine and its lock-step coordinator

This project models the two parts of `Connect4.js` that decide what happens in a
shared Connect 4 game.

- **The `Connect4Game` engine.** A 6 × 7 board, read `board[row][col]` with row 0 at
  the bottom, holds 0 (empty), 1 (red) or 2 (yellow).
  - A move drops the mover's piece into the lowest empty row of a column.
  - `checkWin` scans every occupied cell in a fixed order: rows ascending, then
    columns ascending, then the directions horizontal, vertical, "/" and "\".
    At the first cell that starts four equal in-bounds cells, it records them as
    `winningCells`.
  - `checkDraw` reports a board with no empty cell.
  - `simulateDrop` computes the state a move would lead to, on a copy of the board.
  - `dropPiece` makes the same move in place.
  - `reset` starts a new game, and `loadState` adopts a received one.
- **The lock-step coordinator.** A click is never applied locally. It is checked
  against the committed game:
  - it is ignored once there is a winner or while the input lock is held;
  - otherwise it is simulated and, if accepted, the lock is taken and the candidate
    state is published to the shared space-state store under
    `connect4_game_<instance>`.
  - A change notification for that key brings the stored state back. Whoever
    published it, the state is loaded into the committed game and the lock is
    released.
  - At start-up, an existing stored state is adopted.
  - The reset button resets the committed game at once and publishes it.

Modules:
- `Board` (board.dfy): the board as a value, plus gravity.
- `Scan` (scan.dfy): the win scan, stated as "the first qualifying start in scan
  order".
- `Rules` (rules.dfy): the game state as a value, plus `Drop` (what `simulateDrop`
  returns), `Load` (what `loadState` leaves) and `Initial` (what `reset` leaves).
- `Engine` (engine.dfy): the `Connect4Game` class.
  - The board is an `array2<int>` that `dropPiece` writes in place.
  - The ghost field `Cells` holds the same board as a value.
  - Each method is proved against the functions of `Rules` and `Scan`.
- `Sync` (sync.dfy): the coordinator.
  - It is a class holding the committed game, the `isSyncing` lock and `outbox`.
    `outbox` is the sequence of `(key, state)` writes made to the store, oldest first.
  - JSON parsing is a parameter `parse: string -> Option<Payload>`.
  - The store's readable snapshot is a pair of public and protected property maps.

JavaScript's truthiness is modelled where the code relies on it.
- `winner` is `null`, a player number or `'draw'`. It is treated as set when it is
  `'draw'` or a non-zero number (`Winner.IsSet`).
- An empty string read from the store counts as absent (`Sync.ReadProperty`).

Quirks of the code that the model keeps on purpose:
- After a winning or drawing move, `currentPlayer` stays the mover.
- `loadState` never sets `gameOver` to true. Moves after a received win are stopped
  only by the `winner` guard in `handleColumnClick`.
- The reset button ignores the lock.
- A `checkWin` that finds nothing leaves `winningCells` as it was. This includes the
  `loadState` of a drawn game.
- A notification whose value does not parse leaves the lock held.
- The coordinator never calls `dropPiece`. Its moves reach the committed game only
  through `loadState` of the echoed state.

## Model

| member | source | states |
|---|---|---|
| Board.EmptyBoard | Connect4.js:73-75 | every cell of the new board is 0 |
| Board.EmptyBoardSettled | Connect4.js:73-75 | the empty board satisfies the gravity invariant (each column occupied contiguously from row 0) |
| Board.LowestEmptyFrom | Connect4.js:116-124 | scanning a column upwards from a row finds the first empty row at or above it, or None exactly when every such row is occupied |
| Board.LowestEmpty | Connect4.js:116-126 | None exactly when the column is full; otherwise an empty row with every row below it occupied |
| Board.Place | Connect4.js:118-119 | the new board equals the old one except at the one written cell, which holds the given value |
| Board.PlaceAtLowestKeepsSettled | Connect4.js:116-124 | on a board whose columns are filled contiguously from row 0, writing any value at a column's lowest empty row leaves every column filled contiguously from row 0 |
| Board.ColumnFullIffTopOccupied | Connect4.js:116-126 | on a gravity-respecting board a column is full exactly when its top cell is occupied |
| Scan.Next | Connect4.js:203-208 | the scan position after a start is a later position or the end of the scan; exactly the positions before it are the old start and those before the old start |
| Scan.RunCells | Connect4.js:209-214 | a run is four cells, from the start cell outwards, each one step of the direction after the previous |
| Scan.FirstRunFrom | Connect4.js:203-223 | the result is the first start at or after the cursor that opens four equal occupied in-bounds cells, with none qualifying in between; None exactly when nothing from the cursor on qualifies |
| Scan.FirstRun | Connect4.js:203-226 | `checkWin`'s stopping point: a qualifying start with no qualifying start earlier in scan order; None only when no start qualifies |
| Scan.HasRunIffSomeRun | Connect4.js:195-227 | `checkWin` answers true if and only if some occupied cell starts four equal in-bounds cells along one of the four directions |
| Scan.WinningLine | Connect4.js:219-221 | a line is recorded exactly when the scan succeeds, and it is the four cells of the first qualifying start in scan order, all in bounds and all holding that start's non-zero player |
| Scan.FirstRunUnique | Connect4.js:203-223 | any qualifying start with nothing qualifying before it is the one the scan stops at |
| Scan.NewRunContainsPlacedPiece | Connect4.js:172-177 | when one placement creates the board's first run, the recorded line passes through the placed cell, and the placed piece is a real piece that differs from what the cell held before |
| Rules.Other | Connect4.js:129 | the toggled player is always 1 or 2, and is the other one of 1 and 2 |
| Rules.Initial | Connect4.js:63-83 | all cells 0, player 1 to move, no winner, no winning line, game not over |
| Rules.Drop | Connect4.js:108-164 | rejected exactly when the game is over, the column is out of range or full. When accepted, the board changes only by the mover's piece at the lowest empty row. Win beats draw, and both keep the mover to play. Otherwise the winner is unchanged and the turn passes |
| Rules.Load | Connect4.js:85-96 | board, turn and winner are taken from the payload. An unset winner clears the line and `gameOver`. A set winner keeps `gameOver` and either records the scan's line or keeps the old one when the scan finds none |
| Rules.DropLandsAt | Connect4.js:113-163 | given the landing row, the accepted candidate is the placed board judged win first, then draw |
| Rules.JudgedPlacementIsDrop | Connect4.js:166-189 | a state reached by placing at the lowest empty row and judging as `dropPiece` does equals the candidate `simulateDrop` returns |
| Rules.DropKeepsSettled | Connect4.js:113-124 | an accepted drop keeps every column contiguous from row 0 |
| Rules.DropAcceptedIffTopEmpty | Connect4.js:108-126 | in a game in progress on a gravity-respecting board, a drop in a column of the board is accepted if and only if the column's top cell is empty |
| Rules.TurnAlternates | Connect4.js:129-160 | between players 1 and 2, an accepted drop that neither wins nor fills the board hands the turn to the other player of 1 and 2, whatever winner the game already carries |
| Rules.TwoDropsReturnTurn | Connect4.js:129-160 | after two such drops, the second made on the adopted result of the first, the turn is back with the player who made the first |
| Rules.EchoRecomputesWinningLine | Connect4.js:85-96 | a winning candidate, once adopted by any client, shows the mover as winner and the same line the scan records for that board |
| Rules.WinningDropUsesDroppedPiece | Connect4.js:140-152 | a win on a board that had no run goes through the dropped piece's cell, and the mover is a real player |
| Engine.NewGrid | Connect4.js:74 | a fresh array holding the given board |
| Engine.WriteCell | Connect4.js:118-119 | writing one array cell changes the held board at that cell only |
| Engine.Snapshot | Connect4.js:113 | the cloned board has the array's contents |
| Engine.Connect4Game.constructor | Connect4.js:63-71 | a fresh board array; the state is `Initial` |
| Engine.Connect4Game.Reset | Connect4.js:77-83 | a fresh board array; the state is `Initial` |
| Engine.Connect4Game.LoadState | Connect4.js:85-96 | the new state is `Load` of the old state and the payload |
| Engine.Connect4Game.GetState | Connect4.js:98-105 | board, turn and winner of the current state |
| Engine.Connect4Game.SimulateDrop | Connect4.js:108-164 | returns exactly `Drop` of the current state; it has no `modifies` clause, so the game is left unchanged |
| Engine.Connect4Game.DropPiece | Connect4.js:166-189 | answers true exactly when `Drop` accepts the move. On false nothing changes. On true, board, turn and winner equal `Drop`'s candidate, `gameOver` is set exactly on a win or a full board, and the line is the scan's, or the old one when there is no win |
| Engine.Connect4Game.LandPiece | Connect4.js:172-185 | the mover's piece is written at the given cell, in place, and the board is judged |
| Engine.Connect4Game.JudgeBoard | Connect4.js:176-184 | win first (mover wins, keeps the turn), then draw (keeps the turn), otherwise the turn passes. `gameOver` is set on a win or a draw. The line follows `checkWin` |
| Engine.Connect4Game.CheckDraw | Connect4.js:191-193 | true if and only if no cell is 0 |
| Engine.Connect4Game.CollectRun | Connect4.js:209-218 | the collected cells are a prefix of the run from the start; all four are collected if and only if the start qualifies |
| Engine.Connect4Game.CheckWin | Connect4.js:195-227 | answers true if and only if the scan finds a run. On success it records the first run in scan order, and on failure it leaves the line untouched. Nothing else changes |
| Sync.KeyFor | Connect4.js:517 | the key is exactly `connect4_game_` followed by the whole instance name |
| Sync.KeyForInjective | Connect4.js:517 | different instances never share a key |
| Sync.ReadProperty | Connect4.js:585 | the read is absent exactly when neither map holds a non-empty string under the key; a value read is non-empty and comes from one of the two maps, and a non-empty public value always wins |
| Sync.Coordinator.constructor | Connect4.js:231-238 | a new game in its initial state, lock released, nothing published |
| Sync.Coordinator.SyncState | Connect4.js:516-522 | appends exactly one write under the game's key: the given state, or the committed game's state when none is given |
| Sync.Coordinator.HandleColumnClick | Connect4.js:500-514 | with a winner set, the lock held or the move rejected: lock and outbox unchanged. Otherwise the lock is taken and exactly `Drop`'s candidate is published. The committed game never changes |
| Sync.Coordinator.ResetClicked | Connect4.js:410-414 | the committed game is reset whether or not the lock is held, and the initial state is published; the lock is not touched |
| Sync.Coordinator.OnSpaceStateChanged | Connect4.js:577-598 | a notification naming the key, with a value that parses, loads that value and releases the lock. Otherwise game and lock are unchanged. Nothing is published |
| Sync.Coordinator.CheckForExistingState | Connect4.js:553-575 | a stored value that parses is loaded, otherwise nothing changes; the lock and the outbox are never touched |

## Left out

- Scene construction, input colliders, the reset button's geometry, and `updateVisuals`
  (`setupScene`, `getGeoArgs`, `createBanterObject`). They are 3D rendering through
  the Banter SDK.
- `parseVector3` and `hexToVector4`: floating-point and colour parsing for the scene.
- The script-parameter and URL parsing that builds `config`, and `init`. They are
  DOM and SDK plumbing. The instance name is a constructor parameter instead.
- `lastModified` and `Date.now()`: clock input that no rule reads. `Payload` has no
  such field.
- The JSON format. `JSON.stringify` is dropped, because the outbox holds the state
  itself. `JSON.parse` is the `parse` parameter, and a thrown parse error is its
  `None`.
- Sync.Coordinator.OnSpaceStateChanged: a parsed payload is assumed to carry a 6 × 7
  grid of numbers. A `loadState` that throws part-way on a malformed board, after
  some fields are already assigned, is not modelled.
- Sync.Coordinator.CheckForExistingState: the same assumption about parsed payloads
  applies.
- The store itself: delivery, ordering and concurrent writers from other clients.
  Notifications are method calls with the store's snapshot as an argument.
- Engine.Connect4Game.LoadState: the model copies the payload's board into a fresh
  array, where `loadState` adopts the received array object itself. The model does
  not capture aliasing between the payload and the game's board.
- Engine.Connect4Game.GetState: the returned board is a value. In the code it is the
  live array, which `JSON.stringify` serialises at once.
- The `rows`/`cols` fields are the constants 6 and 7. The code never changes them,
  except to copy them into the temporary game.
- Console logging.
