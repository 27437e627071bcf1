# Tic-tac-toe rules engines, modelled in Dafny

This project models the two game engines of a browser tic-tac-toe site and
proves their rules.

- **The multiplayer session (game.js).** Each of the two players' browsers
  holds the session's module-level state: the cached room record
  (`currentGame`), the player (`currentPlayer`), the board size, the flat
  `cells` array, the `isMyTurn` flag and the player's symbol. A click on a
  cell is guarded by the turn flag and by the cell being empty. It then
  places the symbol and decides win or draw. Last, it works out the room
  update to write to the hosted `rooms` table (`board_state`,
  `current_turn`, `status`, `winner_id`). A room record coming back, from a
  fetch or a change notification, replaces the board and sets the turn
  flag. Leaving a playing room writes a forfeit.
- **The local hot-seat game (script.js).** Two people share one 5×5 board.
  X opens, a win adds a point to the winner's score, and restart clears the
  board but keeps the scores.

Files:

- `board.dfy` (module `Board`): the cell values `Empty | X | O`, the marks,
  and the flat layout (row r, column c at `r*n + c`). It also holds the
  line rule `LineWin`: some full row, full column, or one of the two main
  diagonals is all one value. A read outside the array never matches,
  because JavaScript reads `undefined` there.
- `session.dfy` (module `Session`): the room record and the two kinds of
  room update as datatypes. It has pure functions for what a click writes
  (`MoveUpdateFor`), for the turn flag derived from a record
  (`TurnAfterUpdate`) and for the forfeit (`ForfeitFor`). The class
  `GameSession` holds the module-level state.
  - Its methods are proved against those functions.
  - The line check is four loops over the `cells` array, each with its own
    flag, as in game.js's `checkWin`.
- `hotseat.dfy` (module `HotSeat`): the page state as a value `Snapshot`,
  with the click (`Clicked`) and the restart (`Restarted`) as functions on
  it. The invariant `Inv` holds in every reachable state. The class `Game`
  updates the cells array in place and is proved to follow `Clicked` and
  `Restarted`.
- `wrappers.dfy`: `Option`, standing for JavaScript's `null`.

The store's update of a room is not a call here. `HandleCellClick` and
`LeaveGame` return the update as a `RoomUpdate` value. `Apply` gives the
record the store holds once the update is applied.

The model follows the code, which:

- writes the mover as `current_turn` when a move ends the game, rather
  than clearing it;
- has no typed errors, no host≠guest guard, no rollback of the local mark
  when the write fails, and no broadcast path;
- does not look at the room's status on a click;
- does not clear `isMyTurn` on a click. The flag changes only when a room
  record comes back;
- leaves `isMyTurn` as it was on a `finished` record. So the player who
  held the turn when the other player left can still click. That click
  writes the room back to `playing` with no winner
  (`ForfeitCanBeOverwritten`). A winner who clicks again is written as
  winner once more (`WinnerClickStaysWon`);
- passes a change notification straight to `updateGameState`, without
  refreshing the cached room. So `leaveGame` and the opponent in a move
  update read the room as last fetched. A host who fetched the room before
  the guest joined writes no `current_turn` on a continuing move, and then
  neither player holds the turn (`StaleCacheStallsTurn`).

## Model

| member | source | states |
|---|---|---|
| `Session.SymbolFor` | game.js:35-36 | The player's symbol is X exactly when they are the room's host, and O otherwise |
| `Session.GameSession.constructor` | game.js:17-23 | Before any game: no room, no player, board size 3, no cells (a newly allocated empty array), not my turn, empty symbol |
| `Session.GameSession.GameInitialize` | game.js:28-39 | Stores the room and the player and takes the board size from the room. Sets the symbol by `SymbolFor` and lays out board_size² empty cells. Leaves the turn flag alone |
| `Session.GameSession.SetupGame` | game.js:126-132 | A fresh cell array of exactly boardSize·boardSize cells, all empty |
| `Session.GameSession.UpdateGameState` | game.js:90-121 | A present board replaces the cells. Status waiting clears the turn flag. Status playing sets it iff `current_turn` is my id. Status finished leaves it unchanged |
| `Session.GameSession.ApplyRoomDetails` | game.js:71-81 | A fetched room replaces the cached room, and the state is then updated from it as by `UpdateGameState` |
| `Session.GameSession.HandleCellClick` | game.js:181-213 | A click that is not my turn, or on a cell that is not empty or not on the board, changes no cell and writes nothing. An accepted click puts my symbol in that cell, leaves every other cell as it was, and writes `MoveUpdateFor` of the new board |
| `Session.MoveUpdateFor` | game.js:189-212 | The write carries the board. Status is finished iff the mover has a line or the board is full, and playing otherwise. Winner is the mover iff they have a line, else null. The turn goes to the opponent while playing and stays with the mover once finished |
| `Session.OutcomeExclusive` | game.js:190-194 | Win and draw are never both true. A draw is exactly a finished status with no winner, and a win is a finished status with a winner |
| `Session.HandOff` | game.js:197-202 | With two distinct participants, when the mover's cached room names both participants as the stored record does, once the store applies the move's update: while playing, the opponent's session derives "my turn" and the mover's does not. After a finishing move both flags stay as they were |
| `Session.StaleCacheStallsTurn` | game.js:197-202 | When the host's cached room has no guest but the stored room has one, a move that neither wins nor fills the board leaves the stored room playing with no current turn, so neither participant's session derives "my turn" |
| `Session.WinnerClickStaysWon` | game.js:187-212 | A winner whose turn flag survived the finish clicks an empty cell: the write is again finished, with them as winner and as current turn |
| `Session.GameSession.CheckWin` | game.js:229-263 | True exactly when `LineWin` holds for the cells, the board size and the symbol |
| `Session.GameSession.RowsWin` | game.js:231-237 | True exactly when some row r in 0..n-1 has all of r*n+c equal to the symbol |
| `Session.GameSession.ColumnsWin` | game.js:240-246 | True exactly when some column c has all of r*n+c equal to the symbol |
| `Session.GameSession.DiagonalWins` | game.js:249-253 | True exactly when all cells i*(n+1) hold the symbol, which is square (i, i) |
| `Session.GameSession.AntiDiagonalWins` | game.js:256-260 | True exactly when all cells i*n+(n-1-i) hold the symbol |
| `Session.GameSession.LeaveGame` | game.js:304-329 | Writes an update iff the cached room is playing. That update is status finished with the opponent as winner, and otherwise nothing is written |
| `Session.ForfeitAwardsOpponent` | game.js:311-323 | With two distinct participants, leaving a playing room yields a finished record whose winner is the other participant, with the board untouched. In any other status there is no update |
| `Session.ForfeitCanBeOverwritten` | game.js:118-120 | After the host forfeits, a guest who held the turn keeps it. Their next click that neither wins nor fills the board writes the room back to playing with no winner |
| `Session.TopRowWinFinishes` | game.js:190-211 | On a 3×3 board where the host's X fills cells 0, 1 and 2, the write is finished, the winner is the host and the turn stays with the host |
| `Session.FullBoardWithoutLineIsDraw` | game.js:191-194 | A full 3×3 board with no X line, filled by X, is a draw: finished with no winner |
| `Board.PlacingKeepsLine` | game.js:187 | Filling an empty cell, with any value, never breaks a complete line of a mark |
| `Board.NoLineWithoutMark` | game.js:229-263 | On a board of size at least 1, a value that is on no cell has no line |
| `Board.PlacingCounts` | script.js:32 | Placing a mark on an empty cell adds one to that mark's count, removes one empty cell and leaves the other mark's count alone |
| `HotSeat.Game.constructor` | script.js:7-10 | The page starts with 25 empty cells, X to move, the game open and scores X:0, O:0, which satisfies `Inv`. The cells array is newly allocated, so clicks can follow |
| `HotSeat.InitialInv` | script.js:7-10 | The initial state satisfies the invariant: 25 cells, both scores present, X and O counts balanced with X to move |
| `HotSeat.Game.HandleClick` | script.js:30-46 | The new state is `Clicked` of the old state, and the invariant is kept |
| `HotSeat.Clicked` | script.js:30-46 | A click keeps the board length and both score entries |
| `HotSeat.RejectedClickChangesNothing` | script.js:31 | A click on an occupied cell, off the board, or after the game is over leaves the whole state unchanged |
| `HotSeat.OneMarkPerClick` | script.js:32 | An accepted click sets only the clicked cell, to the current player's mark, and removes exactly one empty cell |
| `HotSeat.ClickOutcome` | script.js:34-45 | A win ends the game, keeps the current player and adds exactly 1 to the winner's score only. A full board without a win ends the game with the scores unchanged. Otherwise the turn passes X↔O and the game stays open |
| `HotSeat.ScoresNeverDecrease` | script.js:34-38 | No score goes down on a click or a restart. A click adds at most one point in all, and adds one exactly when it is an accepted winning click |
| `HotSeat.ClickedKeepsInv` | script.js:30-46 | Every click, accepted or not, keeps the invariant |
| `HotSeat.TurnParity` | script.js:42-44 | While the game is open, X is to move iff X and O have placed equally many marks. In every reachable state count(X) − count(O) is 0 or 1 |
| `HotSeat.Game.Restart` | script.js:97-103 | New empty cells, X to move, the game open, the scores kept; the invariant holds |
| `HotSeat.RestartedKeepsInv` | script.js:97-101 | Restarting from any reachable state gives a state that satisfies the invariant |
| `HotSeat.Game.CheckWin` | script.js:48-90 | The hard-coded 5×5 check is true exactly when `LineWin` holds at size 5, the same rule as the general n×n check |
| `HotSeat.Game.RowsWin` | script.js:50-59 | True exactly when some row r has all of r*5+c equal to the player |
| `HotSeat.Game.ColumnsWin` | script.js:61-70 | True exactly when some column c has all of r*5+c equal to the player |
| `HotSeat.Game.DiagonalWins` | script.js:72-79 | Cells i*6 for i in 0..4 are exactly the squares (i, i) |
| `HotSeat.Game.AntiDiagonalWins` | script.js:81-88 | Cells i*4 for i in 1..5 (4, 8, 12, 16, 20) are exactly the anti-diagonal squares (i, 4-i) |

## Left out

- The hosted database and realtime service, which are external services:
  - the query in `fetchRoomDetails`; only its effect on success is modelled, as `ApplyRoomDetails`;
  - the change subscription in `setupRealtimeGame` and its unsubscribe in `leaveGame`;
  - the awaited `rooms` updates, which are returned as values instead;
  - `saveGameHistory`;
  - error logging.
- The outcome of a room write is not a parameter. The code does nothing locally with it, and the mark stays either way.
- Interleaving across the `await` in `handleCellClick` and `leaveGame` is not modelled. Each handler runs as one atomic step.
- `JSON.parse` of a string `board_state` and its error path: the board arrives as a sequence.
- After `updateGameState`, `cells` is the very array of the room record; the model copies it into a fresh array.
- Session.GameSession.UpdateGameState: requires a player when the status is playing. In the code, a playing record before initialisation throws a TypeError after the board is already replaced.
- Status values other than waiting, playing and finished are not modelled.
- DOM rendering, which is UI only:
  - `drawBoard` in both files;
  - the active and winner class toggles;
  - the status texts and `gameOver`;
  - the injected CSS;
  - the "win" highlighting inside the 5×5 `checkWin`;
  - `updateScore`.
- Player and room names, which are display only.
- supabase.js (client configuration), login.js (player lookup and storage), lobby.js (whose handlers are stubs) and the build scripts are not part of this model.
