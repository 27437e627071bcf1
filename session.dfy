/**
 * One browser's side of a multiplayer game (game.js): the module-level
 * session state, the click handler that places a mark and works out the
 * room update to write, the turn derivation from a room record, and the
 * forfeit on leaving. Writes to the hosted rooms table are returned as
 * `RoomUpdate` values; `Apply` says what the store then holds.
 */
module Session {
  import opened Wrappers
  import opened Board

  type PlayerId = string
  type RoomId = string

  datatype Status = Waiting | Playing | Finished

  /** A record of the rooms table as the session reads it. */
  datatype Room = Room(
    id: RoomId,
    hostId: PlayerId,
    guestId: Option<PlayerId>,
    boardSize: nat,
    boardState: Option<seq<Cell>>,
    currentTurn: Option<PlayerId>,
    status: Status,
    winnerId: Option<PlayerId>)

  /** The fields one update of a room writes; every other field keeps its value. */
  datatype RoomUpdate =
    | MoveUpdate(boardState: seq<Cell>, currentTurn: Option<PlayerId>, status: Status, winnerId: Option<PlayerId>)
    | ForfeitUpdate(status: Status, winnerId: Option<PlayerId>)

  /** The record the store holds after applying `u` to `room`. */
  function Apply(room: Room, u: RoomUpdate): (r: Room)
  {
    match u
    case MoveUpdate(board, turn, status, winner) =>
      room.(boardState := Some(board), currentTurn := turn, status := status, winnerId := winner)
    case ForfeitUpdate(status, winner) =>
      room.(status := status, winnerId := winner)
  }

  /** The host plays X; every other player plays O. */
  function SymbolFor(room: Room, me: PlayerId): (m: Mark)
    ensures m == X <==> me == room.hostId
    ensures m == O <==> me != room.hostId
  {
    if room.hostId == me then X else O
  }

  /** The other participant as seen from `me`: the guest (possibly absent) for the host, else the host. */
  function Opponent(room: Room, me: PlayerId): (opp: Option<PlayerId>)
  {
    if me == room.hostId then room.guestId else Some(room.hostId)
  }

  /** Both participants are known and distinct, and `me` and `other` are them. */
  predicate Pair(room: Room, me: PlayerId, other: PlayerId)
  {
    && room.guestId.Some?
    && room.hostId != room.guestId.value
    && me != other
    && (me == room.hostId || me == room.guestId.value)
    && (other == room.hostId || other == room.guestId.value)
  }

  /**
   * The update an accepted click writes, given the board after the mark:
   * the game ends on a win for the mover's symbol or on a full board; while
   * it goes on the turn passes to the opponent, once it ends the turn stays
   * with the mover; the winner is the mover on a win and absent otherwise.
   */
  function MoveUpdateFor(board: seq<Cell>, n: nat, symbol: Cell, room: Room, me: PlayerId): (u: RoomUpdate)
    ensures u.MoveUpdate? && u.boardState == board
    ensures u.status != Waiting
    ensures u.status == Finished <==> LineWin(board, n, symbol) || IsFull(board)
    ensures u.status == Playing <==> !LineWin(board, n, symbol) && Empty in board
    ensures u.winnerId == Some(me) <==> LineWin(board, n, symbol)
    ensures u.winnerId.None? <==> !LineWin(board, n, symbol)
    ensures u.status == Finished ==> u.currentTurn == Some(me)
    ensures u.status == Playing ==> u.currentTurn == Opponent(room, me)
  {
    var isWinner := LineWin(board, n, symbol);
    var isDraw := IsFull(board) && !isWinner;
    var ended := isWinner || isDraw;
    MoveUpdate(
      board,
      if ended then Some(me) else Opponent(room, me),
      if ended then Finished else Playing,
      if isWinner then Some(me) else None)
  }

  /** A draw: the board is full and the mover has no line. */
  predicate Draw(board: seq<Cell>, n: nat, symbol: Cell)
  {
    IsFull(board) && !LineWin(board, n, symbol)
  }

  /** A click ends in exactly one of a win, a draw or a game that goes on. */
  lemma OutcomeExclusive(board: seq<Cell>, n: nat, symbol: Cell, room: Room, me: PlayerId)
    ensures var u := MoveUpdateFor(board, n, symbol, room, me);
      && !(LineWin(board, n, symbol) && Draw(board, n, symbol))
      && (Draw(board, n, symbol) <==> u.status == Finished && u.winnerId.None?)
      && (LineWin(board, n, symbol) <==> u.status == Finished && u.winnerId.Some?)
  {
  }

  /**
   * The turn flag the session derives from a room record: false while the
   * room waits, "the room's turn is mine" while it plays, and the previous
   * value once it has finished.
   */
  function TurnAfterUpdate(room: Room, me: Option<PlayerId>, wasMyTurn: bool): (mine: bool)
    requires room.status == Playing ==> me.Some?
  {
    match room.status
    case Waiting => false
    case Playing => room.currentTurn == Some(me.value)
    case Finished => wasMyTurn
  }

  /**
   * Turns alternate: the mover works out the opponent from its cached room
   * and the store applies the update to the record it holds. When the cache
   * names the same two participants as the stored record, then while the
   * game goes on the opponent's session derives "my turn" and the mover's
   * does not; after a finishing move neither session's flag changes.
   */
  lemma HandOff(cached: Room, stored: Room, board: seq<Cell>, n: nat, symbol: Cell, me: PlayerId, other: PlayerId, was: bool)
    requires Pair(stored, me, other)
    requires cached.hostId == stored.hostId && cached.guestId == stored.guestId
    ensures var after := Apply(stored, MoveUpdateFor(board, n, symbol, cached, me));
      && (after.status == Playing ==> TurnAfterUpdate(after, Some(other), was) && !TurnAfterUpdate(after, Some(me), was))
      && (after.status == Finished ==> TurnAfterUpdate(after, Some(other), was) == was && TurnAfterUpdate(after, Some(me), was) == was)
  {
  }

  /**
   * A change notification does not refresh the cached room. A host whose
   * cached room was read before the guest joined computes no opponent, so a
   * move that does not end the game writes an absent turn, and neither
   * session derives "my turn" from the stored record afterwards.
   */
  lemma StaleCacheStallsTurn(cached: Room, stored: Room, board: seq<Cell>, n: nat, symbol: Cell, was: bool)
    requires stored.guestId.Some? && Pair(stored, stored.hostId, stored.guestId.value)
    requires cached.hostId == stored.hostId && cached.guestId.None?
    requires !LineWin(board, n, symbol) && Empty in board
    ensures var after := Apply(stored, MoveUpdateFor(board, n, symbol, cached, stored.hostId));
      && after.status == Playing && after.currentTurn.None?
      && !TurnAfterUpdate(after, Some(stored.hostId), was)
      && !TurnAfterUpdate(after, stored.guestId, was)
  {
  }

  /**
   * A finished record leaves the winner's turn flag set, so the winner can
   * click again; since filling an empty cell keeps their line, that click is
   * written as finished with them as winner once more.
   */
  lemma WinnerClickStaysWon(board: seq<Cell>, n: nat, symbol: Cell, i: int, room: Room, me: PlayerId)
    requires symbol != Empty && LineWin(board, n, symbol)
    requires 0 <= i < |board| && board[i] == Empty
    ensures var u := MoveUpdateFor(board[i := symbol], n, symbol, room, me);
      u.status == Finished && u.winnerId == Some(me) && u.currentTurn == Some(me)
  {
    PlacingKeepsLine(board, n, i, symbol, symbol);
  }

  /** Leaving a playing room writes a finish with the opponent as winner; in any other status nothing is written. */
  function ForfeitFor(game: Option<Room>, me: Option<PlayerId>): (u: Option<RoomUpdate>)
    requires game.Some? ==> me.Some?
  {
    if game.Some? && game.value.status == Playing
    then Some(ForfeitUpdate(Finished, Opponent(game.value, me.value)))
    else None
  }

  /** Leaving mid-game hands the win to the other participant and leaves the board alone. */
  lemma ForfeitAwardsOpponent(room: Room, me: PlayerId, other: PlayerId)
    requires Pair(room, me, other)
    ensures ForfeitFor(Some(room), Some(me)).Some? <==> room.status == Playing
    ensures room.status == Playing ==>
      var after := Apply(room, ForfeitFor(Some(room), Some(me)).value);
      after.status == Finished && after.winnerId == Some(other) && after.boardState == room.boardState
  {
  }

  /**
   * A finished room leaves the turn flag as it was, and a click does not look
   * at the status: if the remaining player held the turn when the other left,
   * their next click that neither wins nor fills the board writes the room
   * back to playing with no winner.
   */
  lemma ForfeitCanBeOverwritten(room: Room, board: seq<Cell>, n: nat, symbol: Cell)
    requires room.status == Playing && room.guestId.Some?
    requires !LineWin(board, n, symbol) && Empty in board
    ensures var left := Apply(room, ForfeitFor(Some(room), Some(room.hostId)).value);
      && left.status == Finished && left.winnerId == room.guestId
      && TurnAfterUpdate(left, room.guestId, true)
      && var later := Apply(left, MoveUpdateFor(board, n, symbol, left, room.guestId.value));
         later.status == Playing && later.winnerId.None?
  {
  }

  /** Host X completes the top row of a 3x3 board (cells 0, 1, 2): the room finishes with the host as winner. */
  lemma TopRowWinFinishes(room: Room)
    ensures var board := [X, X, X, O, O, Empty, Empty, Empty, Empty];
      var u := MoveUpdateFor(board, 3, X, room, room.hostId);
      u.status == Finished && u.winnerId == Some(room.hostId) && u.currentTurn == Some(room.hostId)
  {
    var board := [X, X, X, O, O, Empty, Empty, Empty, Empty];
    assert RowFull(board, 3, 0, X) by {
      assert At(board, 3, 0, 0, X) && At(board, 3, 0, 1, X) && At(board, 3, 0, 2, X);
    }
  }

  /** X's last mark fills a 3x3 board with no line: the room finishes as a draw with no winner. */
  lemma FullBoardWithoutLineIsDraw(room: Room, me: PlayerId)
    ensures var board := [X, O, X, X, O, O, O, X, X];
      var u := MoveUpdateFor(board, 3, X, room, me);
      u.status == Finished && u.winnerId.None? && Draw(board, 3, X)
  {
    var board := [X, O, X, X, O, O, O, X, X];
    assert !RowFull(board, 3, 0, X) by { assert !At(board, 3, 0, 1, X); }
    assert !RowFull(board, 3, 1, X) by { assert !At(board, 3, 1, 1, X); }
    assert !RowFull(board, 3, 2, X) by { assert !At(board, 3, 2, 0, X); }
    assert !ColumnFull(board, 3, 0, X) by { assert !At(board, 3, 2, 0, X); }
    assert !ColumnFull(board, 3, 1, X) by { assert !At(board, 3, 0, 1, X); }
    assert !ColumnFull(board, 3, 2, X) by { assert !At(board, 3, 1, 2, X); }
    assert !DiagonalFull(board, 3, X) by {
      assert !At(board, 3, 1, 1, X);
    }
    assert !AntiDiagonalFull(board, 3, X) by {
      assert !At(board, 3, 1, 3 - 1 - 1, X);
    }
  }

  /**
   * The module-level state of game.js. Before the first game is initialised
   * there is no room and no player, the symbol is the empty string and the
   * turn flag is false; the flag is only ever true for an initialised session.
   */
  class GameSession {
    var currentGame: Option<Room>
    var currentPlayer: Option<PlayerId>
    var boardSize: nat
    var cells: array<Cell>
    var isMyTurn: bool
    var playerSymbol: Cell

    ghost predicate Valid()
      reads this
    {
      && (currentGame.Some? <==> currentPlayer.Some?)
      && (currentPlayer.Some? ==> playerSymbol != Empty)
      && (isMyTurn ==> currentPlayer.Some?)
    }

    /** The state when the script loads. */
    constructor ()
      ensures Valid()
      ensures currentGame == None && currentPlayer == None && boardSize == 3
      ensures cells[..] == [] && !isMyTurn && playerSymbol == Empty
      ensures fresh(cells)
    {
      currentGame := None;
      currentPlayer := None;
      boardSize := 3;
      cells := new Cell[0];
      isMyTurn := false;
      playerSymbol := Empty;
    }

    /**
     * The game-initialise handler: remember the room and the player, take the
     * board size from the room, pick the symbol and lay out an empty board.
     */
    method GameInitialize(room: Room, player: PlayerId)
      requires Valid()
      modifies this
      ensures Valid() && fresh(cells)
      ensures currentGame == Some(room) && currentPlayer == Some(player)
      ensures boardSize == room.boardSize && playerSymbol == SymbolFor(room, player)
      ensures cells.Length == room.boardSize * room.boardSize
      ensures forall k | 0 <= k < cells.Length :: cells[k] == Empty
      ensures isMyTurn == old(isMyTurn)
    {
      currentGame := Some(room);
      currentPlayer := Some(player);
      boardSize := room.boardSize;
      playerSymbol := SymbolFor(room, player);
      SetupGame();
    }

    /** A fresh board of boardSize * boardSize empty cells. */
    method SetupGame()
      modifies this`cells
      ensures fresh(cells) && cells.Length == boardSize * boardSize
      ensures forall k | 0 <= k < cells.Length :: cells[k] == Empty
    {
      cells := new Cell[boardSize * boardSize](_ => Empty);
    }

    /**
     * Takes in a room record (from a fetch or a change notification): a
     * present board replaces the cells, and the turn flag follows the status.
     */
    method UpdateGameState(room: Room)
      requires Valid()
      requires room.status == Playing ==> currentPlayer.Some?
      modifies this`cells, this`isMyTurn
      ensures Valid()
      ensures room.boardState.Some? ==> fresh(cells) && cells[..] == room.boardState.value
      ensures room.boardState.None? ==> cells == old(cells)
      ensures isMyTurn == TurnAfterUpdate(room, currentPlayer, old(isMyTurn))
    {
      if room.boardState.Some? {
        var board := room.boardState.value;
        cells := new Cell[|board|](k requires 0 <= k < |board| => board[k]);
      }
      match room.status
      case Waiting =>
        isMyTurn := false;
      case Playing =>
        isMyTurn := room.currentTurn == Some(currentPlayer.value);
      case Finished =>
    }

    /** A successful fetch of the room details: the cached room is replaced, then the state is updated from it. */
    method ApplyRoomDetails(room: Room)
      requires Valid() && currentGame.Some?
      modifies this`currentGame, this`cells, this`isMyTurn
      ensures Valid() && currentGame == Some(room)
      ensures room.boardState.Some? ==> fresh(cells) && cells[..] == room.boardState.value
      ensures room.boardState.None? ==> cells == old(cells)
      ensures isMyTurn == TurnAfterUpdate(room, currentPlayer, old(isMyTurn))
    {
      currentGame := Some(room);
      UpdateGameState(room);
    }

    /** A click on cell `index` is taken only on my turn and on an empty cell. */
    ghost predicate Accepts(index: int)
      reads this, cells
    {
      isMyTurn && 0 <= index < cells.Length && cells[index] == Empty
    }

    /**
     * The cell click handler. A click that is not accepted changes nothing
     * and writes nothing. An accepted click puts my symbol in that cell only
     * and yields the room update for the new board. Whatever becomes of the
     * write, the mark stays and the turn flag is not touched.
     */
    method HandleCellClick(index: int) returns (write: Option<RoomUpdate>)
      requires Valid()
      modifies cells
      ensures Valid()
      ensures !old(Accepts(index)) ==> write.None? && cells[..] == old(cells[..])
      ensures old(Accepts(index)) ==> cells[..] == old(cells[..])[index := playerSymbol]
      ensures old(Accepts(index)) ==>
        write == Some(MoveUpdateFor(cells[..], boardSize, playerSymbol, currentGame.value, currentPlayer.value))
    {
      if !isMyTurn || !(0 <= index < cells.Length && cells[index] == Empty) {
        return None;
      }
      cells[index] := playerSymbol;
      var isWinner := CheckWin(playerSymbol);
      var isDraw := Empty !in cells[..] && !isWinner;
      var ended := isWinner || isDraw;
      var me := currentPlayer.value;
      var nextTurn := if ended then Some(me) else Opponent(currentGame.value, me);
      var newStatus := if ended then Finished else Playing;
      write := Some(MoveUpdate(cells[..], nextTurn, newStatus, if isWinner then Some(me) else None));
    }

    /**
     * The line check over the current cells: the rows, then the columns, then
     * the two diagonals, returning as soon as one of them is all `symbol`.
     */
    method CheckWin(symbol: Cell) returns (won: bool)
      ensures won == LineWin(cells[..], boardSize, symbol)
    {
      won := RowsWin(symbol);
      if won {
        return;
      }
      won := ColumnsWin(symbol);
      if won {
        return;
      }
      won := DiagonalWins(symbol);
      if won {
        return;
      }
      won := AntiDiagonalWins(symbol);
    }

    /** The row loop of the line check: a flag per row, cleared by any cell that does not hold the symbol. */
    method RowsWin(symbol: Cell) returns (won: bool)
      ensures won == exists r | 0 <= r < boardSize :: RowFull(cells[..], boardSize, r, symbol)
    {
      ghost var s := cells[..];
      var n := boardSize;
      var r := 0;
      while r < n
        invariant 0 <= r <= n
        invariant forall r' | 0 <= r' < r :: !RowFull(s, n, r', symbol)
      {
        var row := true;
        var c := 0;
        while c < n
          invariant 0 <= c <= n
          invariant row == forall c' | 0 <= c' < c :: At(s, n, r, c', symbol)
        {
          var k := r * n + c;
          assert At(s, n, r, c, symbol) <==> 0 <= k < cells.Length && cells[k] == symbol;
          if !(0 <= k < cells.Length && cells[k] == symbol) {
            row := false;
          }
          c := c + 1;
        }
        if row {
          assert RowFull(s, n, r, symbol);
          return true;
        }
        r := r + 1;
      }
      return false;
    }

    /** The column loop of the line check. */
    method ColumnsWin(symbol: Cell) returns (won: bool)
      ensures won == exists c | 0 <= c < boardSize :: ColumnFull(cells[..], boardSize, c, symbol)
    {
      ghost var s := cells[..];
      var n := boardSize;
      var c := 0;
      while c < n
        invariant 0 <= c <= n
        invariant forall c' | 0 <= c' < c :: !ColumnFull(s, n, c', symbol)
      {
        var col := true;
        var r := 0;
        while r < n
          invariant 0 <= r <= n
          invariant col == forall r' | 0 <= r' < r :: At(s, n, r', c, symbol)
        {
          var k := r * n + c;
          assert At(s, n, r, c, symbol) <==> 0 <= k < cells.Length && cells[k] == symbol;
          if !(0 <= k < cells.Length && cells[k] == symbol) {
            col := false;
          }
          r := r + 1;
        }
        if col {
          assert ColumnFull(s, n, c, symbol);
          return true;
        }
        c := c + 1;
      }
      return false;
    }

    /** The top-left to bottom-right diagonal, read at i * (boardSize + 1). */
    method DiagonalWins(symbol: Cell) returns (won: bool)
      ensures won == DiagonalFull(cells[..], boardSize, symbol)
    {
      ghost var s := cells[..];
      var n := boardSize;
      var diag1 := true;
      var i := 0;
      while i < n
        invariant 0 <= i <= n
        invariant diag1 == forall i' | 0 <= i' < i :: At(s, n, i', i', symbol)
      {
        var k := i * (n + 1);
        assert k == i * n + i;
        assert At(s, n, i, i, symbol) <==> 0 <= k < cells.Length && cells[k] == symbol;
        if !(0 <= k < cells.Length && cells[k] == symbol) {
          diag1 := false;
        }
        i := i + 1;
      }
      return diag1;
    }

    /** The top-right to bottom-left diagonal, read at i * boardSize + (boardSize - 1 - i). */
    method AntiDiagonalWins(symbol: Cell) returns (won: bool)
      ensures won == AntiDiagonalFull(cells[..], boardSize, symbol)
    {
      ghost var s := cells[..];
      var n := boardSize;
      var diag2 := true;
      var i := 0;
      while i < n
        invariant 0 <= i <= n
        invariant diag2 == forall i', j | 0 <= i' < i && j == n - 1 - i' :: At(s, n, i', j, symbol)
      {
        var k := i * n + (n - 1 - i);
        assert At(s, n, i, n - 1 - i, symbol) <==> 0 <= k < cells.Length && cells[k] == symbol;
        if !(0 <= k < cells.Length && cells[k] == symbol) {
          diag2 := false;
        }
        i := i + 1;
      }
      return diag2;
    }

    /**
     * Leaving the game: if the cached room is playing, the update that ends
     * it with the opponent as winner; otherwise no update.
     */
    method LeaveGame() returns (write: Option<RoomUpdate>)
      requires Valid()
      ensures write.Some? <==> currentGame.Some? && currentGame.value.status == Playing
      ensures write == ForfeitFor(currentGame, currentPlayer)
    {
      if currentGame.Some? && currentGame.value.status == Playing {
        var room := currentGame.value;
        var opponentId := if room.hostId == currentPlayer.value then room.guestId else Some(room.hostId);
        write := Some(ForfeitUpdate(Finished, opponentId));
      } else {
        write := None;
      }
    }
  }
}
