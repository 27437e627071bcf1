/**
 * The local two-player 5x5 game (script.js): both players share one
 * screen, X always opens, a win adds one to the winner's score, and the
 * restart button clears the board but keeps the scores.
 */
module HotSeat {
  import opened Board

  /** The side of the board, fixed at five. */
  const Size: nat := 5

  /** The whole state of the page: the 25 cells, whose turn it is, whether the game is over, and the scores. */
  datatype Snapshot = Snapshot(cells: seq<Cell>, currentPlayer: Mark, gameOver: bool, scores: map<Mark, nat>)

  /** The state when the page loads: 25 empty cells, X to move, the game open, both scores zero. */
  function Initial(): (s: Snapshot)
  {
    Snapshot(seq(Size * Size, _ => Empty), X, false, map[X := 0, O := 0])
  }

  /** The scores object has an entry for each mark. */
  predicate HasScores(s: Snapshot)
  {
    X in s.scores && O in s.scores
  }

  /**
   * The marks placed so far agree with the turn: while the game is open the
   * player to move has placed as many marks as the other player has, minus
   * one for O; once it is over the player left "to move" is the one who moved last.
   */
  predicate Balanced(s: Snapshot)
  {
    Count(s.cells, X) == Count(s.cells, O) + (if (s.currentPlayer == X) == s.gameOver then 1 else 0)
  }

  /** The invariant every reachable state keeps. */
  predicate Inv(s: Snapshot)
  {
    |s.cells| == Size * Size && HasScores(s) && Balanced(s)
  }

  /** A click on cell `index` is taken only on an empty cell of an open game. */
  predicate Accepts(s: Snapshot, index: int)
  {
    0 <= index < |s.cells| && s.cells[index] == Empty && !s.gameOver
  }

  /**
   * The state after a click: an accepted click places the current player's
   * mark, then either ends the game with a win (one more point for the
   * winner), ends it as a draw on a full board, or passes the turn.
   */
  function Clicked(s: Snapshot, index: int): (t: Snapshot)
    requires HasScores(s)
    ensures HasScores(t) && |t.cells| == |s.cells|
  {
    if !Accepts(s, index) then s
    else
      var p := s.currentPlayer;
      var cells := s.cells[index := p];
      if LineWin(cells, Size, p) then Snapshot(cells, p, true, s.scores[p := s.scores[p] + 1])
      else if IsFull(cells) then Snapshot(cells, p, true, s.scores)
      else Snapshot(cells, Other(p), false, s.scores)
  }

  /** The state after the restart button: a fresh board with X to move, the scores kept. */
  function Restarted(s: Snapshot): (t: Snapshot)
  {
    Initial().(scores := s.scores)
  }

  /** A click that is not accepted (occupied cell, index off the board, game over) changes nothing. */
  lemma RejectedClickChangesNothing(s: Snapshot, index: int)
    requires HasScores(s) && !Accepts(s, index)
    ensures Clicked(s, index) == s
  {
  }

  /** An accepted click sets exactly the clicked cell to the player's mark; every other cell is unchanged. */
  lemma OneMarkPerClick(s: Snapshot, index: int)
    requires HasScores(s) && Accepts(s, index)
    ensures |Clicked(s, index).cells| == |s.cells|
    ensures Clicked(s, index).cells[index] == s.currentPlayer
    ensures forall k | 0 <= k < |s.cells| && k != index :: Clicked(s, index).cells[k] == s.cells[k]
    ensures Count(Clicked(s, index).cells, Empty) == Count(s.cells, Empty) - 1
  {
    PlacingCounts(s.cells, index, s.currentPlayer);
  }

  /**
   * What an accepted click decides: a win ends the game, keeps the winner
   * as current player and adds exactly one to the winner's score; a full
   * board without a win ends the game as a draw with the scores unchanged;
   * otherwise the turn passes to the other mark and the game stays open.
   */
  lemma ClickOutcome(s: Snapshot, index: int)
    requires HasScores(s) && Accepts(s, index)
    ensures var p := s.currentPlayer;
      var t := Clicked(s, index);
      && (LineWin(t.cells, Size, p) ==>
            t.gameOver && t.currentPlayer == p
            && t.scores[p] == s.scores[p] + 1 && t.scores[Other(p)] == s.scores[Other(p)])
      && (!LineWin(t.cells, Size, p) && IsFull(t.cells) ==>
            t.gameOver && t.currentPlayer == p && t.scores == s.scores)
      && (!LineWin(t.cells, Size, p) && !IsFull(t.cells) ==>
            !t.gameOver && t.currentPlayer == Other(p) && t.scores == s.scores)
  {
  }

  /** Scores never go down: a click adds at most one point in all, and only a winning click adds it. */
  lemma ScoresNeverDecrease(s: Snapshot, index: int)
    requires HasScores(s)
    ensures var t := Clicked(s, index);
      && t.scores[X] >= s.scores[X] && t.scores[O] >= s.scores[O]
      && t.scores[X] + t.scores[O] <= s.scores[X] + s.scores[O] + 1
      && (t.scores[X] + t.scores[O] == s.scores[X] + s.scores[O] + 1 <==>
            Accepts(s, index) && LineWin(t.cells, Size, s.currentPlayer))
    ensures Restarted(s).scores == s.scores
  {
  }

  /** The state on page load satisfies the invariant. */
  lemma InitialInv()
    ensures Inv(Initial())
  {
  }

  /** Every click keeps the invariant. */
  lemma ClickedKeepsInv(s: Snapshot, index: int)
    requires Inv(s)
    ensures Inv(Clicked(s, index))
  {
    if Accepts(s, index) {
      PlacingCounts(s.cells, index, s.currentPlayer);
    }
  }

  /** Restarting keeps the invariant. */
  lemma RestartedKeepsInv(s: Snapshot)
    requires Inv(s)
    ensures Inv(Restarted(s))
  {
    InitialInv();
  }

  /**
   * While the game is open, X is to move exactly when both players have
   * placed as many marks; in every reachable state X has placed as many
   * marks as O or one more.
   */
  lemma TurnParity(s: Snapshot)
    requires Inv(s)
    ensures !s.gameOver ==> (s.currentPlayer == X <==> Count(s.cells, X) == Count(s.cells, O))
    ensures Count(s.cells, X) == Count(s.cells, O) || Count(s.cells, X) == Count(s.cells, O) + 1
  {
  }

  /** The page's state, with the cells held in an array that clicks update in place. */
  class Game {
    var cells: array<Cell>
    var currentPlayer: Mark
    var gameOver: bool
    var scores: map<Mark, nat>

    ghost function State(): Snapshot
      reads this, cells
    {
      Snapshot(cells[..], currentPlayer, gameOver, scores)
    }

    ghost predicate Valid()
      reads this, cells
    {
      Inv(State())
    }

    /** The state when the page loads. */
    constructor ()
      ensures Valid() && State() == Initial()
      ensures fresh(cells)
    {
      currentPlayer := X;
      cells := new Cell[Size * Size](_ => Empty);
      gameOver := false;
      scores := map[X := 0, O := 0];
      new;
      assert cells[..] == Initial().cells;
      InitialInv();
    }

    /** The cell click handler. */
    method HandleClick(index: int)
      requires Valid()
      modifies this, cells
      ensures Valid() && cells == old(cells)
      ensures State() == Clicked(old(State()), index)
    {
      if !(0 <= index < cells.Length) || cells[index] != Empty || gameOver {
        return;
      }
      ghost var before := State();
      cells[index] := currentPlayer;
      var won := CheckWin(currentPlayer);
      if won {
        scores := scores[currentPlayer := scores[currentPlayer] + 1];
        gameOver := true;
      } else if Empty !in cells[..] {
        gameOver := true;
      } else {
        currentPlayer := Other(currentPlayer);
      }
      ClickedKeepsInv(before, index);
    }

    /** The restart button: new empty cells, X to move, the game open; the scores stay. */
    method Restart()
      requires Valid()
      modifies this
      ensures Valid() && fresh(cells)
      ensures State() == Restarted(old(State()))
    {
      ghost var before := State();
      cells := new Cell[Size * Size](_ => Empty);
      currentPlayer := X;
      gameOver := false;
      assert cells[..] == Initial().cells;
      RestartedKeepsInv(before);
    }

    /**
     * The hard-coded 5x5 line check: the rows r * 5 + c, the columns, the
     * diagonal i * 6 for i in 0..4 and the anti-diagonal i * 4 for i in 1..5,
     * returning as soon as one of them is all `player`.
     */
    method CheckWin(player: Cell) returns (won: bool)
      ensures won == LineWin(cells[..], Size, player)
    {
      won := RowsWin(player);
      if won {
        return;
      }
      won := ColumnsWin(player);
      if won {
        return;
      }
      won := DiagonalWins(player);
      if won {
        return;
      }
      won := AntiDiagonalWins(player);
    }

    /** The row loop of the line check. */
    method RowsWin(player: Cell) returns (won: bool)
      ensures won == exists r | 0 <= r < Size :: RowFull(cells[..], Size, r, player)
    {
      ghost var s := cells[..];
      var r := 0;
      while r < 5
        invariant 0 <= r <= 5
        invariant forall r' | 0 <= r' < r :: !RowFull(s, Size, r', player)
      {
        var row := true;
        var c := 0;
        while c < 5
          invariant 0 <= c <= 5
          invariant row == forall c' | 0 <= c' < c :: At(s, Size, r, c', player)
        {
          var k := r * 5 + c;
          assert At(s, Size, r, c, player) <==> 0 <= k < cells.Length && cells[k] == player;
          if !(0 <= k < cells.Length && cells[k] == player) {
            row := false;
          }
          c := c + 1;
        }
        if row {
          assert RowFull(s, Size, r, player);
          return true;
        }
        r := r + 1;
      }
      return false;
    }

    /** The column loop of the line check. */
    method ColumnsWin(player: Cell) returns (won: bool)
      ensures won == exists c | 0 <= c < Size :: ColumnFull(cells[..], Size, c, player)
    {
      ghost var s := cells[..];
      var c := 0;
      while c < 5
        invariant 0 <= c <= 5
        invariant forall c' | 0 <= c' < c :: !ColumnFull(s, Size, c', player)
      {
        var col := true;
        var r := 0;
        while r < 5
          invariant 0 <= r <= 5
          invariant col == forall r' | 0 <= r' < r :: At(s, Size, r', c, player)
        {
          var k := r * 5 + c;
          assert At(s, Size, r, c, player) <==> 0 <= k < cells.Length && cells[k] == player;
          if !(0 <= k < cells.Length && cells[k] == player) {
            col := false;
          }
          r := r + 1;
        }
        if col {
          assert ColumnFull(s, Size, c, player);
          return true;
        }
        c := c + 1;
      }
      return false;
    }

    /** The diagonal, cells 0, 6, 12, 18, 24: square (i, i) sits at i * 6. */
    method DiagonalWins(player: Cell) returns (won: bool)
      ensures won == DiagonalFull(cells[..], Size, player)
    {
      ghost var s := cells[..];
      var diag1 := true;
      var i := 0;
      while i < 5
        invariant 0 <= i <= 5
        invariant diag1 == forall i' | 0 <= i' < i :: At(s, Size, i', i', player)
      {
        var k := i * 6;
        assert At(s, Size, i, i, player) <==> 0 <= k < cells.Length && cells[k] == player;
        if !(0 <= k < cells.Length && cells[k] == player) {
          diag1 := false;
        }
        i := i + 1;
      }
      return diag1;
    }

    /**
     * The anti-diagonal, cells 4, 8, 12, 16, 20: the loop runs i from 1 to 5
     * and reads i * 4, which is square (i - 1, 5 - i).
     */
    method AntiDiagonalWins(player: Cell) returns (won: bool)
      ensures won == AntiDiagonalFull(cells[..], Size, player)
    {
      ghost var s := cells[..];
      var diag2 := true;
      var i := 1;
      while i <= 5
        invariant 1 <= i <= 6
        invariant diag2 == forall i', j | 0 <= i' < i - 1 && j == Size - 1 - i' :: At(s, Size, i', j, player)
      {
        var k := i * 4;
        assert At(s, Size, i - 1, Size - 1 - (i - 1), player) <==> 0 <= k < cells.Length && cells[k] == player;
        if !(0 <= k < cells.Length && cells[k] == player) {
          diag2 := false;
        }
        i := i + 1;
      }
      return diag2;
    }
  }
}
