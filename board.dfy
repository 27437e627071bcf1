/**
 * The board shared by both games: a flat array of n*n cells, row r and
 * column c stored at index r*n + c, and the rule that decides a win.
 */
module Board {

  /** The value of one square: the empty string, "X" or "O". */
  datatype Cell = Empty | X | O

  /** A mark a player places: any cell value but the empty one. */
  type Mark = c: Cell | c != Empty witness X

  /** The mark of the other player. */
  function Other(m: Mark): (r: Mark)
    ensures r != m
  {
    if m == X then O else X
  }

  /**
   * Cell k of the board holds p. Reading outside the array yields
   * `undefined`, which equals no cell value, so such a read never holds.
   */
  predicate Holds(s: seq<Cell>, k: int, p: Cell)
  {
    0 <= k < |s| && s[k] == p
  }

  /** The square in row r, column c of an n-by-n board holds p. */
  predicate At(s: seq<Cell>, n: nat, r: int, c: int, p: Cell)
  {
    Holds(s, r * n + c, p)
  }

  predicate RowFull(s: seq<Cell>, n: nat, r: int, p: Cell)
  {
    forall c | 0 <= c < n :: At(s, n, r, c, p)
  }

  predicate ColumnFull(s: seq<Cell>, n: nat, c: int, p: Cell)
  {
    forall r | 0 <= r < n :: At(s, n, r, c, p)
  }

  /** The diagonal from the top left to the bottom right. */
  predicate DiagonalFull(s: seq<Cell>, n: nat, p: Cell)
  {
    forall i | 0 <= i < n :: At(s, n, i, i, p)
  }

  /** The diagonal from the top right to the bottom left. */
  predicate AntiDiagonalFull(s: seq<Cell>, n: nat, p: Cell)
  {
    forall i, j | 0 <= i < n && j == n - 1 - i :: At(s, n, i, j, p)
  }

  /** Some full row, full column or one of the two main diagonals is all p. */
  predicate LineWin(s: seq<Cell>, n: nat, p: Cell)
  {
    || (exists r | 0 <= r < n :: RowFull(s, n, r, p))
    || (exists c | 0 <= c < n :: ColumnFull(s, n, c, p))
    || DiagonalFull(s, n, p)
    || AntiDiagonalFull(s, n, p)
  }

  /** No empty square is left. */
  predicate IsFull(s: seq<Cell>)
  {
    Empty !in s
  }

  /** How many squares hold v. */
  function Count(s: seq<Cell>, v: Cell): (k: nat)
  {
    multiset(s)[v]
  }

  /**
   * Placing one mark on an empty square adds one to that mark's count,
   * takes one from the empty count and leaves the other mark's count alone.
   */
  lemma PlacingCounts(s: seq<Cell>, i: int, m: Mark)
    requires 0 <= i < |s| && s[i] == Empty
    ensures Count(s[i := m], m) == Count(s, m) + 1
    ensures Count(s[i := m], Other(m)) == Count(s, Other(m))
    ensures Count(s[i := m], Empty) == Count(s, Empty) - 1
  {
  }

  /**
   * Filling an empty square, with any value, never breaks a line that was
   * already complete.
   */
  lemma PlacingKeepsLine(s: seq<Cell>, n: nat, i: int, q: Cell, p: Cell)
    requires 0 <= i < |s| && s[i] == Empty && p != Empty
    requires LineWin(s, n, p)
    ensures LineWin(s[i := q], n, p)
  {
    var t := s[i := q];
    forall r, c | At(s, n, r, c, p) ensures At(t, n, r, c, p) {
    }
    if r :| 0 <= r < n && RowFull(s, n, r, p) {
      assert RowFull(t, n, r, p);
    } else if c :| 0 <= c < n && ColumnFull(s, n, c, p) {
      assert ColumnFull(t, n, c, p);
    } else if DiagonalFull(s, n, p) {
      assert DiagonalFull(t, n, p);
    } else {
      assert AntiDiagonalFull(t, n, p);
    }
  }

  /** Nobody has a line while none of their marks is on the board. */
  lemma NoLineWithoutMark(s: seq<Cell>, n: nat, p: Cell)
    requires n >= 1 && p !in s
    ensures !LineWin(s, n, p)
  {
    forall r, c | 0 <= r * n + c < |s| ensures !At(s, n, r, c, p) {
      assert s[r * n + c] in s;
    }
    assert !DiagonalFull(s, n, p) by { assert !At(s, n, 0, 0, p); }
    assert !AntiDiagonalFull(s, n, p) by { assert !At(s, n, 0, n - 1 - 0, p); }
    forall r | 0 <= r < n ensures !RowFull(s, n, r, p) {
      assert !At(s, n, r, 0, p);
    }
    forall c | 0 <= c < n ensures !ColumnFull(s, n, c, p) {
      assert !At(s, n, 0, c, p);
    }
  }
}
