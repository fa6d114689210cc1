/**
 * The 6 x 7 Connect Four grid as a value, read as `b[row][col]` with row 0 at
 * the bottom, and the gravity rule that decides where a dropped piece lands.
 */
module Board {
  import opened Options

  const Rows: int := 6
  const Cols: int := 7

  /** A grid of the fixed shape; cells hold 0 (empty) or a player number. */
  predicate WellShaped(g: seq<seq<int>>) {
    |g| == Rows && forall r :: 0 <= r < |g| ==> |g[r]| == Cols
  }

  type Board = g: seq<seq<int>> | WellShaped(g) witness seq(6, _ => seq(7, _ => 0))

  predicate InBounds(r: int, c: int) {
    0 <= r < Rows && 0 <= c < Cols
  }

  /** `createEmptyBoard`: every cell empty. */
  function EmptyBoard(): (b: Board)
    ensures forall r, c {:trigger b[r][c]} :: InBounds(r, c) ==> b[r][c] == 0
  {
    seq(Rows, _ => seq(Cols, _ => 0))
  }

  /** `checkDraw`'s condition: no cell is empty. */
  predicate Full(b: Board) {
    forall r, c | 0 <= r < Rows && 0 <= c < Cols :: b[r][c] != 0
  }

  predicate ColumnFull(b: Board, col: int)
    requires 0 <= col < Cols
  {
    forall r :: 0 <= r < Rows ==> b[r][col] != 0
  }

  /** `row` is where gravity puts the next piece of column `col`. */
  predicate IsLowestEmpty(b: Board, col: int, row: int)
    requires 0 <= col < Cols
  {
    0 <= row < Rows && b[row][col] == 0 && forall i :: 0 <= i < row ==> b[i][col] != 0
  }

  /** The first empty row of column `col` at or above `row`, scanning upwards. */
  function LowestEmptyFrom(b: Board, col: int, row: int): (r: Option<int>)
    requires 0 <= col < Cols && 0 <= row <= Rows
    decreases Rows - row
    ensures r.Some? ==> row <= r.value < Rows && b[r.value][col] == 0
    ensures r.Some? ==> forall i :: row <= i < r.value ==> b[i][col] != 0
    ensures r.None? ==> forall i :: row <= i < Rows ==> b[i][col] != 0
  {
    if row == Rows then None
    else if b[row][col] == 0 then Some(row)
    else LowestEmptyFrom(b, col, row + 1)
  }

  /** The row a piece dropped in `col` falls to, or None when the column is full. */
  function LowestEmpty(b: Board, col: int): (r: Option<int>)
    requires 0 <= col < Cols
    ensures r.None? <==> ColumnFull(b, col)
    ensures r.Some? ==> IsLowestEmpty(b, col, r.value)
  {
    LowestEmptyFrom(b, col, 0)
  }

  /** The board with cell (row, col) set to `p` and every other cell as before. */
  function Place(b: Board, row: int, col: int, p: int): (b': Board)
    requires InBounds(row, col)
    ensures forall r, c {:trigger b'[r][c]} :: InBounds(r, c) ==> b'[r][c] == if r == row && c == col then p else b[r][c]
  {
    b[row := b[row][col := p]]
  }

  /**
   * Gravity contiguity: in every column the occupied cells form one run that
   * starts at row 0.
   */
  predicate Settled(b: Board) {
    forall c, r1, r2 :: 0 <= c < Cols && 0 <= r1 < r2 < Rows && b[r2][c] != 0 ==> b[r1][c] != 0
  }

  lemma EmptyBoardSettled()
    ensures Settled(EmptyBoard())
  {
  }

  /** Placing a piece at the lowest empty row of a column keeps every column contiguous. */
  lemma {:induction false} PlaceAtLowestKeepsSettled(b: Board, col: int, row: int, p: int)
    requires 0 <= col < Cols && Settled(b) && IsLowestEmpty(b, col, row)
    ensures Settled(Place(b, row, col, p))
  {
    var b' := Place(b, row, col, p);
    forall c, r1, r2 | 0 <= c < Cols && 0 <= r1 < r2 < Rows && b'[r2][c] != 0
      ensures b'[r1][c] != 0
    {
      if c == col && r2 == row {
        assert b'[r1][c] == b[r1][c];
      } else {
        assert b[r2][c] != 0;
      }
    }
  }

  /** On a contiguous board a column is full exactly when its top cell is occupied. */
  lemma {:induction false} ColumnFullIffTopOccupied(b: Board, col: int)
    requires 0 <= col < Cols && Settled(b)
    ensures ColumnFull(b, col) <==> b[Rows - 1][col] != 0
  {
    if b[Rows - 1][col] != 0 {
      forall r | 0 <= r < Rows ensures b[r][col] != 0 {
        if r < Rows - 1 {
          assert b[Rows - 1][col] != 0;
        }
      }
    }
  }
}
