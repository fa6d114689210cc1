/**
 * The win detection of `checkWin`: every occupied cell is tried as the start
 * of four equal cells along one of four directions, in a fixed scan order
 * (row ascending, then column ascending, then direction order), and the first
 * start that qualifies decides the winning line.
 */
module Scan {
  import opened Options
  import opened Board

  type Pos = (int, int)

  /** Horizontal, vertical, diagonal "/" and diagonal "\", in checking order. */
  const Directions: seq<(int, int)> := [(0, 1), (1, 0), (1, 1), (1, -1)]

  /** A scan position: a start cell and an index into `Directions`. */
  datatype Start = Start(row: int, col: int, dir: int)

  predicate IsStart(s: Start) {
    InBounds(s.row, s.col) && 0 <= s.dir < |Directions|
  }

  /** The position just past the last one the scan visits. */
  const ScanEnd: Start := Start(Rows, 0, 0)

  predicate IsCursor(s: Start) {
    IsStart(s) || s == ScanEnd
  }

  /** `s` is visited before `t`: lexicographic on (row, col, dir). */
  predicate Before(s: Start, t: Start) {
    s.row < t.row || (s.row == t.row && (s.col < t.col || (s.col == t.col && s.dir < t.dir)))
  }

  /** The position visited right after `s`. */
  function Next(s: Start): (n: Start)
    requires IsStart(s)
    ensures IsCursor(n) && Before(s, n)
    ensures forall u {:trigger Before(u, n)} :: IsStart(u) ==> (Before(u, n) <==> Before(u, s) || u == s)
  {
    if s.dir < |Directions| - 1 then Start(s.row, s.col, s.dir + 1)
    else if s.col < Cols - 1 then Start(s.row, s.col + 1, 0)
    else Start(s.row + 1, 0, 0)
  }

  /** The four cells of the run from `s`, from the start cell outwards. */
  function RunCells(s: Start): (cells: seq<Pos>)
    requires IsStart(s)
    ensures |cells| == 4 && cells[0] == (s.row, s.col)
    ensures forall i :: 0 <= i < 3 ==>
      cells[i + 1] == (cells[i].0 + Directions[s.dir].0, cells[i].1 + Directions[s.dir].1)
  {
    var (dr, dc) := Directions[s.dir];
    [(s.row, s.col), (s.row + dr, s.col + dc), (s.row + 2 * dr, s.col + 2 * dc), (s.row + 3 * dr, s.col + 3 * dc)]
  }

  /** Cell `p` is on the board and holds `v`. */
  predicate Holds(b: Board, p: Pos, v: int) {
    InBounds(p.0, p.1) && b[p.0][p.1] == v
  }

  /** Four equal, occupied, in-bounds cells start at `s`. */
  predicate RunAt(b: Board, s: Start)
    requires IsStart(s)
  {
    var cells := RunCells(s);
    var player := b[s.row][s.col];
    player != 0 && Holds(b, cells[1], player) && Holds(b, cells[2], player) && Holds(b, cells[3], player)
  }

  /** The first qualifying position at or after cursor `s`. */
  function FirstRunFrom(b: Board, s: Start): (r: Option<Start>)
    requires IsCursor(s)
    decreases Rows - s.row, Cols - s.col, |Directions| - s.dir
    ensures r.Some? ==> IsStart(r.value) && !Before(r.value, s) && RunAt(b, r.value)
    ensures r.Some? ==> forall u {:trigger RunAt(b, u)} :: IsStart(u) && !Before(u, s) && Before(u, r.value) ==> !RunAt(b, u)
    ensures r.None? ==> forall u {:trigger RunAt(b, u)} :: IsStart(u) && !Before(u, s) ==> !RunAt(b, u)
  {
    if s == ScanEnd then None
    else if RunAt(b, s) then Some(s)
    else FirstRunFrom(b, Next(s))
  }

  /**
   * The start `checkWin` stops at: a qualifying position with no qualifying
   * position before it in scan order; None when there is none at all.
   */
  function FirstRun(b: Board): (r: Option<Start>)
    ensures r.Some? ==> IsStart(r.value) && RunAt(b, r.value)
    ensures r.Some? ==> forall u {:trigger RunAt(b, u)} :: IsStart(u) && Before(u, r.value) ==> !RunAt(b, u)
    ensures r.None? ==> forall u {:trigger RunAt(b, u)} :: IsStart(u) ==> !RunAt(b, u)
  {
    FirstRunFrom(b, Start(0, 0, 0))
  }

  /** `checkWin` answers true: the scan finds a qualifying start. */
  predicate HasRun(b: Board) {
    FirstRun(b).Some?
  }

  /**
   * `checkWin` answers true exactly when some occupied cell starts four equal
   * in-bounds cells along one of the four directions.
   */
  lemma HasRunIffSomeRun(b: Board)
    ensures HasRun(b) <==> exists s {:trigger RunAt(b, s)} :: IsStart(s) && RunAt(b, s)
  {
    if s :| IsStart(s) && RunAt(b, s) {
      assert FirstRun(b).Some?;
    }
  }

  /** The winning line `checkWin` records, if any. */
  function WinningLine(b: Board): (line: Option<seq<Pos>>)
    ensures line.Some? <==> HasRun(b)
    ensures line.Some? ==> |line.value| == 4 && var (r0, c0) := line.value[0];
      InBounds(r0, c0) && b[r0][c0] != 0 && forall i :: 0 <= i < 4 ==> Holds(b, line.value[i], b[r0][c0])
    ensures line.Some? ==> line.value == RunCells(FirstRun(b).value)
  {
    match FirstRun(b)
    case Some(s) => Some(RunCells(s))
    case None => None
  }

  /** A qualifying position with nothing qualifying before it is the one the scan finds. */
  lemma FirstRunUnique(b: Board, s: Start)
    requires IsStart(s) && RunAt(b, s)
    requires forall u {:trigger RunAt(b, u)} :: IsStart(u) && Before(u, s) ==> !RunAt(b, u)
    ensures FirstRun(b) == Some(s)
  {
    var t := FirstRun(b).value;
    if Before(t, s) {
    } else if Before(s, t) {
    }
  }

  /**
   * After a piece is placed on a board without a run, any run the scan finds
   * passes through the placed cell and belongs to the placed piece.
   */
  lemma {:induction false} NewRunContainsPlacedPiece(b: Board, row: int, col: int, p: int)
    requires InBounds(row, col) && !HasRun(b) && HasRun(Place(b, row, col, p))
    ensures (row, col) in WinningLine(Place(b, row, col, p)).value
    ensures p != 0 && b[row][col] != p
  {
    var b' := Place(b, row, col, p);
    var s := FirstRun(b').value;
    var cells := RunCells(s);
    var v := b'[s.row][s.col];
    assert Holds(b', cells[0], v) && Holds(b', cells[1], v) && Holds(b', cells[2], v) && Holds(b', cells[3], v);
    assert !RunAt(b, s);
    if (row, col) in cells {
      var i :| 0 <= i < 4 && cells[i] == (row, col);
      assert p == v != 0;
    }
  }
}
