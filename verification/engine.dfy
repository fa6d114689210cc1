/**
 * The `Connect4Game` object: a board held in a 6 x 7 array that `dropPiece`
 * writes in place, the turn, the winner, the recorded winning line and the
 * `gameOver` flag, with the methods that update them.
 */
module Engine {
  import opened Options
  import opened Board
  import opened Scan
  import opened Rules

  /** Array `a` has the board's shape and the contents of `b`. */
  ghost predicate Mirrors(a: array2<int>, b: Board)
    reads a
  {
    a.Length0 == Rows && a.Length1 == Cols &&
    forall r, c :: 0 <= r < Rows && 0 <= c < Cols ==> a[r, c] == b[r][c]
  }

  /** An array holds one board only. */
  lemma MirrorsUnique(a: array2<int>, b1: Board, b2: Board)
    requires Mirrors(a, b1) && Mirrors(a, b2)
    ensures b1 == b2
  {
    forall r | 0 <= r < Rows ensures b1[r] == b2[r] {
      assert forall c :: 0 <= c < Cols ==> b1[r][c] == a[r, c] == b2[r][c];
    }
  }

  /** A fresh array holding board `b`. */
  method NewGrid(b: Board) returns (a: array2<int>)
    ensures fresh(a) && Mirrors(a, b)
  {
    a := new int[Rows, Cols]((r, c) requires 0 <= r < Rows && 0 <= c < Cols => b[r][c]);
  }

  /** `a[row][col] = v` on an array holding board `b`: it then holds `b` with that one cell replaced. */
  method WriteCell(a: array2<int>, ghost b: Board, row: int, col: int, v: int)
    requires Mirrors(a, b) && InBounds(row, col)
    modifies a
    ensures Mirrors(a, Place(b, row, col, v))
  {
    a[row, col] := v;
    forall i, j | 0 <= i < Rows && 0 <= j < Cols
      ensures a[i, j] == Place(b, row, col, v)[i][j]
    {
      if i != row || j != col {
        assert a[i, j] == old(a[i, j]) == b[i][j];
      }
    }
  }

  /** The board an array of the board's shape holds: `board.map(row => [...row])`. */
  function Snapshot(a: array2<int>): (b: Board)
    reads a
    requires a.Length0 == Rows && a.Length1 == Cols
    ensures Mirrors(a, b)
  {
    seq(Rows, r requires 0 <= r < Rows reads a =>
      seq(Cols, c requires 0 <= c < Cols reads a => a[r, c]))
  }

  class Connect4Game {
    var board: array2<int>
    var currentPlayer: int
    var winner: Winner
    var winningCells: seq<Pos>
    var gameOver: bool
    /** The board as a value. */
    ghost var Cells: Board

    ghost predicate Valid()
      reads this`board, this`Cells, board
    {
      Mirrors(board, Cells)
    }

    /** All fields as a value. */
    ghost function Value(): GameValue
      reads this
    {
      GameValue(Cells, currentPlayer, winner, winningCells, gameOver)
    }

    constructor ()
      ensures Valid() && fresh(board)
      ensures Value() == Initial()
    {
      var grid := NewGrid(EmptyBoard());
      board := grid;
      Cells := EmptyBoard();
      currentPlayer := 1;
      winner := NoWinner;
      winningCells := [];
      gameOver := false;
    }

    method Reset()
      modifies this
      ensures Valid() && fresh(board)
      ensures Value() == Initial()
    {
      board := NewGrid(EmptyBoard());
      Cells := EmptyBoard();
      currentPlayer := 1;
      winner := NoWinner;
      winningCells := [];
      gameOver := false;
    }

    method LoadState(state: Payload)
      requires Valid()
      modifies this
      ensures Valid() && fresh(board)
      ensures Value() == Load(old(Value()), state)
    {
      ghost var before := Value();
      board := NewGrid(state.board);
      Cells := state.board;
      currentPlayer := state.currentPlayer;
      winner := state.winner;
      if winner.IsSet() {
        var _ := CheckWin();
        assert Value() == Load(before, state);
      } else {
        winningCells := [];
        gameOver := false;
        assert Value() == Load(before, state);
      }
    }

    function GetState(): (state: Payload)
      reads this, board
      requires Valid()
      ensures state == StateOf(Value())
    {
      MirrorsUnique(board, Snapshot(board), Cells);
      Payload(Snapshot(board), currentPlayer, winner)
    }

    /**
     * `simulateDrop(col)`: computes the candidate state on a copy of the
     * board, judging it with a temporary game; `this` is left unchanged.
     */
    method SimulateDrop(col: int) returns (next: Option<Payload>)
      requires Valid()
      ensures next == Drop(Value(), col)
    {
      if gameOver { return None; }
      if col < 0 || col >= Cols { return None; }

      var boardCopy := NewGrid(Snapshot(board));
      var placedRow := -1;
      var row := 0;
      while row < Rows
        invariant 0 <= row <= Rows && placedRow == -1
        invariant Mirrors(boardCopy, Cells)
        invariant forall i :: 0 <= i < row ==> Cells[i][col] != 0
      {
        if boardCopy[row, col] == 0 {
          WriteCell(boardCopy, Cells, row, col, currentPlayer);
          placedRow := row;
          break;
        }
        row := row + 1;
      }
      if placedRow == -1 { return None; }
      ghost var placed := Place(Cells, placedRow, col, currentPlayer);

      var nextPlayer := if currentPlayer == 1 then 2 else 1;
      var nextWinner := winner;
      var nextGameOver := gameOver;

      var tempGame := new Connect4Game();
      tempGame.board := boardCopy;
      tempGame.Cells := placed;
      tempGame.currentPlayer := currentPlayer;

      var won := tempGame.CheckWin();
      if won {
        nextWinner := Won(currentPlayer);
        nextGameOver := true;
      } else if tempGame.CheckDraw() {
        nextWinner := Draw;
        nextGameOver := true;
      }
      MirrorsUnique(boardCopy, Snapshot(boardCopy), placed);
      DropLandsAt(Value(), col, placedRow);
      next := Some(Payload(Snapshot(boardCopy), if nextGameOver then currentPlayer else nextPlayer, nextWinner));
    }

    /**
     * `dropPiece(col)`: the same move as `simulateDrop`, made in place on this
     * game's own board.
     */
    method DropPiece(col: int) returns (ok: bool)
      requires Valid()
      modifies this, board
      ensures Valid() && board == old(board)
      ensures ok == Drop(old(Value()), col).Some?
      ensures !ok ==> Value() == old(Value())
      ensures ok ==> StateOf(Value()) == Drop(old(Value()), col).value
      ensures ok ==> gameOver == (HasRun(Cells) || Full(Cells))
      ensures ok ==> winningCells == match WinningLine(Cells) case Some(line) => line case None => old(winningCells)
    {
      if gameOver { return false; }
      if col < 0 || col >= Cols { return false; }

      var row := 0;
      while row < Rows
        invariant 0 <= row <= Rows
        invariant board == old(board) && Valid() && Value() == old(Value())
        invariant forall i :: 0 <= i < row ==> Cells[i][col] != 0
      {
        if board[row, col] == 0 {
          ghost var before := Value();
          LandPiece(row, col);
          JudgedPlacementIsDrop(before, col, row, Value());
          return true;
        }
        row := row + 1;
      }
      return false;
    }

    /**
     * What `dropPiece` does at the lowest empty row of the column: writes the
     * mover's piece there, then judges the board (a win first, then a draw,
     * otherwise the turn passes to the other player).
     */
    method LandPiece(row: int, col: int)
      requires Valid() && InBounds(row, col)
      modifies this, board
      ensures Valid() && board == old(board)
      ensures Cells == Place(old(Cells), row, col, old(currentPlayer))
      ensures HasRun(Cells) ==> winner == Won(old(currentPlayer)) && currentPlayer == old(currentPlayer)
      ensures !HasRun(Cells) && Full(Cells) ==> winner == Draw && currentPlayer == old(currentPlayer)
      ensures !HasRun(Cells) && !Full(Cells) ==> winner == old(winner) && currentPlayer == Other(old(currentPlayer))
      ensures gameOver == (HasRun(Cells) || Full(Cells) || old(gameOver))
      ensures winningCells == match WinningLine(Cells) case Some(line) => line case None => old(winningCells)
    {
      WriteCell(board, Cells, row, col, currentPlayer);
      Cells := Place(Cells, row, col, currentPlayer);
      JudgeBoard();
    }

    /**
     * The verdict `dropPiece` reaches on the board once the piece is in: a
     * win first, then a draw, otherwise the turn passes to the other player.
     */
    method JudgeBoard()
      requires Valid()
      modifies this`winner, this`currentPlayer, this`gameOver, this`winningCells
      ensures Valid()
      ensures HasRun(Cells) ==> winner == Won(old(currentPlayer)) && currentPlayer == old(currentPlayer)
      ensures !HasRun(Cells) && Full(Cells) ==> winner == Draw && currentPlayer == old(currentPlayer)
      ensures !HasRun(Cells) && !Full(Cells) ==> winner == old(winner) && currentPlayer == Other(old(currentPlayer))
      ensures gameOver == (HasRun(Cells) || Full(Cells) || old(gameOver))
      ensures winningCells == match WinningLine(Cells) case Some(line) => line case None => old(winningCells)
    {
      var won := CheckWin();
      if won {
        winner := Won(currentPlayer);
        gameOver := true;
      } else if CheckDraw() {
        winner := Draw;
        gameOver := true;
      } else {
        currentPlayer := if currentPlayer == 1 then 2 else 1;
      }
    }

    /** `checkDraw`: true when no cell is empty. */
    function CheckDraw(): (full: bool)
      reads this, board
      requires Valid()
      ensures full == Full(Cells)
    {
      forall r, c | 0 <= r < Rows && 0 <= c < Cols :: board[r, c] != 0
    }

    /**
     * The inner loop of `checkWin` for one start and direction: collects
     * cells outwards while they are on the board and hold the start's player,
     * stopping at the first that does not.
     */
    method CollectRun(r: int, c: int, k: int) returns (cells: seq<Pos>)
      requires Valid() && IsStart(Start(r, c, k)) && Cells[r][c] != 0
      ensures |cells| == 4 <==> RunAt(Cells, Start(r, c, k))
      ensures |cells| == 4 ==> cells == RunCells(Start(r, c, k))
      ensures 1 <= |cells| <= 4 && cells == RunCells(Start(r, c, k))[..|cells|]
    {
      ghost var run := RunCells(Start(r, c, k));
      var player := board[r, c];
      var (dr, dc) := Directions[k];
      cells := [(r, c)];
      var i := 1;
      while i < 4
        invariant 1 <= i <= 4 && |cells| == i
        invariant cells == run[..i]
        invariant forall j :: 1 <= j < i ==> Holds(Cells, run[j], player)
      {
        var nr := r + dr * i;
        var nc := c + dc * i;
        assert (nr, nc) == run[i] by {
          assert i == 1 || i == 2 || i == 3;
        }
        if 0 <= nr < Rows && 0 <= nc < Cols && board[nr, nc] == player {
          cells := cells + [(nr, nc)];
        } else {
          break;
        }
        i := i + 1;
      }
    }

    /**
     * `checkWin`: scans rows, then columns, then directions; at the first
     * qualifying start records its four cells and answers true. When nothing
     * qualifies the recorded line is left as it was.
     */
    method CheckWin() returns (found: bool)
      requires Valid()
      modifies this`winningCells
      ensures Valid()
      ensures found == HasRun(Cells)
      ensures winningCells == match WinningLine(Cells) case Some(line) => line case None => old(winningCells)
    {
      var r := 0;
      while r < Rows
        invariant 0 <= r <= Rows
        invariant winningCells == old(winningCells)
        invariant forall u {:trigger RunAt(Cells, u)} :: IsStart(u) && Before(u, Start(r, 0, 0)) ==> !RunAt(Cells, u)
      {
        var c := 0;
        while c < Cols
          invariant 0 <= c <= Cols
          invariant winningCells == old(winningCells)
          invariant forall u {:trigger RunAt(Cells, u)} :: IsStart(u) && Before(u, Start(r, c, 0)) ==> !RunAt(Cells, u)
        {
          var player := board[r, c];
          if player != 0 {
            var k := 0;
            while k < |Directions|
              invariant 0 <= k <= |Directions|
              invariant winningCells == old(winningCells)
              invariant forall u {:trigger RunAt(Cells, u)} :: IsStart(u) && Before(u, Start(r, c, k)) ==> !RunAt(Cells, u)
            {
              var cells := CollectRun(r, c, k);
              if |cells| == 4 {
                winningCells := cells;
                FirstRunUnique(Cells, Start(r, c, k));
                return true;
              }
              k := k + 1;
            }
          }
          c := c + 1;
        }
        r := r + 1;
      }
      return false;
    }
  }
}
