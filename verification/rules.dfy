/**
 * The game's state as values and the pure rules over it: the speculative drop
 * of `simulateDrop`, the adoption of a received state by `loadState`, and the
 * fresh game of `reset`.
 */
module Rules {
  import opened Options
  import opened Board
  import opened Scan

  /** `winner`: null, a player number, or the literal 'draw'. */
  datatype Winner = NoWinner | Won(player: int) | Draw {
    /** JavaScript truthiness of the field: null and the number 0 are falsy. */
    predicate IsSet() {
      Draw? || (Won? && player != 0)
    }
  }

  /** The record `getState`/`simulateDrop` produce and the store carries. */
  datatype Payload = Payload(board: Board, currentPlayer: int, winner: Winner)

  /** Every field of a `Connect4Game` that the rules read or write. */
  datatype GameValue = GameValue(board: Board, currentPlayer: int, winner: Winner,
                                 winningCells: seq<Pos>, gameOver: bool)

  /** The turn toggle `currentPlayer === 1 ? 2 : 1`. */
  function Other(p: int): (q: int)
    ensures q == 1 || q == 2
    ensures (p == 1 || p == 2) ==> q == 3 - p
  {
    if p == 1 then 2 else 1
  }

  /** A new game, as built by the constructor and by `reset`. */
  function Initial(): (g: GameValue)
    ensures forall r, c {:trigger g.board[r][c]} :: InBounds(r, c) ==> g.board[r][c] == 0
    ensures g.currentPlayer == 1 && g.winner == NoWinner && g.winningCells == [] && !g.gameOver
  {
    GameValue(EmptyBoard(), 1, NoWinner, [], false)
  }

  /** `getState`: the fields that travel over the wire. */
  function StateOf(g: GameValue): Payload {
    Payload(g.board, g.currentPlayer, g.winner)
  }

  /**
   * `simulateDrop(col)`: None when the game is over, the column is outside the
   * board or full; otherwise the candidate state with the mover's piece at the
   * lowest empty row and the outcome decided win first, then draw.
   */
  function Drop(g: GameValue, col: int): (r: Option<Payload>)
    ensures r.None? <==> g.gameOver || col < 0 || col >= Cols || ColumnFull(g.board, col)
    ensures r.Some? ==> exists row :: IsLowestEmpty(g.board, col, row) &&
                                      r.value.board == Place(g.board, row, col, g.currentPlayer)
    ensures r.Some? && HasRun(r.value.board) ==>
              r.value.winner == Won(g.currentPlayer) && r.value.currentPlayer == g.currentPlayer
    ensures r.Some? && !HasRun(r.value.board) && Full(r.value.board) ==>
              r.value.winner == Draw && r.value.currentPlayer == g.currentPlayer
    ensures r.Some? && !HasRun(r.value.board) && !Full(r.value.board) ==>
              r.value.winner == g.winner && r.value.currentPlayer == Other(g.currentPlayer)
  {
    if g.gameOver || col < 0 || col >= Cols then None
    else match LowestEmpty(g.board, col)
      case None => None
      case Some(row) =>
        var b := Place(g.board, row, col, g.currentPlayer);
        var nextPlayer := Other(g.currentPlayer);
        var won := FirstRun(b).Some?;
        var nextWinner := if won then Won(g.currentPlayer) else if Full(b) then Draw else g.winner;
        var nextGameOver := g.gameOver || won || Full(b);
        Some(Payload(b, if nextGameOver then g.currentPlayer else nextPlayer, nextWinner))
  }

  /**
   * `loadState(p)`: board, turn and winner are taken over; a set winner only
   * re-runs the scan (which records a line when it finds one), an unset winner
   * clears the line and `gameOver`.
   */
  function Load(g: GameValue, p: Payload): (h: GameValue)
    ensures StateOf(h) == p
    ensures !p.winner.IsSet() ==> h.winningCells == [] && !h.gameOver
    ensures p.winner.IsSet() ==> h.gameOver == g.gameOver
    ensures p.winner.IsSet() && HasRun(p.board) ==> Some(h.winningCells) == WinningLine(p.board)
    ensures p.winner.IsSet() && !HasRun(p.board) ==> h.winningCells == g.winningCells
  {
    if p.winner.IsSet() then
      var line := match WinningLine(p.board) case Some(cells) => cells case None => g.winningCells;
      GameValue(p.board, p.currentPlayer, p.winner, line, g.gameOver)
    else
      GameValue(p.board, p.currentPlayer, p.winner, [], false)
  }

  /** The candidate `Drop` builds once the landing row is known. */
  lemma DropLandsAt(g: GameValue, col: int, row: int)
    requires !g.gameOver && 0 <= col < Cols && IsLowestEmpty(g.board, col, row)
    ensures var b := Place(g.board, row, col, g.currentPlayer);
            var over := FirstRun(b).Some? || Full(b);
            Drop(g, col) == Some(Payload(b, if over then g.currentPlayer else Other(g.currentPlayer),
                                         if FirstRun(b).Some? then Won(g.currentPlayer)
                                         else if Full(b) then Draw else g.winner))
  {
  }

  /**
   * The state `dropPiece` leaves after placing the mover's piece at the
   * lowest empty row and judging the board (win first, then draw, otherwise
   * the turn passes) is the candidate `Drop` returns.
   */
  lemma JudgedPlacementIsDrop(g: GameValue, col: int, row: int, h: GameValue)
    requires !g.gameOver && 0 <= col < Cols && IsLowestEmpty(g.board, col, row)
    requires h.board == Place(g.board, row, col, g.currentPlayer)
    requires HasRun(h.board) ==> h.winner == Won(g.currentPlayer) && h.currentPlayer == g.currentPlayer
    requires !HasRun(h.board) && Full(h.board) ==> h.winner == Draw && h.currentPlayer == g.currentPlayer
    requires !HasRun(h.board) && !Full(h.board) ==> h.winner == g.winner && h.currentPlayer == Other(g.currentPlayer)
    ensures Drop(g, col).Some? && StateOf(h) == Drop(g, col).value
  {
    DropLandsAt(g, col, row);
  }

  /** Accepted drops keep every column contiguous from row 0. */
  lemma DropKeepsSettled(g: GameValue, col: int)
    requires Settled(g.board) && Drop(g, col).Some?
    ensures Settled(Drop(g, col).value.board)
  {
    var row :| IsLowestEmpty(g.board, col, row) &&
               Drop(g, col).value.board == Place(g.board, row, col, g.currentPlayer);
    PlaceAtLowestKeepsSettled(g.board, col, row, g.currentPlayer);
  }

  /**
   * On a contiguous board of a game in progress, a drop in a column of the
   * board is accepted exactly when the column's top cell is empty, whoever's
   * turn it is.
   */
  lemma DropAcceptedIffTopEmpty(g: GameValue, col: int)
    requires Settled(g.board) && !g.gameOver && 0 <= col < Cols
    ensures Drop(g, col).Some? <==> g.board[Rows - 1][col] == 0
  {
    ColumnFullIffTopOccupied(g.board, col);
  }

  /**
   * Between players 1 and 2 the turn passes to the other player on every
   * accepted drop that neither wins nor fills the board, whatever winner the
   * game carries.
   */
  lemma TurnAlternates(g: GameValue, col: int)
    requires g.currentPlayer == 1 || g.currentPlayer == 2
    requires Drop(g, col).Some?
    requires !HasRun(Drop(g, col).value.board) && !Full(Drop(g, col).value.board)
    ensures Drop(g, col).value.currentPlayer in {1, 2}
    ensures Drop(g, col).value.currentPlayer != g.currentPlayer
    ensures Other(Drop(g, col).value.currentPlayer) == g.currentPlayer
  {
  }

  /**
   * Two accepted drops in a row, the second made on the adopted result of the
   * first, neither winning nor filling the board: the turn is back with the
   * player who made the first.
   */
  lemma TwoDropsReturnTurn(g: GameValue, c1: int, c2: int)
    requires g.currentPlayer == 1 || g.currentPlayer == 2
    requires Drop(g, c1).Some?
    requires !HasRun(Drop(g, c1).value.board) && !Full(Drop(g, c1).value.board)
    requires Drop(Load(g, Drop(g, c1).value), c2).Some?
    requires var b2 := Drop(Load(g, Drop(g, c1).value), c2).value.board; !HasRun(b2) && !Full(b2)
    ensures Drop(Load(g, Drop(g, c1).value), c2).value.currentPlayer == g.currentPlayer
  {
    var h := Load(g, Drop(g, c1).value);
    TurnAlternates(g, c1);
    TurnAlternates(h, c2);
  }

  /**
   * A game that reached a win through a drop, echoed back and adopted by any
   * client, shows the same winning line that the scan recorded when the win
   * occurred: the line is recomputed, never transmitted.
   */
  lemma EchoRecomputesWinningLine(g: GameValue, col: int, receiver: GameValue)
    requires g.currentPlayer != 0 && Drop(g, col).Some? && HasRun(Drop(g, col).value.board)
    ensures Load(receiver, Drop(g, col).value).winner == Won(g.currentPlayer)
    ensures Some(Load(receiver, Drop(g, col).value).winningCells) == WinningLine(Drop(g, col).value.board)
  {
  }

  /**
   * The move that wins on a board with no run before it is a run through the
   * piece just dropped, of the mover's colour.
   */
  lemma WinningDropUsesDroppedPiece(g: GameValue, col: int)
    requires !HasRun(g.board) && Drop(g, col).Some? && Drop(g, col).value.winner.Won?
    requires g.winner == NoWinner
    ensures g.currentPlayer != 0
    ensures exists row :: IsLowestEmpty(g.board, col, row) &&
                          (row, col) in WinningLine(Drop(g, col).value.board).value
  {
    var row :| IsLowestEmpty(g.board, col, row) &&
               Drop(g, col).value.board == Place(g.board, row, col, g.currentPlayer);
    NewRunContainsPlacedPiece(g.board, row, col, g.currentPlayer);
  }
}
