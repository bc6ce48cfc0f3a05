/** The `Game` class of connect4.js with its rendering calls removed: the
    board, the player to move and the end-of-game flag, updated in place by
    one click at a time. */
module Connect4 {
  import opened Board
  import opened Rules

  class Game {
    const width: nat
    const height: nat
    var board: Grid
    var currPlayer: Player
    var gameOver: bool

    /** The fields as one value, to compare with `Drop`. */
    ghost function State(): Snapshot
      reads this
    {
      Snapshot(board, currPlayer, gameOver)
    }

    /** The invariant every method keeps: the board has `height` rows of
        `width` cells, pieces rest on each other, and turns alternate. */
    ghost predicate Valid()
      reads this
    {
      Consistent(width, height, State())
    }

    /** A new game of the given size, seven by six unless told otherwise:
        an empty board, the first player to move, not over. */
    constructor (width: nat := 7, height: nat := 6)
      ensures Valid()
      ensures this.width == width && this.height == height
      ensures board == EmptyGrid(width, height) && currPlayer == P1 && !gameOver
    {
      this.width := width;
      this.height := height;
      currPlayer := P1;
      board := [];
      new;
      MakeBoard();
      gameOver := false;
      assert State() == Start(width, height, P1);
      StartConsistent(width, height, P1);
    }

    /** Pushes `height` empty rows of `width` cells onto the board. */
    method MakeBoard()
      modifies this
      ensures board == old(board) + EmptyGrid(width, height)
      ensures currPlayer == old(currPlayer) && gameOver == old(gameOver)
    {
      var y := 0;
      while y < height
        invariant 0 <= y <= height
        invariant board == old(board) + EmptyGrid(width, y)
        invariant currPlayer == old(currPlayer) && gameOver == old(gameOver)
      {
        board := board + [EmptyRow(width)];
        y := y + 1;
      }
    }

    /** Empties the board and clears the flag. The player to move is kept. */
    method RestartGame()
      modifies this
      ensures Valid()
      ensures board == EmptyGrid(width, height) && !gameOver
      ensures currPlayer == old(currPlayer)
    {
      board := [];
      gameOver := false;
      MakeBoard();
      assert State() == Start(width, height, currPlayer);
      StartConsistent(width, height, currPlayer);
    }

    /** Scans column `x` from the bottom row up and returns the first empty
        row, or None when the column is full. */
    method FindSpotForCol(x: nat) returns (spot: Option<nat>)
      requires Valid() && x < width
      ensures spot == Spot(board, width, height, x)
      ensures spot.Some? ==> spot.value < height && board[spot.value][x] == Empty
      ensures spot.Some? ==> forall i :: spot.value < i < height ==> board[i][x].Taken?
      ensures spot.None? <==> forall i :: 0 <= i < height ==> board[i][x].Taken?
    {
      var y: int := height - 1;
      while y >= 0
        invariant -1 <= y < height
        invariant forall i :: y < i < height ==> board[i][x].Taken?
      {
        if board[y][x] == Empty {
          return Some(y);
        }
        y := y - 1;
      }
      return None;
    }

    /** Sets the end-of-game flag and nothing else. */
    method EndGame()
      modifies this`gameOver
      ensures gameOver
    {
      gameOver := true;
    }

    /** Whether the player to move has four in a row. Every start cell is
        tried in every direction; a cell off the board is never read. */
    method CheckForWin() returns (won: bool)
      requires Valid()
      ensures won == WinFor(board, width, height, currPlayer)
    {
      var y := 0;
      while y < height
        invariant 0 <= y <= height
        invariant forall i, j, d :: 0 <= i < y && 0 <= j < width ==>
                    !AllOwned(board, width, height, currPlayer, Run(i, j, d))
      {
        var x := 0;
        while x < width
          invariant 0 <= x <= width
          invariant forall i, j, d :: 0 <= i < y && 0 <= j < width ==>
                      !AllOwned(board, width, height, currPlayer, Run(i, j, d))
          invariant forall j, d :: 0 <= j < x ==>
                      !AllOwned(board, width, height, currPlayer, Run(y, j, d))
        {
          if AllOwned(board, width, height, currPlayer, Run(y, x, Horizontal))
            || AllOwned(board, width, height, currPlayer, Run(y, x, Vertical))
            || AllOwned(board, width, height, currPlayer, Run(y, x, DownRight))
            || AllOwned(board, width, height, currPlayer, Run(y, x, DownLeft))
          {
            return true;
          }
          x := x + 1;
        }
        y := y + 1;
      }
      forall i, j, d | AllOwned(board, width, height, currPlayer, Run(i, j, d))
        ensures false
      {
        RunStartsOnGrid(board, width, height, currPlayer, i, j, d);
      }
      return false;
    }

    /** A click on column `x`: drop the current player's piece, pass the
        turn, then end the game on a full board, or else when the player now
        to move has four in a row. A full column is ignored. */
    method HandleClick(x: nat)
      requires Valid() && x < width
      modifies this
      ensures Valid()
      ensures State() == Drop(width, height, old(State()), x)
    {
      var y := FindSpotForCol(x);
      if y == None {
        return;
      }
      ghost var before := State();
      board := board[y.value := board[y.value][x := Taken(currPlayer)]];
      currPlayer := Other(currPlayer);
      DropKeepsConsistent(width, height, before, x);
      if Full(board) {
        EndGame();
        return;
      }
      var won := CheckForWin();
      if won {
        gameOver := true;
        EndGame();
      }
    }
  }
}
