# Connect Four game engine

A model of the game-state engine of a browser Connect Four game
(`class Game` in connect4.js). Two players take turns clicking a column; the
current player's piece falls to the lowest empty row of that column, the turn
passes to the other player, and the game ends when the board is full or when
a four-in-a-row (horizontal, vertical or either diagonal) is found.

The project has three modules:

- `Board` (board.dfy): the grid as a value. Cells are `Empty` or
  `Taken(P1)`/`Taken(P2)`; the board is `height` rows of `width` cells, row 0 at
  the top. It defines the landing row of a column (`LowestEmpty`, `Spot`),
  gravity (`Settled`), placing a piece (`Place`), the tie test (`Full`), piece
  tallies, and the four-cell runs together with the win predicate (`Run`,
  `Owns`, `AllOwned`, `WinFor`).
- `Rules` (rules.dfy): `Drop`, the effect of one click as a function of the
  state before it, the invariant `Consistent` (shape, gravity, alternating
  turns) and the lemmas about one click.
- `Connect4` (game.dfy): class `Game` with the fields the source updates in
  place (`board`, `currPlayer`, `gameOver`) and its methods `MakeBoard`,
  `RestartGame`, `FindSpotForCol`, `EndGame`, `HandleClick` and
  `CheckForWin`, written as the source writes them (loops with early return)
  and proved against the `Board` and `Rules` functions.

The header comment of connect4.js (lines 1-5) says that the players
alternate and that the game ends when a player gets four in a row or the
board fills. The engine is modelled as the code writes it, which differs
from that summary as follows:

- the turn passes to the other player *before* the tie test and the win scan,
  so the scan looks for four in a row of the player now to move, not of the
  player who just moved; a four-in-a-row is therefore noticed one click late
  (`Rules.WinSeenNextClick` in general, `Rules.WinSeenOneClickLate` on a
  concrete game);
- the tie test runs before the win scan, and a full board ends the game
  without scanning;
- a click never consults `gameOver`, so pieces are still accepted after the
  game has ended (`Rules.DropAfterGameOver`), and no click clears the flag;
- a restart empties the board and clears the flag but keeps the player to
  move;
- there is no column range check and no error result: a click on a full
  column is silently ignored, and the column must be in range (a
  precondition).

Because the bounds test in `Owns` comes before the cell is read, Dafny's
well-formedness check shows that the win scan never reads a cell off the
board.

## Model

| member | source | states |
|---|---|---|
| `Board.Other` | connect4.js:123-124 | the toggle between the two players always yields the player other than the current one |
| `Board.EmptyRow` | connect4.js:45 | a new row has exactly `width` cells, all empty |
| `Board.EmptyGrid` | connect4.js:43-47 | the pushed rows make `height` rows of `width` cells, every one empty |
| `Board.LowestEmpty` | connect4.js:80-87 | the bottom-up scan returns the largest empty row below the start, with every row below it occupied, and returns none exactly when every scanned row is occupied |
| `Board.SpotSplitsColumn` | connect4.js:80-87 | on a board obeying gravity, the cells of the column at and above the landing row are empty and those below are occupied |
| `Board.Place` | connect4.js:119 | placing a piece sets exactly the one cell to the player's piece, keeps the shape, and leaves every other cell as it was |
| `Board.PlaceAtSpotSettled` | connect4.js:81-83 | placing a piece in a column's landing row keeps every column's pieces in one block resting on the bottom row |
| `Board.PlaceTally` | connect4.js:119 | placing a piece on an empty cell adds one to its owner's count, removes one empty cell, and leaves the other player's count unchanged |
| `Board.FullIffAllPieces` | connect4.js:127 | the tie test holds exactly when the board holds `width * height` pieces, and a board never holds more |
| `Board.Run` | connect4.js:154-157 | each run lists four cells stepping from the start cell along one of the four directions |
| `Board.RunStartsOnGrid` | connect4.js:142-151 | a run whose four cells all pass the bounds test and hold the player's piece starts on the board, so scanning only on-board start cells misses no run |
| `Rules.Start` | connect4.js:20-24 | a new game has a board of the given size whose every cell is empty, no pieces, the given player to move, and is not over |
| `Rules.StartConsistent` | connect4.js:32-35 | a fresh or restarted board satisfies the invariant whichever player is to move |
| `Rules.Drop` | connect4.js:107-136 | one click as a function of the state before it (the reference for `HandleClick`); the board keeps its shape |
| `Rules.DropOnFullColumn` | connect4.js:113-116 | a click on a full column leaves board, player to move and end-of-game flag unchanged |
| `Rules.DropSetsOneCell` | connect4.js:113-119 | a click on a column with room fills its lowest empty cell, which was empty and has only occupied cells below it, with the clicking player's piece, and changes no other cell |
| `Rules.DropAddsOnePiece` | connect4.js:119 | a click on a column with room raises the piece count by one, all of it to the clicking player |
| `Rules.DropPassesTurn` | connect4.js:123-124 | after a click on a column with room the other player is to move |
| `Rules.DropEndsGame` | connect4.js:126-135 | a click that fills the board ends the game; otherwise the game is over afterwards exactly when it was already over or the player now to move has four in a row |
| `Rules.DropAfterGameOver` | connect4.js:107-136 | a click after the game has ended still places a piece and passes the turn, and the game stays over |
| `Rules.DropKeepsConsistent` | connect4.js:113-134 | every click keeps the shape, gravity, and the alternation of turns (the player to move has placed as many pieces as the other or one fewer) |
| `Rules.WinSeenNextClick` | connect4.js:119-134 | if a click gives the clicking player four in a row, the game is over after the next click that lands a piece |
| `Rules.WinSeenOneClickLate` | connect4.js:123-134 | a concrete 7 by 6 game where the first player completes a vertical four but the game continues, and ends only after the second player's next click |
| `Connect4.Game.constructor` | connect4.js:15-25 | a new game (7 by 6 by default) has an empty board, the first player to move, the flag clear, and satisfies the invariant |
| `Connect4.Game.MakeBoard` | connect4.js:43-47 | the loop appends `height` empty rows of `width` cells to the board and changes nothing else |
| `Connect4.Game.RestartGame` | connect4.js:32-35 | restarting leaves an empty board and a clear flag, keeps the player to move, and satisfies the invariant |
| `Connect4.Game.FindSpotForCol` | connect4.js:80-87 | the descending loop returns the largest empty row of the column, with every row below it occupied, or none exactly when the column is full |
| `Connect4.Game.EndGame` | connect4.js:99-105 | ending the game sets the flag and changes nothing else |
| `Connect4.Game.CheckForWin` | connect4.js:138-165 | the nested scan returns true exactly when some start cell and direction give four on-board cells all holding the player to move |
| `Connect4.Game.HandleClick` | connect4.js:107-136 | a click changes the game exactly as `Rules.Drop` says and keeps the invariant |

Definitions without a contract of their own, used by the members above:
`Board.Spot` (connect4.js:80-87) is the landing row, `LowestEmpty` started at
the bottom row; `Board.Full` (connect4.js:127) is the tie test, every cell of
every row occupied; `Board.Owns` and `Board.AllOwned` (connect4.js:142-148)
are the `_win` predicate, the bounds test followed by the comparison with the
player, over each listed cell; `Board.WinFor` is some run of four owned by
the player.

## Left out

- Rendering: `makeHtmlBoard`, `placeInTable` and the loop in `restartGame` that
  removes pieces from the page (connect4.js:49-78, 89-97, 37-40) only build or
  update the page.
- The start button handler and the `Player` class (connect4.js:184-194): the
  colours come from the page; players are the tags `P1` and `P2`, and the
  constructor's `p1` and `p2` become these two tags. Passing the same player
  object twice is not modelled.
- Reading the column from the clicked element (connect4.js:110), which can
  give a non-number: the column is a natural number below `width`, a
  precondition of `HandleClick`. Out-of-range columns are not modelled.
- `assignColors` (connect4.js:36) is called but defined nowhere in
  connect4.js; it is not part of this model. If it is really undefined, the
  call throws after lines 33-35 have emptied the board and cleared the flag,
  so `restartGame` never returns normally and the piece-removal loop never
  runs; `Connect4.Game.RestartGame` returns normally, leaving the same game
  state.
- The message passed to `endGame` and the commented-out alert
  (connect4.js:99-103): presentation only.
- `startGame` (connect4.js:27-30) is never called. It would push `height`
  more empty rows onto the current board (what `Connect4.Game.MakeBoard`
  describes as `old(board) + EmptyGrid(width, height)`) and rebuild the page,
  so it is not a reset.
- The unused `gameStatus` field (connect4.js:21) and the commented-out
  globals (connect4.js:8-12).
- `Connect4.Game.CheckForWin` returns `false` where `checkForWin` falls off
  its loops and returns `undefined`; both are falsy to the only caller.
- Board dimensions are natural numbers; negative or fractional sizes are not
  modelled.
- The board is a sequence of rows held in a field and reassigned on each
  update; aliasing of row arrays is not modelled (nothing else holds them).
