# Tic-tac-toe game core, modelled in Dafny

This project models the core of a browser tic-tac-toe game with a computer opponent, the `TicTacToeGame` class of `script.js`:

- **Board** (`board.dfy`). A board is nine cells, each `Empty` or holding an `X` or `O` mark. There are eight winning lines. The winner scan visits them in a fixed order (rows, columns, diagonals) and reports the owner of the first line with three equal marks. The full-board test checks that no cell is empty. Mark counting supports the proofs.
- **Search** (`search.dfy`). This is the computer opponent as pure specification functions:
  - the depth-scored minimax value of a position;
  - the best move for `O`, where ties go to the lowest index;
  - the random move;
  - the difficulty policy that picks between the best move and the random move.
- **Game** (`game.dfy`). The class `TicTacToeGame` holds the board as a nine-cell array, the player to move, the running flag, the score tally and the undo stack. Its methods update these in place:
  - `MakeMove`, `EndGame`, `UndoMove`, `RestartGame` and `ResetScore` form the state machine.
  - `Minimax`, `GetBestMove` and `GetAIMove` run the search on the board array. Each trial marks a cell, searches, and clears the cell again. Each method is proved equal to its specification function in `Search`, and the board comes back unchanged.

The class invariant `Valid()` says:

- A running game is in a live position: unwon, not full, and with the mark counts matching the player to move.
- A finished game has an empty undo stack.
- Every undo entry is a live position.

Several results follow from this invariant:

- X has as many marks as O, or one more (`MarksOfAGame`).
- The winner of a winning move is always the mover, so the board never shows wins for both players.
- A move that does not end the game, followed by an undo, restores the board, the player to move and the undo stack (`MoveThenUndo`).

`Math.random()` draws become parameters `chance` and `pick`, real numbers in [0, 1). The `±Infinity` starting values of the search loops become `None` in an `Option<int>`. The proofs show that `None` is never returned from a position that is not over.

## Model

| member | source | states |
|---|---|---|
| `Board.FirstLineFrom` | script.js:270-280 | the scan stops at the first owned line from k on: that line holds three equal marks and no line before it does; it returns past the end when no line is owned |
| `Board.Winner` | script.js:263-281 | the result is `None` exactly when no line holds three equal marks; otherwise it is the owner of the first such line in row, column, diagonal order |
| `Board.FullIffNoEmptyCells` | script.js:287-289 | the board is full exactly when its count of empty cells is zero |
| `Board.EveryWinningLineIsMovers` | script.js:158-159 | after a mark on an empty cell of an unwon board, every owned line passes through that cell and belongs to the mover, so the two players never both have a line |
| `Board.MoverIsWinner` | script.js:158-159 | after a move on an unwon board the winner is either nobody or the mover, which is why `endGame(this.currentPlayer)` credits the right player |
| `Search.Minimax` | script.js:227-257 | the score has magnitude at most 10 - depth whenever depth plus the empty cells is at most 10, the horizon every search from a real board stays within |
| `Search.RootScoreBound` | script.js:227-232 | a search started at depth 0 on any board scores in [-10, 10], since a board has at most nine empty cells |
| `Search.ChildScoreBound` | script.js:213-214 | every candidate score `getBestMove` compares lies in [-10, 10] |
| `Search.ChildrenUpTo` | script.js:234-255 | the running best of the search loop is defined (not the ±Infinity start) exactly when an empty cell has been tried; within the horizon it lies in [-(9 - depth), 9 - depth] |
| `Search.ChildrenUpToIsExtremum` | script.js:236-243 | the running best is the maximum (O to move) or the minimum (X to move) of the reply scores tried so far, and one of those replies attains it |
| `Search.MinimaxOfOpenPosition` | script.js:234-256 | on a position that is not over, the score is the max or min over all empty cells of the reply's score one ply deeper, and some empty cell attains it |
| `Search.MinimaxOfFinishedPosition` | script.js:228-232 | an O win scores 10 - depth and an X win scores depth - 10; a win is tested before fullness, and a full unwon board scores 0 |
| `Search.BestUpTo` | script.js:208-222 | after cells 0..i-1 the move is -1 exactly when none of them is empty; otherwise it is an empty cell whose score is recorded, is at least every tried empty cell's score, and is strictly above every earlier empty cell's score |
| `Search.BestMove` | script.js:207-225 | the best move is -1 exactly when the board is full; otherwise it is the lowest-indexed empty cell whose minimax score is maximal among all empty cells |
| `Search.AvailableUpTo` | script.js:198-200 | the available moves are exactly the empty cells, in strictly increasing index order |
| `Search.DrawIndex` | script.js:203 | `Math.floor(Math.random() * n)` is a valid position among n candidates |
| `Search.RandomMove` | script.js:197-205 | the random move is -1 exactly when the board is full, and otherwise it is an empty cell |
| `Search.RandomMoveReachesEveryEmptyCell` | script.js:202-204 | every empty cell is the random move for some draw in [0, 1) |
| `Search.AIMove` | script.js:182-195 | at every difficulty the computer's move is -1 exactly when the board is full, and otherwise it is an empty cell |
| `Game.Credit` | script.js:300-305 | ending a game adds exactly one to the total of games: the winner's counter for a win, the draws counter for a draw, and the other counters stay the same |
| `Game.BalancedAfterMove` | script.js:147 | a mark placed by the player to move leaves the counts balanced for the opponent to move |
| `Game.MarksOfAGame` | script.js:147-168 | on the board of every game that keeps the invariant, running or finished, X has as many marks as O or one more, because X opens and each accepted move writes the mover's mark and passes the turn |
| `Game.EmptyBoardIsLive` | script.js:381-382 | a fresh empty board with X to move is live: it is balanced, unwon and not full |
| `Game.TicTacToeGame.constructor` | script.js:2-10 | a new game has an empty board, X to move, a running game, zero scores, an empty undo stack and medium difficulty |
| `Game.TicTacToeGame.MakeMove` | script.js:138-169 | a call on a finished game, an out-of-range index or an occupied cell changes nothing. An accepted move writes the mover's mark into that cell only. A win by the mover (tested before fullness) or a full board ends the game: the result is credited, the undo stack is cleared and the player stays the same. Otherwise the move pushes a snapshot of the prior board and player, and the turn passes to the opponent. The invariant is kept |
| `Game.TicTacToeGame.EndGame` | script.js:297-327 | the game stops, the result is credited to the tally, and the undo stack is cleared; the board and player stay as they are |
| `Game.TicTacToeGame.UndoMove` | script.js:402-407 | with an empty stack or a finished game nothing changes. Otherwise the last snapshot is popped and its board copy and player become current, the game stays running and the scores stay the same |
| `Game.TicTacToeGame.RestartGame` | script.js:380-384 | the board becomes nine fresh empty cells, X moves, the game runs and the undo stack is empty; the scores stay the same |
| `Game.TicTacToeGame.ResetScore` | script.js:396-397 | all three counters become zero and no other field changes |
| `Game.TicTacToeGame.TryCell` | script.js:238-240 | marking an empty cell with the mover's mark, searching one ply deeper and clearing it leaves the cells as they were and yields that child's minimax score; the same trial appears at lines 213-215 and 249-251 |
| `Game.TicTacToeGame.Minimax` | script.js:227-257 | the in-place search returns the specification's minimax score, and the board comes back unchanged |
| `Game.TicTacToeGame.GetBestMove` | script.js:207-225 | the in-place best-move loop returns the specification's best move, and the board comes back unchanged |
| `Game.TicTacToeGame.GetAIMove` | script.js:182-195 | the computer's move follows the difficulty policy: -1 exactly on a full board, otherwise an empty cell; the board comes back unchanged |
| `Game.MoveThenUndo` | script.js:142-147 | an accepted move that does not end the game, followed by an undo, restores the board, the player to move and the undo stack |

## Left out

- The page, the DOM and rendering are left out: `initializeElements`, `updateBoard`, `updateDisplay`, `updateScoreboard`, the game message text, and the highlighting of the winning line (`highlightWinningCells`). `FirstLineFrom` still gives the index of the line that would be highlighted.
- Audio is left out, because playback happens outside the core: `initializeSounds`, `playSound`, `toggleSound`, `soundEnabled`, and the choice of sound cue in `endGame`.
- Event wiring (`attachEventListeners`) and the delayed computer reply (`setTimeout` with a random delay) are event-loop plumbing. The reply simply calls `makeMove`, which is modelled.
- The delayed reply does not check that it is still the computer's turn. Its only guard is the one in `makeMove`: the game is running and the cell is empty. If the human undoes a move during the delay, the chosen cell gets the current player's mark, which is then X. The model follows the code in this respect. A design that re-checks the turn before applying the reply is not what the code does.
- The difficulty is an enumeration. Any unrecognised setting behaves like easy, as the `default` branch does. The code has no player argument on moves and always searches for O, so a "wrong player" rejection does not exist and is not modelled.
- `gameMode`, `setGameMode` and the player display names are UI-only state. The only state change in `setGameMode` is a call to `restartGame`, which is modelled.
- `updateStats` is left out, because it computes a floating-point win-rate percentage for display.
- `gameHistory` is left out, because it is initialised and never used.
- Indexes that are not integers, such as strings or fractions, cannot occur in the model because `index` is an `int`. Out-of-range integers are rejected, as the code's `undefined !== ''` test rejects them.
