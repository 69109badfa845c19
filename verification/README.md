# Connect Four: board, win detection and Monte-Carlo alpha-beta search

This project models the core of a console Connect-Four game written in C++.
The core has three parts:

- the `Board` class (board.h, board.cpp): a grid of columns into which
  players drop pieces, a move history and a "player" history, drop and undo,
  full-column and full-board tests, the list of playable columns, and
  `winner`, which checks the last piece played for four in a row;
- the leaf evaluator (game.cpp): `select_random_move`, `rollout_mc` and
  `evaluate`, which plays 200 random games from a position and scores wins
  minus losses;
- the search (game.cpp): `alphabeta`, a depth-limited, fail-soft alpha-beta
  search that scores a won board +-400 and uses `evaluate` at the horizon.

Everything is modelled with immutable values.

- A `Board` holds the grid as a sequence of columns, each listed bottom
  row first, with -1 marking an empty cell. Both histories are sequences
  whose index 0 is the most recent entry, like the front of a `std::list`.
- Functions stand in for the in-place updates.
- The search threads the board through every drop, recursive search and
  undo, exactly as the code does through its reference parameter. It is
  proved to hand back the board it was given.
- `std::rand()` becomes an oracle `rand: nat -> RandValue` plus the index of
  the next unused draw. `RAND_MAX` is 2^31 - 1, the GNU C library's value.
- The search takes its leaf evaluator as a parameter. Its only requirement
  is the range of `evaluate`, [-200, 200]. `Search.RolloutLeaf` shows that
  the rollout evaluator meets it.

Modules: `Cells` covers cell values and the scans within one column;
`BoardState` covers board.h/board.cpp apart from `winner`; `WinDetection`
covers `winner` and its four scans, with a definition of "four in a row
through the last piece" to prove them against; `WinExamples` holds
concrete games; `Playout` covers the random move, the rollout and the
evaluation; `Search` covers `alphabeta` and an unpruned minimax reference.

Behaviour of the code that the model keeps, though a reader might expect
otherwise:

- `do_move` pushes the COLUMN onto both the move history and the player
  history (board.cpp:92-93). So `get_last_player` returns the last column
  played, not the last mover.
- The board constructor checks nothing; negative sizes are excluded only
  by `nat`.
- `rollout_mc` starts with player `(last column + 1) % 2`, not with the
  opponent of the last mover.
- `select_random_move` divides the draw by `d = (RAND_MAX + 1) / n` for
  `n` playable columns. Every index inside the list gets exactly `d` of the
  2^31 draws, so those indices are equally likely. The `2^31 mod n`
  leftover draws, though, give the index `n`, one past the end of the list
  (see Findings).
- When the AI is one drop from a win, the code is sure to take the winning
  column only at depths 1 and 2. From depth 3 on, a higher column that forces a later win
  is also worth +400, and the strict `>` comparison keeps the first column
  in the list, which is the highest one.

## Model

| member | source | states |
|---|---|---|
| Cells.NextPlayer | game.cpp:169 | `(p + 1) % 2` with C++'s truncating remainder; for a player, it is the other player |
| Cells.NextPlayerAlternates | game.cpp:221 | handing the turn over twice returns it to the same player |
| Cells.DropRow | board.cpp:85-90 | the landing row is the lowest free row: all rows below it are occupied, and it is free unless the column has no free row |
| Cells.TopRow | board.cpp:101-106 | the highest occupied row, with every row above it free; -1 for an empty column |
| Cells.StackedTopRow | board.cpp:131-136 | in a column filled from the bottom, the topmost piece sits directly below the landing row |
| Cells.PushStacked | board.cpp:85-90 | a drop into a column with room keeps it filled from the bottom, raises the landing row by one and makes the new piece the topmost |
| Cells.PopStacked | board.cpp:101-106 | clearing the topmost piece keeps the column filled from the bottom and makes the cleared row the landing row |
| BoardState.New | board.cpp:3-16 | the constructor makes `cols` columns of `height` empty cells and empty histories; with at least one row the board is valid |
| BoardState.IsColFull | board.cpp:78-81 | on a column filled from the bottom, the top-cell test holds exactly when the landing row equals the height |
| BoardState.IsFull | board.cpp:68-76 | the board is full exactly when every column is full |
| BoardState.AvailableMoves | board.cpp:111-120 | the list holds exactly the columns that are not full, each once, in strictly descending order |
| BoardState.NoMovesIffFull | board.cpp:68-76 | the available-move list is empty exactly when `is_full` holds |
| BoardState.DoMove | board.cpp:83-94 | the piece lands on the lowest free row; no other cell changes; the column is pushed onto both histories |
| BoardState.Undo | board.cpp:96-109 | both histories are popped; the topmost piece of the last column played is cleared and no other cell changes |
| BoardState.LastMove | board.h:22 | on a valid board `get_last_move` returns a column of the board that the move history names, so that column holds a piece |
| BoardState.LastPlayer | board.h:21 | on a valid board `get_last_player` returns the last column played |
| BoardState.DoMovePreservesValid | board.cpp:83-94 | a drop by a player into a column with room keeps the board valid and uses up exactly one free cell |
| BoardState.UndoPreservesValid | board.cpp:96-109 | undoing the last move of a valid board with a non-empty history keeps it valid |
| BoardState.UndoDoMove | board.cpp:83-109 | a drop into a column with room followed by an undo gives back the same board: grid and both histories |
| BoardState.DoMoveOnFullColumn | board.cpp:85-93 | on a full column the drop changes no cell but still grows the history, so the following undo clears a piece and does not restore the board |
| BoardState.HistoriesMatchPieces | board.cpp:92-93 | on a valid board both histories are as long as the number of pieces on the board |
| BoardState.FullIffNoFreeCells | board.cpp:68-76 | a valid board is full exactly when it has no free cell |
| BoardState.FreeCellsBound | board.cpp:3-16 | a board never has more free cells than `cols * height` |
| BoardState.LastMoveAfterUndo | board.h:21-22 | after drops into `m1` then `m2` and an undo, the last move and the last player are both `m1` |
| WinDetection.Winner | board.cpp:123-145 | with no history there is no winner; otherwise the result is either no winner or the value of the top piece of the last column played |
| WinDetection.WinnerIsMover | board.cpp:123-145 | right after a legal drop, the winner is either nobody or the player who dropped |
| WinDetection.RunLength | board.cpp:151-159 | the counting loop counts at most the steps left; every step it counts holds the player, and it stops at the first step below 4 that is off the board or holds something else |
| WinDetection.AnyOffset | board.cpp:167-180 | the offset loop from offset `i` on succeeds exactly when, for some offset from `i` to 3, the window that starts that many steps back from the piece holds the player |
| WinDetection.OffsetIsWindow | board.cpp:169-178 | one offset's count reaches 4 exactly when the window that starts that many steps back from the piece holds the player |
| WinDetection.RunIsWindow | board.cpp:151-160 | the counting loop reaches 4 exactly when all four cells of its window are on the board and hold the player |
| WinDetection.AnyOffsetIsWindowThrough | board.cpp:167-181 | the offset loop succeeds exactly when some window of four along its direction that contains the piece holds the player |
| WinDetection.DownWinIsWindow | board.cpp:147-161 | `_down_win` holds exactly when the piece and the three cells below it are on the board and hold the piece's player |
| WinDetection.HoriWinIsWindowThrough | board.cpp:163-182 | `_hori_win` holds exactly when some horizontal window of four through the piece holds its player |
| WinDetection.DiagUpWinIsWindowThrough | board.cpp:184-205 | `_diag_up_win` holds exactly when some rising diagonal window of four through the piece holds its player |
| WinDetection.DiagDownWinIsWindowThrough | board.cpp:207-228 | `_diag_down_win` holds exactly when some falling diagonal window of four through the piece holds its player |
| WinDetection.DownIsWindowThrough | board.cpp:147-161 | scanning only downward from the topmost piece finds exactly the vertical lines of four through it |
| WinDetection.WinnerIsFourThroughLastPiece | board.cpp:123-228 | `winner` returns the top piece's player exactly when four in a row, in any of the four directions, runs through that piece, and no winner otherwise |
| WinExamples.EmptyBoardHasNoWinner | board.cpp:125-127 | the new 7-by-6 board has no winner |
| WinExamples.VerticalWin | board.cpp:147-161 | four drops by player 0 into column 0 win for player 0 |
| WinExamples.HorizontalWin | board.cpp:163-182 | drops by player 0 into columns 0 to 3 win for player 0 |
| WinExamples.DiagonalWin | board.cpp:184-205 | a game ending with player 0 on (0,0), (1,1), (2,2) and (3,3) is won by player 0 |
| Playout.AsWrittenIndexInRange | game.cpp:229 | the index as written is inside the list exactly for the draws below `n * ((RAND_MAX + 1) / n)` |
| Playout.AsWrittenIndexOnePastEnd | game.cpp:229-230 | with seven playable columns, the draw `RAND_MAX` indexes position 7, one past the end |
| Playout.AsWrittenIndexSlices | game.cpp:229 | as written, each index `i` inside the list is hit by exactly the draws from `i * d` to `(i + 1) * d - 1`, with `d = (RAND_MAX + 1) / n`, so the in-range indices are equally likely |
| Playout.RandomIndex | game.cpp:229 | the corrected index always lies in `0 .. n-1`, and it is the code's index whenever that one lies inside the list |
| Playout.SelectRandomMove | game.cpp:226-232 | the selected column is one of the available moves |
| Playout.SelectRandomMoveAsWritten | game.cpp:228-231 | for every draw below `n * ((RAND_MAX + 1) / n)` the selected column is the one at the code's index; the leftover draws select the last column of the list |
| Playout.RolloutFrom | game.cpp:213-222 | the rollout ends with no winner or with one of the two alternating players; it uses at most one draw per free cell, all of them when no one wins, and at least one when someone wins; a winner is the player who made the last drop |
| Playout.RolloutStep | game.cpp:214-216 | a drop into an available column keeps the board valid, uses up one free cell, and leaves either no winner or the player who dropped |
| Playout.DropByNext | game.cpp:212-221 | the opener makes the first drop, and the `k`-th drop of a rollout is the `(k - 1)`-th drop of the rollout that follows the opening drop |
| Playout.DropByParity | game.cpp:212-221 | the opener makes the odd-numbered drops and the other player the even-numbered ones |
| Playout.FirstRolloutPlayer | game.cpp:210 | the first rollout player is a player, namely `(last column + 1) % 2` |
| Playout.Rollout | game.cpp:206-224 | the result is no winner or a player; the rollout uses at most one draw per free cell, exactly one per free cell when no one wins; a winner is the player who made the last drop, the first drop being `FirstRolloutPlayer`'s |
| Playout.Tally | game.cpp:195-202 | at most `n` of the `n` rollouts count as wins or losses |
| Playout.Evaluate | game.cpp:189-204 | the score lies in [-200, 200] |
| Playout.RolloutRepeatsLastMover | game.cpp:210 | after player 0 drops into column 1, the rollout starts with player 0 again |
| Search.Mover | game.cpp:142 | the caller drops on max plies and the other player on min plies |
| Search.Improve | game.cpp:146-149 | the incumbent becomes the larger (max ply) or smaller (min ply) value; it is replaced only by a strictly better child |
| Search.TerminalValue | game.cpp:117-127 | a won board is worth +400 exactly when the caller won, and -400 otherwise |
| Search.AlphaBeta | game.cpp:113-187 | the board is handed back unchanged; the value lies in [-400, 400]; a won board scores +-400 and the leaf evaluator scores the horizon and full boards, both with column -1; otherwise the column is an available one |
| Search.SearchMoves | game.cpp:137-186 | the loop hands back the board it was given, and its choice is the incumbent or one of the columns tried |
| Search.Minimax | game.cpp:113-187 | the unpruned reference search's value lies in [-400, 400] |
| Search.MinimaxMoves | game.cpp:137-186 | the unpruned loop keeps the incumbent or replaces it by a strictly better column from the list |
| Search.DropAndUndo | game.cpp:142-145 | a drop into an available column keeps the board valid, uses up a free cell and is undone exactly |
| Search.SearchMovesStep | game.cpp:141-158 | proof step that unfolds the loop once: one loop iteration either stops after the cut-off test with the updated incumbent or continues with the rest of the columns and the narrowed window |
| Search.MaxStep | game.cpp:146-157 | on a max ply, a child that agrees with minimax on the window keeps the incumbents equal once above `alpha`, and a cut-off leaves both at `beta` or above |
| Search.MinStep | game.cpp:173-180 | the mirror image of `MaxStep` on min plies |
| Search.AlphaBetaWindow | game.cpp:113-187 | for any window inside (-infinity, infinity): alpha-beta is at most `alpha` when minimax is, at least `beta` when minimax is, and equal to the minimax choice in between |
| Search.SearchMaxWindow | game.cpp:137-162 | the max-ply loop agrees with the unpruned loop on the node's window |
| Search.SearchMinWindow | game.cpp:164-186 | the min-ply loop agrees with the unpruned loop on the node's window |
| Search.AlphaBetaIsMinimax | game.cpp:105-106 | with the root window (-infinity, infinity), alpha-beta returns exactly the minimax value and column, and the board unchanged |
| Search.MinimaxMovesBest | game.cpp:141-160 | over a descending column list, no column beats the one kept, and every equally good column is a lower one |
| Search.MinimaxChoosesBest | game.cpp:137-186 | at an inner node, the chosen column is available and carries its child's value; no available column is better; among equally good columns the highest is chosen |
| Search.ChildWinValue | game.cpp:115-128 | a winning drop is worth +400, and one or two plies above the horizon only a winning drop is |
| Search.ReplyBelowWin | game.cpp:164-186 | two plies above the horizon, a drop that does not win is worth at most 200 |
| Search.WinningDropIsFound | game.cpp:100-110 | when the AI can win with one drop, the root value is +400; at depth 1 or 2 the chosen column wins |
| Search.RolloutLeaf | game.cpp:189-204 | the rollout evaluator stays within [-200, 200], the range the search needs |

## Left out

- `show` (board.cpp:44-66), `start_game`, `get_user_input`, `parse_cmd_args`, `print_help` and `main`: console input and output and the game loop, outside the core.
- `get_ai_input` (game.cpp:100-111) appears only as its root call, `AlphaBeta(b, depth, -Infinity, Infinity, player, true, eval)`; its printing is left out.
- The diagnostic printing of each root child's value inside `alphabeta` (game.cpp:152-154), and the `initial_depth` parameter, which is used only for that printing.
- The destructor and the copy constructor (board.cpp:18-42): with value semantics a copy is the value itself, and there is no storage to free.
- `srand(time(nullptr))` and the global state of `std::rand()`: each evaluation takes its own oracle and cursor. In the search, the leaf evaluator is a function of the board and the player, whereas the program's `evaluate` also depends on how many draws earlier leaves consumed.
- Search.RolloutLeaf: every leaf starts from the same draw index, and a board with an empty history scores 0, where the code would read the front of an empty list (undefined behaviour).
- The statistical quality of `evaluate` (the distribution of rollout outcomes): only its range, the draws it consumes and who can win a rollout are stated.
- Board sizes: `nat` excludes negative sizes, and a height of 0 is excluded from `Valid`, because every top-cell test reads row `height - 1`.
- 32-bit overflow: the search's values stay within +-999999 (`infinity`, game.cpp:10), and `evaluate` stays within +-200. `RAND_MAX + 1u` is 2^31, which fits because the code computes it as an unsigned value. So unbounded integers change nothing.
- BoardState.DoMove: the player history receives the column (board.cpp:93), not the player.
- Playout.SelectRandomMove: the few draws that index past the end (undefined behaviour in the code) pick the last column, and so does any draw for a list longer than 2^31 entries, where the code divides by zero.
- Search.WinningDropIsFound: stated for depths 1 and 2 only, because at greater depths the code can keep a higher column that wins later.

## Findings

| source | as written | input that shows it | evidently intended | confidence | as-written member | corrected member |
|---|---|---|---|---|---|---|
| game.cpp:229-230 | `std::rand()/((RAND_MAX + 1u)/possible_moves.size())` can be as large as the list size | 7 playable columns and `rand()` returning `RAND_MAX` (2147483647) give index 7, one past the end of the list | an index in `0 .. n-1` for every draw, with each in-range index keeping its `(RAND_MAX + 1) / n` draws (Playout.AsWrittenIndexSlices), e.g. by drawing again when the index equals `n`; the model keeps the code's index wherever it is in range and takes the last position for the leftover draws | not executed | Playout.RandomIndexAsWritten, Playout.AsWrittenIndexOnePastEnd | Playout.RandomIndex |
