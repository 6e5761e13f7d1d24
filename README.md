# Tic-tac-toe game engine, modelled in Dafny

This project models the logic of a React tic-tac-toe app (`src/App.jsx`). The app has two parts:

- **Win detection.** `getWinner` searches the eight fixed lines (three rows, three columns, two diagonals) of a 9-cell row-major board. It returns the first line whose three cells hold the same mark, or `null`. The value `isDraw` is derived from the current board. The value `status` is derived from the current board and the stored turn flag `xIsNext`.
- **The `App` state machine.** Its state is the history of board snapshots, the pointer `currentMove`, the stored turn flag `xIsNext`, and the scores (X wins, O wins, draws). Its handlers are: square click (`handleSquareClick` plus `handlePlay`), `undo`, `jumpTo`, `resetBoard` (the "Clear" button), `newRound` and "Reset All".

Modules:

- `Wrappers` (`wrappers.dfy`): `Option`, standing for JavaScript's `null`/`undefined`.
- `Squares` (`squares.dfy`): players, cells, boards (`seq<Cell>` of length 9), and counting the cells that equal a value.
- `Rules` (`rules.dfy`): the eight lines and `Winner` (`getWinner` as a function). It also holds `GetWinner` (the source's loop with its early return, proved equal to `Winner`), `IsDraw` and `GameStatus` (the status as the datatype `Win(p) | Draw | Turn(p)`).
- `Game` (`game.dfy`): the state as a value (`State`) and each handler as a function from the old state to the new one. React setters do not change what the rest of a handler reads, so every read sees the old state. This module also holds the history invariant `Inv` and the lemmas about the transitions.
- `App` (`app.dfy`): class `Session` has the four state fields as mutable fields and one method per handler. Each method's postcondition says it keeps `Valid()` and that its new state is the matching `Game` function of the old state.

The history invariant `Inv` says:

- snapshot 0 is the empty board;
- each later snapshot is the one before it with exactly one empty cell given a mark;
- `currentMove` indexes a snapshot;
- only the last snapshot may contain a complete line, because a click on a won board is refused.

From this it follows that snapshot `k` carries exactly `k` marks and that the history never has more than ten snapshots.

Three simplifications of the game suggest themselves: a turn derived from the move count, a click after a jump being refused, and `newRound` doing nothing on an unfinished round. The code does none of these, and the model follows the code:

- The turn is stored, not derived. A click flips `xIsNext` and `undo` toggles it. Only `jumpTo` recomputes it from the parity of the target. So `undo` is not the same as jumping one step back when O started the round.
- A click after a jump back is not refused. It drops the snapshots after the pointer and appends the new board.
- `newRound` always resets the board, even when the round is neither won nor drawn. In that case it records no score.
- After a draw, the next starter comes from the parity of the old pointer. A draw can only happen at move 9 (`Game.DrawOnlyAtNine`), so O always starts after a draw (`Game.DrawThenOStarts`). This holds even when O started the drawn round. So the rule "after a draw, the player who did not start the last round starts" holds only when X started the drawn round.

## Model

| member | source | states |
|---|---|---|
| `Rules.Winner` | src/App.jsx:33-45 | `getWinner`: a reported line is one of the eight listed lines, it is complete, and it carries the reported mark; `WinnerIsFirstCompleteLine` adds that it is the first such line and that null means no line is complete |
| `Rules.IsDraw` | src/App.jsx:55 | `isDraw` holds exactly when the board carries nine marks and no listed line is complete |
| `Rules.GameStatus` | src/App.jsx:56-60 | `status`: a win exactly when `getWinner` finds a line (for the mark on that line); a draw exactly when `isDraw` holds; otherwise the turn of the player `xIsNext` selects, on a board with an empty cell |
| `Rules.WinnerFrom` | src/App.jsx:39-44 | a line found by the search from position k is one of the lines from k on; its three cells hold the same non-empty mark, and that mark is the reported player |
| `Rules.GetWinner` | src/App.jsx:33-45 | the loop over the eight lines, returning at the first complete one, computes exactly `Winner(b)` |
| `Rules.WinnerIsFirstCompleteLine` | src/App.jsx:33-44 | `getWinner` returns null exactly when no listed line is complete; otherwise it returns the first complete line in the listed order, with the mark on it |
| `Rules.WinnerSound` | src/App.jsx:34-41 | a reported line is one of the eight listed triples, and all three of its cells hold the winner's mark |
| `Rules.WinnerHasThreeMarks` | src/App.jsx:39-41 | a reported winner has at least three marks on the board, so a player with fewer than three cannot win |
| `Rules.NoWinnerOnEmptyBoard` | src/App.jsx:40-44 | the all-empty board has no winner |
| `Rules.TopRowExample` | src/App.jsx:35-41 | X X X in the top row gives winner X on line [0, 1, 2] |
| `Rules.DrawExample` | src/App.jsx:55-60 | the full board X O X / O X O / O X O has no winner, is a draw, and its status is Draw |
| `Rules.StatusPriority` | src/App.jsx:55-60 | the status is a win exactly when some line is complete (for the mark on the first such line); a draw exactly when the board has nine marks and no complete line; otherwise the turn of the player `xIsNext` selects |
| `App.Session.CurrentStatus` | src/App.jsx:52-60 | reads the current board and returns its status; it is a win exactly when `getWinner` finds a line and a draw exactly when `isDraw` holds |
| `Game.Initial` | src/App.jsx:48-51 | the initial state satisfies the history invariant; its board has no marks, X moves first and every score is zero |
| `Game.Inv` | src/App.jsx:48-49 | the history invariant. Snapshot 0 is empty, each snapshot adds one mark to the one before, `currentMove` indexes a snapshot, and only the last snapshot may hold a complete line. So the first snapshot has no marks, and a current board with a winner is the last snapshot |
| `Game.Play` | src/App.jsx:62-67 | `handlePlay`: the snapshots up to the pointer are kept and the new board follows them as the current one, and it is the last snapshot, so every snapshot after the old pointer is dropped. The pointer advances by one, the turn flips and the scores stay |
| `Game.Click` | src/App.jsx:69-74 | `handleSquareClick`: the state is unchanged exactly when the board has a winner or the cell is taken. Otherwise cell i of the new current board holds the mark of the player to move and the turn flips. The scores never change |
| `Game.Undo` | src/App.jsx:91-95 | `undo`: history and scores stay; the state is unchanged exactly at move 0 or after a win, and otherwise the pointer moves back one and the turn toggles |
| `Game.JumpTo` | src/App.jsx:97-100 | `jumpTo`: history and scores stay, the pointer is set to the target, and X moves next exactly when the target is even |
| `Game.ResetBoard` | src/App.jsx:76-80 | `resetBoard`: the result satisfies the invariant with a single empty snapshot and keeps the scores; X starts if told to, or, with no starter, exactly when the old pointer was even |
| `Game.NewRound` | src/App.jsx:82-89 | `newRound`: always yields a single empty snapshot satisfying the invariant. The score total rises by one exactly when the round was won or drawn, and after a win the loser starts |
| `Game.ResetAll` | src/App.jsx:117 | Reset All yields the initial state whatever came before |
| `Game.HistoryBounded` | src/App.jsx:62-74 | under the invariant, snapshot k carries exactly k marks, and the history has at most ten snapshots |
| `Game.DrawOnlyAtNine` | src/App.jsx:55 | under the invariant, a drawn current board is only reached at move 9 |
| `Game.WinnerEndsHistory` | src/App.jsx:69-70 | under the invariant, a board with a winner is always the last snapshot |
| `Game.PlayInv` | src/App.jsx:62-67 | appending a one-mark extension of a winner-free current board keeps the invariant, and moves the pointer one past the old one onto the new board, which is the last snapshot |
| `Game.ClickNoOp` | src/App.jsx:69-70 | a click leaves the whole state unchanged exactly when the current board has a winner or the clicked cell is occupied |
| `Game.ClickPlays` | src/App.jsx:62-74 | an effective click keeps the invariant. The history becomes the snapshots up to the pointer plus one new board, which is the current board with only cell i given the mover's mark. The pointer moves to the new last index, the turn flips, the mark count rises by one, and the scores stay |
| `Game.ClickInv` | src/App.jsx:62-74 | every click keeps the history invariant |
| `Game.ClickTwice` | src/App.jsx:69-74 | clicking the same cell twice changes nothing the second time |
| `Game.ClickAfterWin` | src/App.jsx:70 | once the current board has a winner, every click is a no-op |
| `Game.UndoAfterClick` | src/App.jsx:62-74 | undo after an effective, non-winning click restores the board, the pointer and the turn from before the click |
| `Game.UndoInv` | src/App.jsx:91-95 | undo keeps the invariant, the history and the scores; it is a no-op exactly at move 0 or after a win, and otherwise moves the pointer back one and toggles the turn |
| `Game.JumpToInv` | src/App.jsx:97-100 | a jump to an index of the history keeps the invariant, the history and the scores; it sets the pointer to the target, with X to move exactly when the target is even |
| `Game.JumpThenClick` | src/App.jsx:63 | after a jump to `move`, an effective click leaves `move + 2` snapshots; the first `move + 1` are the old ones and the rest are discarded |
| `Game.ResetBoardInv` | src/App.jsx:76-80 | a board reset yields the single empty snapshot with pointer 0, keeps the scores and the invariant; X starts if told to, or, with no starter, exactly when the old pointer was even |
| `Game.ResetAllInv` | src/App.jsx:117 | Reset All yields the initial state: zero scores, one empty board, X to move |
| `Game.NewRoundOutcome` | src/App.jsx:82-89 | a new round always yields one empty board at pointer 0 and keeps the invariant. A winner gains one point and the other player starts. A draw adds one draw and the old pointer's parity picks the starter. An unfinished round changes no score. The score total rises by at most one |
| `Game.DrawThenOStarts` | src/App.jsx:79-88 | after a drawn round the draw count rises by one and O starts the next round |
| `Game.ScoresOnlyChangeByRound` | src/App.jsx:62-100 | clicks, undo, jumps and board resets never change the scores |
| `App.Session.constructor` | src/App.jsx:48-51 | the session starts in the initial state, which satisfies the invariant |
| `App.Session.HandlePlay` | src/App.jsx:62-67 | keeps the invariant; the new fields are `Play` of the old ones |
| `App.Session.HandleSquareClick` | src/App.jsx:69-74 | keeps the invariant; the new fields are `Click` of the old ones |
| `App.Session.ResetBoard` | src/App.jsx:76-80 | keeps the invariant; the new fields are `ResetBoard` of the old ones |
| `App.Session.NewRound` | src/App.jsx:82-89 | keeps the invariant; the new fields are `NewRound` of the old ones |
| `App.Session.Undo` | src/App.jsx:91-95 | keeps the invariant; the new fields are `Undo` of the old ones |
| `App.Session.JumpTo` | src/App.jsx:97-100 | for a target that indexes the history, keeps the invariant; the new fields are `JumpTo` of the old ones |
| `App.Session.ResetAll` | src/App.jsx:117 | keeps the invariant; the new fields are the initial state |

## Left out

- The presentation components `Square` and `Board`, and all markup, class strings and aria labels. They render only.
- The rendering of the history list. From it the model keeps only that `jumpTo` is called with an index of the history, which `App.Session.JumpTo` requires.
- The exact status strings ("X wins!", "It's a draw", "Turn: X"). The status is modelled as the datatype `Status`.
- The disabled state of the Undo button. It mirrors the guard that `undo` checks itself.
- React's machinery (`useState`, `useMemo`, batching of setter calls, functional setter callbacks). Each handler is one atomic update from the old state to the new one.
- App.Session.JumpTo: requires a target inside the history. The source never calls `jumpTo` with anything else, and an out-of-range pointer would leave no current board.
