# Tic-tac-toe component, modelled and verified in Dafny

This project models the `TicTacToe` React component (`src/components/TicTacToe.tsx`).
The component is a two-player game on a 3x3 board with a win tally and on-screen
notifications. Its logic has four parts, and the model follows them:

- `board.dfy` (module `Board`): the squares, the table of eight winning lines,
  and `calculateWinner`. `Winner` is the specification: a recursive first-match
  search over the line table. `CalculateWinner` is the source's early-return loop,
  proved equal to it. The lemmas characterise the result: no winner exactly when
  no line holds, otherwise the mark of the first holding line in table order.
- `game.dfy` (module `Game`): the game state (`squares`, `xIsNext`, `winner`) as a
  value and `handleClick` as the transition `Click`. Also the status line, and the
  invariant every reachable state keeps:
  - X has as many marks as O, or one more;
  - X is to move exactly when the counts are equal;
  - the recorded winner is the evaluator's verdict on the board;
  - every line that holds carries that winner, so which line is tried first does not matter in play.
- `scores.dfy` (module `Scores`): the rest of the component's state (`showConfetti`,
  `xWins`, `oWins`, the notifications shown), the body of the effect that reacts to a
  finished game, `resetGame` and `resetScores`. React runs the effect after a render in
  which one of its dependencies changed. Here that run is an explicit step after the
  click that caused it. `Click` keys the step on a change of `winner`, the
  dependency the component declares. `ClickCorrected` keys it on every click that was
  taken (see Findings); `TriggersAgree` shows the two differ only in the notices shown.
- `component.dfy` (module `Component`): the component as a class `TicTacToe`, with one
  field per `useState` hook, a seventh field `notices` that logs the toasts shown, and
  one method per handler. `Snapshot()` gives the fields
  as a `Scores.Session`. Each method's postcondition states the new snapshot as the
  matching function of the old one. `Click` follows the declared trigger and
  `ClickCorrected` the corrected one. `Valid()` is the game invariant above: the
  constructor establishes it and every method keeps it.

Two behaviours are modelled exactly as the source has them:
- The turn flips on a winning move too, so after X wins `xIsNext` is false.
- A draw is never stored. It is derived from a full board with no winner.

`handleClick` does not check its index. The model does not follow it outside the
board: `0 <= i < 9` is a precondition (see Left out).

## Model

| member | source | states |
|---|---|---|
| `Board.Winner` | src/components/TicTacToe.tsx:125-143 | the evaluator as a first-match search over the line table; `Board.WinnerSpec` states its meaning |
| `Board.CalculateWinner` | src/components/TicTacToe.tsx:125-143 | the loop returns the evaluator's verdict: Empty exactly when none of the eight lines holds three equal marks, otherwise the mark of the first holding line in table order |
| `Board.WinnerSpec` | src/components/TicTacToe.tsx:125-143 | the evaluator reports a mark iff some line holds three equal non-empty cells, Empty iff none does, and for the first holding line its mark |
| `Board.WinnerFromSpec` | src/components/TicTacToe.tsx:136-141 | the search from table entry k on returns Empty iff no later line holds, and otherwise the mark of the first holding line from k on |
| `Board.WinnerOfUniformLines` | src/components/TicTacToe.tsx:136-140 | when every holding line carries the same mark, the evaluator reports that mark iff some line holds, whatever the table order |
| `Board.NewLineCarriesMove` | src/components/TicTacToe.tsx:66-67 | a line completed by writing a mark into an empty square carries that mark |
| `Board.CountUpdate` | src/components/TicTacToe.tsx:66-67 | writing one square changes the count of a value by removing the old content and adding the new |
| `Game.Click` | src/components/TicTacToe.tsx:63-73 | `handleClick` as a transition of board, turn and winner; its properties are the `Game.Click*` lemmas below |
| `Game.ClickIgnored` | src/components/TicTacToe.tsx:64 | with a winner recorded or the square occupied, a click leaves board, turn and winner unchanged |
| `Game.ClickPlaces` | src/components/TicTacToe.tsx:66-72 | a taken click sets square i to the mover's mark, leaves every other square, negates `xIsNext`, and leaves as winner the evaluator's verdict on the new board |
| `Game.AcceptedIffBoardChanges` | src/components/TicTacToe.tsx:64-68 | a click is taken exactly when it changes the board |
| `Game.WinnerIsFinal` | src/components/TicTacToe.tsx:64 | once a winner is recorded, no sequence of clicks changes the state |
| `Game.MarksStay` | src/components/TicTacToe.tsx:64-67 | under any sequence of clicks, no occupied square is emptied or overwritten |
| `Game.FreshConsistent` | src/components/TicTacToe.tsx:27-29 | the initial state (empty board, X to move, no winner) satisfies the game invariant |
| `Game.ClickConsistent` | src/components/TicTacToe.tsx:63-73 | every click keeps the invariant (mark balance, turn, winner equals the evaluator's verdict), and a winning click wins for the player who made it |
| `Game.PlayConsistent` | src/components/TicTacToe.tsx:63-73 | every sequence of clicks from a consistent state ends in a consistent state |
| `Game.Reachable` | src/components/TicTacToe.tsx:27-28 | after any clicks from the initial state, X has as many marks as O or one more, and `xIsNext` holds iff the counts are equal |
| `Game.Status` | src/components/TicTacToe.tsx:94-98 | the status reads "It's a draw!" iff no winner is recorded and the board is full |
| `Game.StatusOfConsistent` | src/components/TicTacToe.tsx:94-98 | in a reachable state the status follows from the board alone: "Winner: X/O" iff the evaluator finds that mark, a draw iff full with no line, else the next player by mark counts |
| `Game.TopRowScenario` | src/components/TicTacToe.tsx:63-73 | clicks 0, 3, 1, 4, 2 give X the top row, record X as winner, pass the turn to O, status "Winner: X" |
| `Game.DrawScenario` | src/components/TicTacToe.tsx:63-73 | clicks 0, 1, 2, 3, 5, 4, 6, 8, 7 end on the board X O X / O O X / X X O with no winner |
| `Game.DrawnIsDraw` | src/components/TicTacToe.tsx:94-98 | that board is full, holds no line, and its status is "It's a draw!" |
| `Game.DoubleClickScenario` | src/components/TicTacToe.tsx:64 | a second click on square 0 is ignored: square 0 keeps X and O is still to move |
| `Game.PlayTrace` | src/components/TicTacToe.tsx:63-73 | a run of clicks visits the states of any trace that follows it one click at a time |
| `Scores.Effect` | src/components/TicTacToe.tsx:42-60 | the effect body: a recorded winner is celebrated, announced and counted for that player; otherwise a full board is announced as a draw; `Scores.ClickTallies` and `Scores.DrawNoticed` state its outcome |
| `Scores.Click` | src/components/TicTacToe.tsx:42-73 | a click followed by the effect only when the click changed `winner`, the declared dependency; `Scores.AsWrittenNeverAnnouncesDraw` and `Scores.AsWrittenDiffersOnlyOnDraw` state its outcome |
| `Scores.ClickCorrected` | src/components/TicTacToe.tsx:42-73 | a click followed by the effect whenever the click changed the board; `Scores.DrawNoticed` states its outcome |
| `Scores.ResetGame` | src/components/TicTacToe.tsx:75-80 | `resetGame` on the session; `Scores.ResetGameSpec` states its outcome |
| `Scores.ResetScores` | src/components/TicTacToe.tsx:82-87 | `resetScores` on the session; `Scores.ResetScoresSpec` states its outcome |
| `Scores.PlayMovesGame` | src/components/TicTacToe.tsx:63-73 | the game part of a session evolves exactly as the game does, with either effect trigger |
| `Scores.ClickTallies` | src/components/TicTacToe.tsx:43-57 | the click that records an X win adds 1 to `xWins`, leaves `oWins`, shows the confetti and the win notice; O symmetrically; any other click leaves both counters |
| `Scores.WinCountedOnce` | src/components/TicTacToe.tsx:61-64 | after a win every further click is ignored, with either trigger, so the win is not counted again |
| `Scores.PlayTallies` | src/components/TicTacToe.tsx:49-57 | over any clicks from a game without a winner, with either trigger, each counter grows by exactly one iff the run ends in that player's win |
| `Scores.FullIsFinal` | src/components/TicTacToe.tsx:64 | a full board takes no more clicks, with either trigger |
| `Scores.DrawNoticed` | src/components/TicTacToe.tsx:58-59 | with the effect after every taken click, a click announces a draw iff it fills the board without a winner |
| `Scores.PlayNoticesDraw` | src/components/TicTacToe.tsx:58-59 | with the corrected trigger (`PlayCorrected`), over a run ending without a winner, exactly one draw notice is shown if the run filled the board, none otherwise; with the declared trigger `Scores.AsWrittenQuiet` shows none |
| `Scores.AsWrittenNeverAnnouncesDraw` | src/components/TicTacToe.tsx:42-61 | with the effect keyed on `winner` alone, a click only ever adds nothing or a win notice |
| `Scores.AsWrittenDiffersOnlyOnDraw` | src/components/TicTacToe.tsx:42-61 | the declared and the corrected trigger agree on every click except the drawing one, where the declared one drops the draw notice |
| `Scores.TriggersAgree` | src/components/TicTacToe.tsx:42-61 | over any run of clicks the declared and the corrected trigger give the same game, celebration flag and counters; only the notices may differ |
| `Scores.AsWrittenQuiet` | src/components/TicTacToe.tsx:42-61 | as written, a run ending without a winner shows no notice at all |
| `Scores.DrawUnannouncedAsWritten` | src/components/TicTacToe.tsx:58-61 | as written, the draw on clicks 0, 1, 2, 3, 5, 4, 6, 8, 7 reads "It's a draw!" yet shows no draw notice |
| `Scores.DrawAnnounced` | src/components/TicTacToe.tsx:58-59 | with the corrected trigger the same draw shows one draw notice and counts no win |
| `Scores.TopRowTallied` | src/components/TicTacToe.tsx:49-52 | X's top-row win adds exactly 1 to `xWins` and leaves `oWins`, with either trigger |
| `Scores.ResetGameSpec` | src/components/TicTacToe.tsx:75-80 | `resetGame` gives an empty board, X to move, no winner and no confetti whatever the prior state; counters and notices stay; the effect run it triggers changes nothing |
| `Scores.ResetScoresSpec` | src/components/TicTacToe.tsx:82-87 | `resetScores` sets both counters to 0, leaves the game and the confetti, and adds the "scores reset" notice |
| `Component.TicTacToe.constructor` | src/components/TicTacToe.tsx:27-32 | the fields start as an empty board, X to move, no winner, no confetti, both counters 0 |
| `Component.TicTacToe.HandleClick` | src/components/TicTacToe.tsx:63-73 | the fields move as `Game.Click`; the invariant is kept |
| `Component.TicTacToe.RunEffect` | src/components/TicTacToe.tsx:42-60 | the fields move as `Scores.Effect` |
| `Component.TicTacToe.Click` | src/components/TicTacToe.tsx:42-73 | a click, then the effect only if `winner` changed, move the fields as `Scores.Click`; the invariant is kept |
| `Component.TicTacToe.ClickCorrected` | src/components/TicTacToe.tsx:42-73 | a click, then the effect if the board changed, move the fields as `Scores.ClickCorrected`; the invariant is kept |
| `Component.TicTacToe.ResetGame` | src/components/TicTacToe.tsx:75-80 | the fields move as `Scores.ResetGame` |
| `Component.TicTacToe.ResetScores` | src/components/TicTacToe.tsx:82-87 | the fields move as `Scores.ResetScores` |
| `Component.TicTacToe.StatusLine` | src/components/TicTacToe.tsx:94-98 | the status reads a draw iff the board is full with no line, "Winner: X/O" iff the evaluator finds that mark, and "Next player: X" or "Next player: O" iff there is neither, by whether the mark counts are equal |

## Findings

| source | as written | input that shows it | evidently intended | confidence | as-written member | corrected member |
|---|---|---|---|---|---|---|
| src/components/TicTacToe.tsx:58-61 | the effect's dependency list holds only `winner`; a drawing click leaves `winner` null, so the effect does not run and the draw toast is never shown (`Scores.Click`) | clicks 0, 1, 2, 3, 5, 4, 6, 8, 7 from a fresh game | the draw branch runs once, on the click that fills the board without a winner (`Scores.ClickCorrected`, which runs the effect after every taken click, as dependencies `[winner, squares]` would) | high; not executed | `Scores.DrawUnannouncedAsWritten` | `Scores.DrawAnnounced` |

## Left out

- The stored tallies: reading the counters from `localStorage` on mount (lines 34-40), writing them back (lines 52 and 56), and removing them (lines 85-86). This is browser storage I/O. The counters are in-memory natural numbers starting at 0. The model also does not cover `parseInt` of a stored value, which yields `NaN` for a non-numeric string.
- The text of the toasts (lines 45, 59 and 87). These calls go to a notification library. The model records each toast as a `Notice` tag in the order shown.
- The 5-second timer that hides the confetti (line 46). It is wall-clock asynchronous behaviour. `showConfetti` is set by the effect and cleared only by `resetGame`. The timer callback is not modelled, so neither is a stale timer from an earlier win hiding a newer celebration.
- The rendering: JSX, `Square`, `renderSquare` (lines 90-92), the confetti element and `src/app/page.tsx`. These are presentation only.
- React's scheduling. State updates and effect runs are sequential, explicit steps. The effect run that `resetGame` causes is left out of `Component.TicTacToe.ResetGame`, because `Scores.ResetGameSpec` proves that run changes nothing.
- An out-of-range index to `handleClick`. The source never checks `i` (line 64): for `i >= 9` the read `squares[i]` is `undefined` and passes the guard, and the write at line 67 lengthens the array. The model keeps the board at nine squares, so `0 <= i < 9` is a precondition.
- Number width: the counters are JavaScript numbers. They are modelled as unbounded naturals.
