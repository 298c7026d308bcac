# Tic-tac-toe state machine

A Dafny model of the tic-tac-toe game in `src/components/Games.js`, with proofs
about it. The game has three parts:

- `calculateWinner`, which checks eight fixed lines in a fixed order;
- the component state: a `history` of boards, a `stepNumber` into it and an
  `xIsNext` flag;
- two transitions. `handleClick` plays a mark, truncating any later history
  first. `jumpTo` moves back and forth through history.

Layout:

- `Board.dfy` (module `Board`) defines a square, the board, the eight lines,
  the winner and a count of squares. `Winner`/`WinnerFrom` are the scan as
  pure recursion over the lines. `CalculateWinner` is the source's `for` loop
  with early return, proved equal to `Winner`.
- `Game.dfy` (module `Game`) defines the state as a value `GameState`.
  `Click` and `Jump` give the effect of `handleClick` and `jumpTo` on it.
  `Inv` is the state invariant: `stepNumber < |history|`,
  `xIsNext == (stepNumber % 2 == 0)`, and history is a legal game from the
  empty board with alternating marks. The same module holds the lemmas
  about these, and the class `TicTacToe`. That class keeps the three state
  slots as fields, and its methods `HandleClick` and `JumpTo` change them in
  place. They are proved to leave the state at `Click(old(State()), i)` and
  `Jump(old(State()), move)`. `HandleClick` works on a fresh array copy of
  the shown board, as the source's `slice()` does. Two client methods replay
  sample games using only the contracts.
- `Labels.dfy` (module `Labels`) defines the status line and the move-list
  labels. The JavaScript number-to-string conversion becomes `Decimal`, with
  a parser that reads it back.

Modelling decisions:

- `null`, `"x"` and `"o"` in a square become `Empty`, `Mark(X)` and `Mark(O)`.
  The source tests a square for truthiness, which here becomes `!= Empty`.
- `handleClick(i)` takes `i: Index` (0..8). Its only callers are the nine
  `renderSquare(0)`..`renderSquare(8)` calls of `Board`.
- When a click cannot be played, the source returns before calling any
  setter. The truncated `sliceHistory` is only a local, so the state is left
  as it was: history is not truncated.
- `jumpTo(move)` requires `move < |history|`, because it is only called with
  indices that `history.map` produces. Those are non-negative, so the
  source's `%` and Dafny's `%` agree.

## Model

| member | source | states |
|---|---|---|
| `Board.WinnerFrom` | src/components/Games.js:110-116 | Scanning from line k yields None exactly when no line from k on is complete. Otherwise it yields the mark of the first complete line from k on. |
| `Board.Winner` | src/components/Games.js:98-117 | calculateWinner yields None iff none of the eight lines has three equal non-empty squares. When some do, it yields the mark of the first such line in list order. |
| `Board.CalculateWinner` | src/components/Games.js:110-116 | The loop that returns at the first complete line computes exactly `Winner`. |
| `Board.FirstCompleteExists` | src/components/Games.js:110-116 | If any line is complete, there is a first complete line in list order. |
| `Board.WinnerIsFirstCompleteLine` | src/components/Games.js:99-116 | The winner is p if and only if the first complete line in list order carries p's mark (both directions). |
| `Board.EmptyBoardHasNoWinner` | src/components/Games.js:42 | The all-null starting board has no winner. |
| `Board.CountZero` | src/components/Games.js:51 | A value counted zero times occurs in no square. |
| `Board.CountUpdate` | src/components/Games.js:54 | Writing one square moves exactly one unit of count from the old value to the new one. |
| `Board.EmptyBoardCounts` | src/components/Games.js:42 | The starting board has nine empty squares and no marks. |
| `Game.Initial` | src/components/Games.js:42-44 | The mount state (one empty board, step 0, x to move) satisfies the invariant and has no winner. |
| `Game.Click` | src/components/Games.js:46-60 | The state is unchanged iff the shown board has a winner or square i is occupied. On a played click: history is the old prefix up to stepNumber plus exactly one new board, and stepNumber grows by one to the last index. xIsNext flips. The new board has the mover's mark at i and equals the old shown board everywhere else. |
| `Game.ClickPreservesInv` | src/components/Games.js:48-57 | handleClick preserves the invariant: valid step, turn given by parity, and history a legal alternating game. |
| `Game.JumpPreservesInv` | src/components/Games.js:62-65 | jumpTo preserves the invariant and leaves history unchanged. |
| `Game.JumpIdempotent` | src/components/Games.js:62-65 | Two jumpTo calls with the same move give the same state as one. |
| `Game.JumpToCurrentIsNoop` | src/components/Games.js:62-65 | Under the invariant, jumping to the shown step changes nothing. |
| `Game.FullBoardClickIsNoop` | src/components/Games.js:51-53 | On a board with no empty square every click is a no-op. The source has no draw outcome. |
| `Game.MoveAt` | src/components/Games.js:50-55 | In a valid history, board k is board k - 1 with the mark of move k on a square that was empty, and board k - 1 had no winner. |
| `Game.MoveCounts` | src/components/Games.js:54 | A played mark removes one empty square and adds one mark of the mover. The other player's count is unchanged. |
| `Game.MarkCounts` | src/components/Games.js:54-57 | Board k of a valid history has 9 - k empty squares, (k + 1) / 2 x marks and k / 2 o marks. |
| `Game.HistoryBounded` | src/components/Games.js:48-56 | A valid history never holds more than ten boards. |
| `Game.LastMoverOwnsEveryLine` | src/components/Games.js:51-54 | On a board of a valid history, every complete line carries the mark of the player who made the last move. So complete lines never disagree. |
| `Game.WinnerIsLastMover` | src/components/Games.js:51-57 | The winner of board k of a valid history is the player who made move k. |
| `Game.TicTacToe.constructor` | src/components/Games.js:42-44 | The fields start as the mount state, which satisfies the invariant. |
| `Game.TicTacToe.HandleClick` | src/components/Games.js:46-60 | The fields end as `Click` of their old values, and the invariant is kept. |
| `Game.TicTacToe.JumpTo` | src/components/Games.js:62-65 | The fields end as `Jump` of their old values: history is unchanged, stepNumber is move, and xIsNext is true iff move is even. The invariant is kept. |
| `Labels.StatusTextInjective` | src/components/Games.js:79-83 | Equal status strings come from the same winner and, when there is no winner, the same next player. |
| `Labels.StatusDeterminesOutcome` | src/components/Games.js:79-83 | Two states with the same status line have the same winner. Without a winner, they also have the same player to move. |
| `Labels.StatusNamesParityPlayer` | src/components/Games.js:79-83 | Under the invariant, "Next player: " names the player that the parity of stepNumber gives. |
| `Labels.Decimal` | src/components/Games.js:71 | A move number is rendered as a non-empty digit string. It is a single digit iff the number is below 10, and it starts with 0 only for 0. |
| `Labels.ParseDecimalOfDecimal` | src/components/Games.js:71 | Reading the rendered move number back gives the number. |
| `Labels.MoveLabelSeventhChar` | src/components/Games.js:71 | "Go to game start" is the label of move 0 only. |
| `Labels.MoveLabelInjective` | src/components/Games.js:70-74 | Different entries of the move list get different labels. |

## Left out

- Rendering (`Square`, `Board`, the JSX of `TicTacToe` and the `<li>`/`<button>` move list): presentational, with no state logic. Only the two strings it shows are modelled.
- React hooks (`useState`, `useCallback`, `useMemo` and their dependency arrays): the state is plain fields and the transitions are sequential methods. Batching of the three setters and stale closures are framework behaviour.
- `src/index.js`: mounting into the DOM. `Counter`, `Input`, `Moods`, `Spinner`, `Squares`, `Programmers` and `ToDoList` are not part of this model.
- Clicks on squares outside 0..8: no caller makes them. In JavaScript they would extend the board array.
- Draw detection: the source has none. `FullBoardClickIsNoop` states what a full board does instead.
