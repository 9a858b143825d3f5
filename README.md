# Tic-tac-toe board: a verified model

This project models the game logic of a React tic-tac-toe component, the
`Board` of `src/App.js`. The component keeps four pieces of state:

- `board`: nine cells, each empty (`null`), `'X'` or `'O'`;
- `player`: the mark to move, `'X'` or `'O'`;
- `winner`: `'None'`, `'X'` or `'O'`;
- `confettiActive`: whether the victory confetti is on.

Clicking a square writes the current player's mark into it. Then either that
player has completed one of the eight lines (three rows, three columns, two
diagonals) and becomes the winner, or the turn passes to the other mark. A
reset button restores the starting state. A square's button is disabled
while its cell is taken or once somebody has won. There is no draw detection:
a full board without a line simply leaves `winner` at `'None'`.

The model has three modules.

- `TicTacToe` (game.dfy) holds the values. `Mark`, `Cell` and `Winner`
  stand for the strings and `null` of the component. `Matches` is the table
  of lines. `HasLine` says that some line of that table is filled with one
  mark. `Game` gathers the four state fields. `Move` is the click handler as
  a function and `Click` is a click through a square's button. `Run` plays a
  list of clicks. `Inv` is the invariant of every game reachable from
  `InitialGame()`, and the lemmas prove that clicks keep it.
- `BoardComponent` (board.dfy) holds the component as a class `Board`. Its
  fields are `board` (an array of nine cells), `player`, `winner` and
  `confettiActive`. `CheckWinner` is the scanning loop with its early
  return. `OnClick` copies the array, writes one cell and updates the
  fields. `ClickSquare` is the guarded button and `OnReset` is the reset
  button. Every state-changing method is proved to move the object exactly
  as the matching `TicTacToe` function moves a `Game`.
- `Scenarios` (scenarios.dfy) plays two concrete games from the start: a
  win on the top row, and a drawn game that fills the board.

The click guard is modelled as an explicit no-op branch, not as a
precondition. The handler itself (src/App.js:122-133) has no guard and
overwrites whatever cell it is given, and so do `Board.OnClick` and
`TicTacToe.Move`. Only the square button's `disabled` attribute
(src/App.js:84) keeps clicks on a taken cell or a won game from reaching
it; that is `Board.ClickSquare` and `TicTacToe.Click`, where a click on a
disabled square changes nothing. The invariants are stated for `Click`,
the only way a user reaches the handler.

## Model

| member | source | states |
|---|---|---|
| `TicTacToe.Other` | src/App.js:131 | the turn passes to the other mark: the result always differs from the given one |
| `TicTacToe.MatchesOnBoard` | src/App.js:97-106 | the table has eight lines, and every position it names is one of the nine cells |
| `TicTacToe.HasLineOnlyReadsOwnMark` | src/App.js:108-120 | whether a mark has a line depends only on which cells hold that mark; the other mark is never consulted |
| `TicTacToe.Move` | src/App.js:122-133 | the handler writes the player's mark into cell `index` and leaves the other eight cells as they were; if that completes a line of the player's mark, the player becomes the winner, confetti turns on and the player is kept; otherwise the player flips and winner and confetti stay |
| `TicTacToe.Click` | src/App.js:82-84 | a click changes the game if and only if the square's cell is empty and there is no winner; when it changes the game, the result is the handler's |
| `TicTacToe.CountPlace` | src/App.js:123-124 | writing a mark into an empty cell raises that mark's count by one and leaves the other mark's count alone |
| `TicTacToe.PlaceKeepsOtherLines` | src/App.js:124-127 | writing a mark can never complete a line of the other mark |
| `TicTacToe.InitialInv` | src/App.js:92-95 | the starting state (empty board, X to move, no winner, no confetti) satisfies the invariant of reachable games |
| `TicTacToe.ClickPreservesInv` | src/App.js:122-133 | one click keeps the invariant: confetti on exactly when there is a winner; with no winner, neither mark has a line and X leads O by 0 when X moves, by 1 when O moves; with a winner, the winner has a line, the other mark has none, the winner is still the player and made the last move |
| `TicTacToe.RunPreservesInv` | src/App.js:122-133 | any sequence of clicks keeps that invariant |
| `TicTacToe.Reachable` | src/App.js:92-133 | after any clicks from the start, X has as many marks as O or one more; confetti is on exactly when there is a winner; no winner means no line of either mark; a winner has a full line of its mark, the other mark has none, and `player` equals the winner |
| `TicTacToe.WonIsFinal` | src/App.js:84 | once there is a winner, every further sequence of clicks leaves the game unchanged |
| `TicTacToe.FullBoardIsFinal` | src/App.js:84 | once all nine cells are taken, no click changes the game; no winner is declared and there is no draw state |
| `TicTacToe.RunAppend` | src/App.js:122-133 | playing two lists of clicks one after the other is playing their concatenation |
| `Scenarios.TopRowOpening` | src/App.js:122-133 | X on 0, O on 3, X on 1, O on 4 from the start gives the written-out board with X to move and no winner |
| `Scenarios.RunFrom` | src/App.js:122-133 | if some clicks lead to a known game, continuing with more clicks is playing those from that game |
| `Scenarios.TopRowScenario` | src/App.js:122-133 | X on 0, O on 3, X on 1, O on 4, X on 2 makes X the winner with confetti and X still the player; a sixth click changes nothing |
| `Scenarios.DrawOpening` | src/App.js:122-133 | the first four clicks of the drawn game give the written-out board |
| `Scenarios.DrawEnding` | src/App.js:122-133 | the last five clicks of the drawn game fill the board without any line |
| `Scenarios.DrawnGame` | src/App.js:122-133 | clicking 0, 1, 2, 4, 3, 5, 7, 6, 8 from the start fills all nine cells, leaves winner at none and confetti off, with O to move |
| `BoardComponent.Board.constructor` | src/App.js:92-95 | a new component has nine empty cells, X to move, no winner and no confetti, and satisfies the invariant |
| `BoardComponent.Board.CheckWinner` | src/App.js:108-120 | the scan over the table returns true exactly when some line has all three cells equal to the current player's mark |
| `BoardComponent.Board.OnClick` | src/App.js:122-133 | the handler leaves the object in the state `TicTacToe.Move` gives for the old state: the copied board with one cell written, then winner and confetti set or the player flipped |
| `BoardComponent.Board.ClickSquare` | src/App.js:80-84 | a click on a disabled square (cell taken or game won) changes nothing; on an enabled square it runs the handler; either way it keeps the invariant of reachable games |
| `BoardComponent.Board.OnReset` | src/App.js:135-140 | from any state: nine empty cells, X to move, no winner, confetti off; the result does not depend on the old state, so resetting twice is resetting once |
| `BoardComponent.Board.NextPlayerShown` | src/App.js:145 | the status line shows the mark opposite to `player`, never `player` itself |

## Left out

- Style objects and the animation variants (src/App.js:6-74): presentation only.
- Rendering: the JSX layout, the `motion.div` animation, the `Confetti`
  component and the unused `createRoot` import. They draw the state and
  add nothing to it.
- React's `useState` machinery. The four state fields are plain fields of
  `Board`. Updates made inside one handler are applied together before the
  next click. The handler reads `player` only before it changes it, so this
  sequential model gives the same result.
- The argument that a square passes to its `onClick` (src/App.js:80): `Board`
  ignores it, because each square's handler is fixed to its own index.
- The `App` wrapper component (src/App.js:186-194): it only mounts `Board`.
- Showing the confetti only once per win: the component shows it whenever
  `confettiActive` is true, and that is a rendering matter.
- Draw detection, move history and an AI opponent: the component has none
  of them, and the model adds none.
