# Three browser widgets as state machines

This project models the logic of three small single-page widgets and proves
properties about that logic in Dafny.

- **Tic-tac-toe** (`tictactoe.dfy`, module `TicTacToe`). The state is a
  nine-cell board, the player to move, and a game-over flag. The model covers
  the table of eight winning lines, win and draw detection, the click rule
  and the reset transition. Besides the per-move contracts, the module proves
  an invariant of every reachable state:
  - X has as many marks as O, or one more;
  - a running game has no complete line and a free cell;
  - any reported winner is the player who moved last.
- **Calculator** (`calculator.dfy`, module `Calculator`). The state is the
  expression buffer plus the text of the last result. The model covers the
  digit, operator, backspace and clear keys, the whitelist filter, and the
  guard and error steps of the equals key. The arithmetic evaluator is a
  function parameter. Proved: from an empty calculator, editing keys never
  put two operators side by side and never put two decimal points in one
  operand.
- **Task list** (`todolist.dfy`, module `TodoList`). The model covers the load
  fallback over an abstract storage read and parse, the add, toggle and delete
  operations, and the submit handler's empty-title guard. Task identifiers are
  parameters. Fresh identifiers stay pairwise distinct under every operation.

`wrappers.dfy` holds the `Option` datatype that stands for JavaScript's `null`.

Where the code does something other than its comments and names suggest,
the model follows the code:

- The calculator's 30-character guard does not bound the buffer.
  - A point typed after an operator appends the leading `0` before the guard
    runs (`LengthGuardLeak`).
  - The operator key has no guard at all.
- The leading-zero rule only stops a zero from being typed twice into an
  empty buffer. A second zero appends, so `0` then `0` gives `00`
  (`RepeatedZeroExample`).
- The filter before evaluation drops every character outside digits, `.`
  and the four operators. That includes the `e` of an exponent-form result,
  so a stored `1e+21` reused in a new expression is evaluated as `1+21`
  (`ExponentDroppedBySanitize`).
- The division-by-zero pattern (a `/`, then a `0` not followed by a digit)
  also refuses `5/0.5`, whose value is finite.
- Deleting removes every task carrying the id, not just one. With distinct ids
  this is exactly one task (`DeleteRemovesOne`).
- `addTask` itself accepts a title that is empty after trimming. Only the
  submit handler refuses it.
- A click on an index outside the board is ignored. In the source,
  `boardState[index]` is then `undefined`, which is not `null`.

## Model

| member | source | states |
|---|---|---|
| TicTacToe.LinesAreRowsColumnsDiagonals | generated_project-tictactoe/app.js:12-21 | the line table has 8 distinct entries, which are exactly the 3 rows, the 3 columns and the 2 diagonals |
| TicTacToe.CheckWinIn | generated_project-tictactoe/app.js:89-99 | the scan returns the marker of the first line whose three cells hold one marker; it returns null exactly when no line is held by either player |
| TicTacToe.CheckWin | generated_project-tictactoe/app.js:88-100 | a reported winner holds a complete line; the result is null iff nobody holds one; when only one player holds a line, that player is returned |
| TicTacToe.CheckDraw | generated_project-tictactoe/app.js:106-108 | a draw holds iff every cell is marked and no player holds a line |
| TicTacToe.NewGame | generated_project-tictactoe/app.js:31-34 | a new or reset game has nine empty cells, X to move, and is not over |
| TicTacToe.NewGameSatisfiesInv | generated_project-tictactoe/app.js:31-34 | the new-game state satisfies the reachable-state invariant |
| TicTacToe.Click | generated_project-tictactoe/app.js:49-81 | a click on a finished game, an occupied cell or an off-board index changes nothing; otherwise it marks exactly the clicked cell for the current player, and exactly one of three things follows: a line ends the game with no player switch, a full board ends the game, or the turn passes and play continues |
| TicTacToe.CountAfterMark | generated_project-tictactoe/app.js:59 | marking an empty cell adds one to the mover's count and leaves the other player's count unchanged |
| TicTacToe.NewLineBelongsToMover | generated_project-tictactoe/app.js:59-69 | on a board with no complete line, a line completed by one new marker belongs to the player who placed it |
| TicTacToe.ClickPreservesInv | generated_project-tictactoe/app.js:49-81 | every click keeps the invariant, and a move that completes a line is reported as won by the mover |
| TicTacToe.RunPreservesInv | generated_project-tictactoe/app.js:132-134 | any sequence of clicks and resets keeps the invariant |
| TicTacToe.ReachableStates | generated_project-tictactoe/app.js:59-81 | in every reachable state #O <= #X <= #O + 1; a running game has no winner and a free cell; any winner is the player who moved last and the game is over |
| TicTacToe.MarksPersist | generated_project-tictactoe/app.js:56-59 | while only cells are clicked, a marked cell keeps its marker |
| TicTacToe.TopRowWinExample | generated_project-tictactoe/app.js:64-69 | from a new game, clicks at 0, 3, 1, 4, 2 end the game with X holding the top row and reported as winner |
| Calculator.LastSegment | generated_project_calculator/app.js:31 | the result is the suffix of the buffer after its last operator: it holds no operator and is either the whole buffer or preceded by an operator |
| Calculator.AppendDigit | generated_project_calculator/app.js:20-44 | the buffer only grows at its end; below 30 characters a digit is appended, otherwise dropped (so "0" on an empty buffer gives "0"); a point is ignored when the current operand already has one, gets a leading "0" when the operand is empty, and is dropped at the length limit after that "0" was added |
| Calculator.LeadingZeroExample | generated_project_calculator/app.js:22-27 | typing 0 then 5 gives "05": there is no leading-zero suppression |
| Calculator.RepeatedZeroExample | generated_project_calculator/app.js:21-27 | typing 0 then 0 gives "00": only a zero on an empty buffer is special-cased |
| Calculator.LengthGuardLeak | generated_project_calculator/app.js:36-42 | a 30-character buffer ending in an operator grows to 31 characters on a point key |
| Calculator.AppendOperator | generated_project_calculator/app.js:47-59 | on an empty buffer with no result nothing changes; the operator replaces a trailing operator, keeping the length, or is appended otherwise; an empty buffer is first seeded with the last result |
| Calculator.OperatorOnResultUsesItsText | generated_project_calculator/app.js:48-51 | an operator on an empty buffer with a stored result acts exactly as it would on a buffer holding the result's text |
| Calculator.ClearAll | generated_project_calculator/app.js:61-65 | clear empties the buffer and forgets the last result |
| Calculator.Backspace | generated_project_calculator/app.js:67-74 | backspace removes exactly the last character of a non-empty buffer and leaves an empty buffer empty; the last result is kept |
| Calculator.Sanitize | generated_project_calculator/app.js:76-80 | the result holds only digits, '.', and the four operators; it holds exactly the whitelisted characters of the input; a clean input is returned unchanged |
| Calculator.SanitizeAppend | generated_project_calculator/app.js:79 | filtering distributes over concatenation, so kept characters stay in their original order |
| Calculator.SanitizeIdempotent | generated_project_calculator/app.js:79 | filtering twice is filtering once |
| Calculator.SanitizeDropsOne | generated_project_calculator/app.js:79 | a single character outside the whitelist is removed |
| Calculator.SanitizeDropsBetween | generated_project_calculator/app.js:79 | a character outside the whitelist between two texts the filter keeps whole is removed and the texts are joined |
| Calculator.ExponentDroppedBySanitize | generated_project_calculator/app.js:76-80 | an `e` between two texts of allowed characters is dropped, so the exponent form "1e+21" is filtered to "1+21" |
| Calculator.ZeroDivisorFrom | generated_project_calculator/app.js:88 | the scan reports true iff some position holds '/' followed by '0' with no digit after it |
| Calculator.ComputeResult | generated_project_calculator/app.js:82-110 | an empty buffer is a no-op; a zero-divisor pattern, a non-finite value or an evaluator failure report the matching error and leave buffer and last result unchanged; a finite value becomes both the buffer and the last result |
| Calculator.DivisionByZeroExample | generated_project_calculator/app.js:86-91 | "5/0" is refused as division by zero whatever the evaluator does, and the buffer stays "5/0" |
| Calculator.PointAfterZeroIsRefused | generated_project_calculator/app.js:88 | "5/0.5" is also refused as division by zero |
| Calculator.AppendDigitKeepsWellFormed | generated_project_calculator/app.js:28-42 | a digit or point key keeps "no adjacent operators, one point per operand" |
| Calculator.AppendOperatorKeepsWellFormed | generated_project_calculator/app.js:52-56 | an operator key keeps the buffer well formed when the text it starts from is well formed |
| Calculator.PressKeepsWellFormed | generated_project_calculator/app.js:19-74 | every editing key keeps the buffer well formed while no result is stored |
| Calculator.ReachableBuffersWellFormed | generated_project_calculator/app.js:19-74 | from an empty calculator, any sequence of digit, point, operator, backspace and clear keys yields a buffer with no two adjacent operators and at most one point per operand |
| TodoList.LoadTasks | generated_project_todolist/app.js:23-37 | the result is empty unless a non-empty stored text parses to an array, which is then returned verbatim |
| TodoList.SaveThenLoad | generated_project_todolist/app.js:23-50 | a list saved by a serializer that the parser inverts is loaded back unchanged |
| TodoList.Trim | generated_project_todolist/app.js:124 | the result is the input with a white-space prefix and suffix removed, and starts and ends with no white space |
| TodoList.TrimOfTrimmed | generated_project_todolist/app.js:124 | trimming is the identity exactly on trimmed text, hence idempotent |
| TodoList.AddTask | generated_project_todolist/app.js:120-131 | exactly one task is appended and earlier tasks are unchanged; it has the given id, the trimmed title, no due date when the argument is falsy, and is not completed |
| TodoList.Submit | generated_project_todolist/app.js:163-170 | a title empty after trimming adds nothing; otherwise one task is added whose title is non-empty and trimmed, with a due date iff the field is non-empty |
| TodoList.FindIndex | generated_project_todolist/app.js:138 | the result is null iff no task has the id; otherwise it is the first position holding the id |
| TodoList.ToggleTaskCompletion | generated_project_todolist/app.js:137-143 | an absent id changes nothing; otherwise only the completion flag of the first task with the id flips; length, order, ids, titles and due dates are kept |
| TodoList.ToggleTwice | generated_project_todolist/app.js:138-140 | toggling the same id twice restores the list |
| TodoList.DeleteTask | generated_project_todolist/app.js:149-153 | no task with the id remains; the list never grows; an absent id changes nothing |
| TodoList.DeleteKeeps | generated_project_todolist/app.js:150 | the tasks kept are exactly the tasks whose id differs |
| TodoList.DeleteAppend | generated_project_todolist/app.js:150 | deleting distributes over concatenation, so the kept tasks keep their relative order |
| TodoList.DeleteIdempotent | generated_project_todolist/app.js:150 | deleting an id twice is deleting it once |
| TodoList.DeleteRemovesOne | generated_project_todolist/app.js:149-150 | with distinct ids, deleting the id at position i yields the list without exactly that position |
| TodoList.AddKeepsDistinct | generated_project_todolist/app.js:120-128 | adding a task with a fresh id keeps ids pairwise distinct |
| TodoList.ToggleKeepsDistinct | generated_project_todolist/app.js:137-140 | toggling keeps ids pairwise distinct |
| TodoList.DeleteKeepsDistinct | generated_project_todolist/app.js:149-150 | deleting keeps ids pairwise distinct |

## Left out

- All DOM work. This covers the calculator's display helpers and listener
  wiring, the tic-tac-toe cell text and classes, status messages and start-up,
  and the task list's `renderTasks` and `init` wiring. None of it holds state
  logic.
- The keyboard handler's key mapping and `preventDefault`. Keys are modelled
  as already-decoded `Key` values, and the digit key takes one character.
- ComputeResult: the arithmetic is not modelled. The `Function('return ' + …)`
  evaluation is a parameter returning `Threw`, `NotFinite` or `Finite(text)`.
  The rounding to 12 decimal places and the `String(number)` conversion are
  folded into that `text`.
- `saveTasks`: not modelled, because JSON serialization and the storage write
  are I/O. SaveThenLoad takes a serializer and parser that round-trip as a
  hypothesis.
- `localStorage.getItem`, `JSON.parse` and `console.error` are replaced by the
  `StorageRead` and `ParseOutcome` values that `LoadTasks` receives.
- LoadTasks: a parsed array is typed here as a list of tasks. The source
  accepts any JSON array without checking its elements.
- Task ids from `Date.now()` are a parameter, because the clock is outside the
  model. Distinctness is proved only under the hypothesis that the new id is
  fresh.
- Trim: uses a written-out list of the white-space and line-terminator
  characters of ECMAScript `trim`, not a Unicode database.
- The draw example (a full board with no line) is covered only by Click's
  general contract, not by a worked nine-move run.
- The `agent/` orchestration and schema files are not part of this model.
  They are LLM and network plumbing with no widget logic.
