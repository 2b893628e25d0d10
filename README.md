# Sudoku solver core

A Dafny model of the Sudoku logic inside the React component of
`src/App.js`: the validity check `isValid` with its inner `isUnique`, the
in-place backtracking search `solve`, the Solve button's driver
`solveSudoku` with its three outcomes, and the per-cell input filter
`handleChange`.

A cell of the component's grid is a string, `""` or one of `"1"`..`"9"`.
These are the only strings that ever reach the grid: the initial grid, the
input filter and the solver's writes produce nothing else. The model
therefore stores a cell as `0` (for `""`) or the digit `1..9` it spells
(`SudokuGrid.Cell`). `App.CellText` and `App.CellOf` convert between the
two forms, and `App.AcceptsCellTexts` proves the conversion is a bijection.

Modules, following the component's parts:

- `SudokuGrid` (`grid.dfy`): the 9×9 grid as a value (`Grid`), the view of a
  9×9 array as a grid (`Snapshot`), single-cell assignment, and the count of
  empty cells. That count is the measure that makes the search terminate.
- `Validator` (`validator.dfy`): `isUnique` on one unit, the row, column and
  box units, `IsValid` as a function, and `CheckValid`, the loop of
  `isValid`, as a method proved equal to it. The lemmas relate the
  set-size test of `isUnique` to "no filled digit repeats". They also prove
  that `IsValid` holds exactly when no two cells sharing a row, column or
  box hold the same digit.
- `Solver` (`solver.dfy`): `Search` is the result of `solve` as a
  function. It takes the first empty cell in row-major order and tries the
  digits in ascending order. `SolveInPlace` is the recursive in-place
  method on an `array2`, proved to produce `Search`'s result and to restore
  the array when it fails. The lemmas prove soundness, completeness and
  determinism: the search returns the first solution in row-major
  digit-ascending order.
- `App` (`app.dfy`): the Solve driver (`SolveSudoku`, on a fresh copy of the
  grid) with its outcome `Solved(grid) | InitialInvalid | NoSolution`, and
  the input filter `HandleChange`.
- `Scenarios` (`scenarios.dfy`): one concrete grid per outcome. A grid with
  a repeated digit is rejected. A valid grid with no completion gets no
  solution. The all-empty starting grid is solved: a standard solved
  puzzle shows that a completion exists.

## Model

| member | source | states |
|---|---|---|
| SudokuGrid.EmptyGrid | src/App.js:5 | the starting grid: nine rows of nine empty cells |
| SudokuGrid.Assign | src/App.js:54 | the write `grid[row][col] = value`: cell (row, col) holds the value and every other cell is unchanged (also the reset at src/App.js:58) |
| Validator.Filled | src/App.js:26 | the unit's entries other than `""`, in order |
| Validator.Elements | src/App.js:27 | the set of a sequence's values, as `new Set(...)` builds it |
| Validator.IsUnique | src/App.js:25-28 | `isUnique`: the set of filled values is as large as the list of filled values |
| Validator.Row | src/App.js:31 | row i of the grid |
| Validator.Column | src/App.js:32 | column i of the grid, top to bottom |
| Validator.Box | src/App.js:33-40 | the nine cells of box i, rows (i/3)*3..+3 and columns (i%3)*3..+3, read row by row |
| Validator.IsValid | src/App.js:24-44 | `isValid`: for every i in 0..8, row i, column i and box i repeat no filled digit |
| Solver.FirstEmpty | src/App.js:49-51 | the cell `solve` works on: the first empty cell in row-major order, or none |
| Solver.Search | src/App.js:48-65 | what `solve` computes: the grid itself when no cell is empty, otherwise the digit loop on the first empty cell starting at 1 |
| Solver.Attempt | src/App.js:55 | `isValid(grid) && solve(grid)`: the search runs only on a grid that is still valid |
| Solver.TryDigits | src/App.js:52-60 | the digit loop: write num, keep the first num whose attempt succeeds, try num + 1 otherwise, and fail after 9 |
| App.SolveOutcome | src/App.js:67-77 | the Solve decision: InitialInvalid for an invalid grid, otherwise Solved with the search's grid or NoSolution |
| App.ShownGrid | src/App.js:69-70 | the grid on screen after Solve: the solved copy on success, the old grid otherwise |
| App.Accepts | src/App.js:12 | the input filter: the empty string or one character from 1 to 9 |
| App.CellOf | src/App.js:12-15 | the cell an accepted input stands for: empty for `""`, the digit otherwise |
| App.CellText | src/App.js:53-54 | the text shown for a cell: `""` when empty, the digit's one-character string (`num.toString()`) otherwise |
| SudokuGrid.EmptyCountAssign | src/App.js:51-55 | writing a digit into the empty cell leaves exactly one empty cell fewer, so each recursive `solve` call has fewer empty cells and the search terminates |
| Validator.FilledMembers | src/App.js:26 | the filter keeps exactly the filled values of the unit |
| Validator.ElementsMembers | src/App.js:27 | the set built from the filtered values holds exactly those values |
| Validator.ElementsDistinct | src/App.js:27 | the set never has more members than the sequence it is built from, and has exactly as many iff the entries are pairwise distinct |
| Validator.FilledDistinct | src/App.js:26-27 | the filtered entries are pairwise distinct iff no filled digit occurs twice in the unit; empty cells are never compared |
| Validator.IsUniqueIff | src/App.js:25-28 | `isUnique` (set size equals filtered length) holds iff no two positions of the unit hold the same filled digit |
| Validator.CollectBox | src/App.js:33-40 | the pushed box holds the nine cells of box i, rows (i/3)*3..+3 and columns (i%3)*3..+3, row by row |
| Validator.CheckValid | src/App.js:24-44 | the loop returns true iff no row, column or box repeats a filled digit; it only reads the array (no modifies clause) |
| Validator.IsValidIffAllUnique | src/App.js:30-43 | the grid is valid iff `isUnique` holds for row i, column i and box i for every i in 0..8 |
| Validator.BoxSlot | src/App.js:34-35 | position k of box i lies in box i and maps back to position k |
| Validator.BoxOfCell | src/App.js:34-35 | every cell lies in box (r/3)*3 + c/3 at position (r%3)*3 + c%3 |
| Validator.RowRepeatClash | src/App.js:31 | a repeated filled digit in row i gives two distinct cells of one unit with equal digits |
| Validator.ColumnRepeatClash | src/App.js:32 | a repeated filled digit in column i gives two distinct cells of one unit with equal digits |
| Validator.BoxRepeatClash | src/App.js:33-41 | a repeated filled digit in box i gives two distinct cells of one unit with equal digits |
| Validator.ClashGivesRepeat | src/App.js:30-43 | two distinct cells sharing a row, column or box with equal filled digits make the grid invalid |
| Validator.ValidIffNoClash | src/App.js:30-43 | the grid is valid iff no two distinct cells sharing a row, column or box hold the same filled digit (both directions) |
| Validator.ValidWhenExtended | src/App.js:55 | clearing cells of a valid grid keeps it valid, so the check after each trial write never rules out a grid that can still be completed |
| Validator.EmptyGridValid | src/App.js:5 | the all-empty starting grid is valid |
| Solver.FirstEmptyFrom | src/App.js:49-51 | the scan returns an empty cell at or after (row, col), and every cell between (row, col) and the one returned is filled; when nothing is returned, every cell from (row, col) on is filled |
| Solver.SearchSound | src/App.js:48-65 | on a valid grid, a successful search leaves a complete, valid grid that keeps every pre-filled cell |
| Solver.AttemptSound | src/App.js:55 | `isValid(grid) && solve(grid)` succeeds only with a solution of the grid it was given |
| Solver.TryDigitsSound | src/App.js:52-60 | the digit loop succeeds only with a solution that keeps every filled cell and fills the chosen cell |
| Solver.SearchComplete | src/App.js:48-65 | if a grid has any solution, the search succeeds |
| Solver.AttemptComplete | src/App.js:55 | if a grid has a solution, `isValid(grid) && solve(grid)` succeeds |
| Solver.TryDigitsComplete | src/App.js:52-60 | if a solution puts digit d in the chosen cell, the loop started at any digit up to d succeeds |
| Solver.SearchSucceedsIffSolvable | src/App.js:48-65 | on a valid grid, the search succeeds exactly when a solution exists |
| Solver.SkippedUnsolvable | src/App.js:55-58 | a grid on which `isValid(grid) && solve(grid)` fails has no solution |
| Solver.KeptDigit | src/App.js:54-57 | when the trial of digit num succeeds, the loop returns that result, which holds num in the chosen cell |
| Solver.TryDigitsFound | src/App.js:52-57 | the digit the loop keeps is at least its starting digit, and the result is the successful trial of that digit |
| Solver.TryDigitsSkipped | src/App.js:52-59 | every digit tried before the kept one leaves a grid with no solution |
| Solver.SearchFindsFirst | src/App.js:49-52 | of all solutions of a valid grid, the search returns the first one in row-major order with digits compared ascending |
| Solver.SolveInPlace | src/App.js:48-65 | the in-place search returns true iff the search succeeds; on true the array holds the found solution; on false the array is exactly as on entry |
| App.SolveSudoku | src/App.js:67-77 | the Solve driver copies the grid, rejects an invalid grid without searching, and otherwise reports the search's result on the copy |
| App.OutcomeCases | src/App.js:67-77 | InitialInvalid iff the grid is invalid; NoSolution iff the grid is valid and has no solution; Solved carries a solution that keeps the given digits and is the first one in search order |
| App.ShownGridKeepsEntries | src/App.js:67-76 | after Solve, the grid on screen keeps every digit it held, and it is unchanged unless the search succeeded |
| App.AcceptsCellTexts | src/App.js:12 | the filter accepts every text a cell can show, and the text-to-cell conversion is inverse to the cell-to-text conversion on accepted inputs |
| App.HandleChange | src/App.js:11-21 | an accepted value (`""` or one digit 1-9) replaces cell (row, col) and nothing else; any other value, or a position off the grid, leaves the grid unchanged |
| App.HandleChangeOneCell | src/App.js:13-17 | every cell other than (row, col) keeps its value, and (row, col) changes iff the value is accepted and differs from the cell |
| Scenarios.TwoFivesRejected | src/App.js:68-77 | a grid whose top row starts with two 5s is reported as InitialInvalid |
| Scenarios.BlockedValid | src/App.js:24-44 | a grid with top row `_,1,...,8` and a 9 at (3, 0) passes the validity check |
| Scenarios.ForcedNine | src/App.js:31 | in any completion of that grid, the top-left cell must hold 9 |
| Scenarios.ColumnClash | src/App.js:32 | a 9 in the top-left cell repeats the 9 of column 0 |
| Scenarios.BlockedHasNoSolution | src/App.js:68-73 | that valid grid has no solution and is reported as NoSolution |
| Scenarios.AllDigitsNoRepeat | src/App.js:25-28 | a unit of nine cells holding every digit 1..9 repeats none of them |
| Scenarios.SolutionValid | src/App.js:24-44 | a standard solved puzzle passes the validity check |
| Scenarios.EmptyGridSolved | src/App.js:67-71 | Solve on the all-empty starting grid ends in Solved, with a complete valid grid |

## Left out

- React rendering and JSX (src/App.js:89-116), the `useState` hooks and the event wiring. They are presentation only. The grid is a parameter of each operation.
- The status text passed to `setError` (src/App.js:19, 71, 73, 76). The outcome of Solve is the datatype `App.Outcome`. The reset of the message when an input is accepted is not modelled.
- `handleValidate` (src/App.js:81-87) is not part of this model. It only turns `isValid` of the grid into a status message.
- The JavaScript `Set` and the regular expression `^[1-9]$`. The model states their meaning: a set of the filtered values (`Validator.Elements`) and a single character from 1 to 9 (`App.Accepts`).
- Cells as strings. Cells are the numbers 0..9. This is exact for every grid the component can hold, because only `""` and `"1"`..`"9"` are ever stored.
- Solver.SolveInPlace: the component's grid is an array of nine row arrays. The model uses one `array2`, so no two rows can be aliased. The copy made by `row.slice()` becomes a fresh array filled from the grid value.
- Performance: the whole grid is revalidated after every trial write. The model keeps that check as written, and its cost does not change any result.
- The search's worst-case running time is not bounded. Only termination is proved.
- Restoration on failure: the code clears each tried cell before moving on (src/App.js:58), and `Solver.SolveInPlace` proves that a failed search leaves the grid exactly as it was on entry.
