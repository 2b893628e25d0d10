/** The two event handlers of the Sudoku component that touch the grid:
    the Solve button's driver and the per-cell input filter. The status
    line is modelled by the outcome of a solve, not by its text. */
module App {
  import opened SudokuGrid
  import opened Validator
  import opened Solver

  /** The three ways a press of the Solve button ends. */
  datatype Outcome = Solved(grid: Grid) | InitialInvalid | NoSolution

  /** What the Solve button decides for the grid on screen: an invalid
      grid is rejected before any search, otherwise the search on the copy
      either succeeds or reports that no solution exists. */
  function SolveOutcome(g: Grid): Outcome {
    if !IsValid(g) then InitialInvalid
    else
      match Search(g)
      case Some(s) => Solved(s)
      case None => NoSolution
  }

  /** The Solve button's driver: it copies the grid into a fresh 9×9
      array, checks the copy, and runs the in-place search on the copy
      only; the caller's grid is a value and is never written. */
  method SolveSudoku(grid: Grid) returns (outcome: Outcome)
    ensures outcome == SolveOutcome(grid)
  {
    var copy := new Cell[9, 9]((r: nat, c: nat) => if r < 9 && c < 9 then grid[r][c] else Empty);
    CellwiseEqual(Snapshot(copy), grid);
    var valid := CheckValid(copy);
    if valid {
      var solved := SolveInPlace(copy);
      if solved {
        outcome := Solved(Snapshot(copy));
      } else {
        outcome := NoSolution;
      }
    } else {
      outcome := InitialInvalid;
    }
  }

  /** The grid shown after the Solve button: the solved copy on success,
      the unchanged grid otherwise. */
  function ShownGrid(g: Grid, outcome: Outcome): Grid {
    if outcome.Solved? then outcome.grid else g
  }

  /** The three outcomes, each characterised: InitialInvalid exactly for
      an invalid grid; NoSolution exactly for a valid grid that has no
      completion; Solved with a completion that keeps every given digit
      and is the first one in row-major, digit-ascending order. */
  lemma OutcomeCases(g: Grid)
    ensures SolveOutcome(g) == InitialInvalid <==> !IsValid(g)
    ensures SolveOutcome(g) == NoSolution <==> IsValid(g) && Unsolvable(g)
    ensures SolveOutcome(g).Solved? ==> IsSolution(g, SolveOutcome(g).grid)
    ensures SolveOutcome(g).Solved? ==>
      forall t :: IsSolution(g, t) ==> t == SolveOutcome(g).grid || LexBefore(SolveOutcome(g).grid, t)
  {
    if IsValid(g) {
      SearchSucceedsIffSolvable(g);
      SearchSound(g);
      if Search(g).Some? {
        forall t | IsSolution(g, t) ensures t == Search(g).value || LexBefore(Search(g).value, t) {
          SearchFindsFirst(g, t);
        }
      }
    }
  }

  /** The grid on screen after Solve keeps every digit it held before, and
      is left exactly as it was unless the search succeeded. */
  lemma ShownGridKeepsEntries(g: Grid)
    ensures Extends(g, ShownGrid(g, SolveOutcome(g)))
    ensures !SolveOutcome(g).Solved? ==> ShownGrid(g, SolveOutcome(g)) == g
  {
    OutcomeCases(g);
  }

  /** The text an input box shows for a cell. */
  function CellText(d: Cell): (s: string)
    ensures |s| <= 1
  {
    if d == Empty then "" else [('0' as int + d) as char]
  }

  /** The input filter: the empty string or a single character 1..9. */
  predicate Accepts(value: string) {
    value == "" || (|value| == 1 && '1' <= value[0] <= '9')
  }

  /** The cell an accepted input stands for. */
  function CellOf(value: string): Cell
    requires Accepts(value)
  {
    if value == "" then Empty else (value[0] as int - '0' as int)
  }

  /** The filter accepts exactly the texts a cell can show, and the cell
      encoding is a bijection between those texts and cell values. */
  lemma AcceptsCellTexts(value: string, d: Cell)
    ensures Accepts(CellText(d)) && CellOf(CellText(d)) == d
    ensures Accepts(value) ==> CellText(CellOf(value)) == value
  {
    if Accepts(value) && value != "" {
      assert CellText(CellOf(value)) == [value[0]];
    }
  }

  /** `handleChange(row, col, value)`: an accepted value replaces cell
      (row, col), built as a fresh grid cell by cell; any other value
      leaves the grid as it is. */
  function HandleChange(g: Grid, row: int, col: int, value: string): (h: Grid)
    ensures Accepts(value) && InRange(row, col) ==> h == Assign(g, row, col, CellOf(value))
    ensures !Accepts(value) || !InRange(row, col) ==> h == g
  {
    if Accepts(value) then
      var h: Grid := seq(9, r requires 0 <= r < 9 =>
        seq(9, c requires 0 <= c < 9 => if r == row && c == col then CellOf(value) else g[r][c]));
      if InRange(row, col) then
        CellwiseEqual(h, Assign(g, row, col, CellOf(value)));
        h
      else
        CellwiseEqual(h, g);
        h
    else g
  }

  /** Only cell (row, col) can change, and it changes exactly when the
      value is accepted and differs from what the cell held. */
  lemma HandleChangeOneCell(g: Grid, row: int, col: int, value: string)
    requires InRange(row, col)
    ensures SameExcept(g, HandleChange(g, row, col, value), row, col)
    ensures HandleChange(g, row, col, value)[row][col] != g[row][col]
      <==> Accepts(value) && CellOf(value) != g[row][col]
  {
  }
}
