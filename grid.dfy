/** The 9×9 grid held by the Sudoku component: nine rows of nine cells.
    In the component a cell is a string, either "" (empty) or one of the
    digit strings "1".."9"; those are the only values that ever reach the
    grid (the empty grid, the input filter and the solver's writes), so a
    cell is modelled as the number 0 (for "") or the digit 1..9 it spells. */
module SudokuGrid {

  /** A cell value: 0 stands for the empty string, 1..9 for "1".."9". */
  type Cell = d: int | 0 <= d <= 9

  const Empty: Cell := 0

  predicate InRange(r: int, c: int) { 0 <= r < 9 && 0 <= c < 9 }

  predicate IsShape(g: seq<seq<Cell>>) {
    |g| == 9 && forall r :: 0 <= r < 9 ==> |g[r]| == 9
  }

  /** Nine rows of nine cells. */
  type Grid = g: seq<seq<Cell>> | IsShape(g) witness seq(9, _ => seq(9, _ => 0))

  /** The grid the component starts with: every cell "". */
  const EmptyGrid: Grid := seq(9, _ => seq(9, _ => Empty))

  /** Every cell holds a digit. */
  ghost predicate IsComplete(g: Grid) {
    forall r, c :: InRange(r, c) ==> g[r][c] != Empty
  }

  /** `s` keeps the value of every cell that is filled in `g`. */
  ghost predicate Extends(g: Grid, s: Grid) {
    forall r, c :: InRange(r, c) && g[r][c] != Empty ==> s[r][c] == g[r][c]
  }

  /** `s` is `g` with only cell (r, c) possibly different. */
  ghost predicate SameExcept(g: Grid, s: Grid, r: int, c: int) {
    forall r', c' :: InRange(r', c') && (r', c') != (r, c) ==> s[r'][c'] == g[r'][c']
  }

  /** The grid with cell (r, c) set to v and every other cell as before. */
  function Assign(g: Grid, r: int, c: int, v: Cell): (h: Grid)
    requires InRange(r, c)
    ensures h[r][c] == v && SameExcept(g, h, r, c)
  {
    var row: seq<Cell> := g[r][c := v];
    g[r := row]
  }

  /** The grid that a 9×9 array holds right now. */
  function Snapshot(a: array2<Cell>): (g: Grid)
    requires a.Length0 == 9 && a.Length1 == 9
    reads a
    ensures forall r, c :: InRange(r, c) ==> g[r][c] == a[r, c]
  {
    seq(9, r requires 0 <= r < 9 reads a => seq(9, c requires 0 <= c < 9 reads a => a[r, c]))
  }

  /** Two grids agreeing on every cell are the same grid. */
  lemma CellwiseEqual(g: Grid, h: Grid)
    requires forall r, c :: InRange(r, c) ==> g[r][c] == h[r][c]
    ensures g == h
  {
    forall r | 0 <= r < 9 ensures g[r] == h[r] {
      assert forall c :: 0 <= c < 9 ==> g[r][c] == h[r][c] by {
        forall c | 0 <= c < 9 ensures g[r][c] == h[r][c] { assert InRange(r, c); }
      }
    }
  }

  /** Number of empty cells in a row. */
  function EmptyInRow(row: seq<Cell>): nat {
    if row == [] then 0 else (if row[0] == Empty then 1 else 0) + EmptyInRow(row[1..])
  }

  /** Number of empty cells in a sequence of rows. */
  function EmptyCount(g: seq<seq<Cell>>): nat {
    if g == [] then 0 else EmptyInRow(g[0]) + EmptyCount(g[1..])
  }

  lemma {:induction false} EmptyInRowFill(row: seq<Cell>, c: int, v: Cell)
    requires 0 <= c < |row| && row[c] == Empty && v != Empty
    ensures EmptyInRow(row[c := v]) + 1 == EmptyInRow(row)
  {
    if c == 0 {
      assert row[c := v][1..] == row[1..];
    } else {
      assert row[c := v][1..] == row[1..][c - 1 := v];
      EmptyInRowFill(row[1..], c - 1, v);
    }
  }

  /** Filling an empty cell with a digit leaves one empty cell fewer. */
  lemma {:induction false} EmptyCountFill(g: seq<seq<Cell>>, r: int, c: int, v: Cell)
    requires 0 <= r < |g| && 0 <= c < |g[r]| && g[r][c] == Empty && v != Empty
    ensures var row: seq<Cell> := g[r][c := v]; EmptyCount(g[r := row]) + 1 == EmptyCount(g)
  {
    var row: seq<Cell> := g[r][c := v];
    if r == 0 {
      assert g[r := row][1..] == g[1..];
      EmptyInRowFill(g[0], c, v);
    } else {
      assert g[r := row][1..] == g[1..][r - 1 := row];
      EmptyCountFill(g[1..], r - 1, c, v);
    }
  }

  /** Writing a digit into an empty cell leaves one empty cell fewer. */
  lemma EmptyCountAssign(g: Grid, r: int, c: int, v: Cell)
    requires InRange(r, c) && g[r][c] == Empty && v != Empty
    ensures EmptyCount(Assign(g, r, c, v)) + 1 == EmptyCount(g)
  {
    EmptyCountFill(g, r, c, v);
  }
}
