/** `solve`: depth-first backtracking. It takes the first empty cell in
    row-major order, writes the digits 1..9 into it in ascending order and
    keeps a digit only when the whole grid is still valid and the rest of
    the grid can be solved; otherwise it clears the cell again. */
module Solver {
  import opened SudokuGrid
  import opened Validator

  datatype Option<T> = None | Some(value: T)

  /** Cell (r1, c1) comes before cell (r2, c2) in row-major order. */
  predicate Before(r1: int, c1: int, r2: int, c2: int) {
    r1 < r2 || (r1 == r2 && c1 < c2)
  }

  /** The nested scan of `solve`, resumed at (row, col): the first empty
      cell at or after it in row-major order, if any. */
  function FirstEmptyFrom(g: Grid, row: int, col: int): (p: Option<(int, int)>)
    requires 0 <= row <= 9 && 0 <= col <= 9
    ensures p.Some? ==>
      InRange(p.value.0, p.value.1) && g[p.value.0][p.value.1] == Empty &&
      !Before(p.value.0, p.value.1, row, col)
    ensures forall r, c ::
      InRange(r, c) && !Before(r, c, row, col) && (p.Some? ==> Before(r, c, p.value.0, p.value.1))
      ==> g[r][c] != Empty
    decreases 9 - row, 9 - col
  {
    if row == 9 then None
    else if col == 9 then FirstEmptyFrom(g, row + 1, 0)
    else if g[row][col] == Empty then Some((row, col))
    else FirstEmptyFrom(g, row, col + 1)
  }

  /** The cell `solve` works on: the first empty cell of the grid. */
  function FirstEmpty(g: Grid): Option<(int, int)> {
    FirstEmptyFrom(g, 0, 0)
  }

  /** What `solve` computes: the grid it leaves behind when it returns
      true, or None when it returns false. */
  function Search(g: Grid): Option<Grid>
    decreases EmptyCount(g), 1
  {
    match FirstEmpty(g)
    case None => Some(g)
    case Some((row, col)) => TryDigits(g, row, col, 1)
  }

  /** `isValid(grid) && solve(grid)`: the search goes on only from a grid
      that is still valid. */
  function Attempt(h: Grid): Option<Grid>
    decreases EmptyCount(h), 2
  {
    if IsValid(h) then Search(h) else None
  }

  /** The digit loop of `solve` for the empty cell (row, col), from digit
      `num` on: place the digit and attempt the rest; the first success
      wins, and running past 9 fails. */
  function TryDigits(g: Grid, row: int, col: int, num: int): Option<Grid>
    requires InRange(row, col) && g[row][col] == Empty && 1 <= num <= 10
    decreases EmptyCount(g), 0, 10 - num
  {
    if num == 10 then None
    else
      EmptyCountAssign(g, row, col, num);
      var found := Attempt(Assign(g, row, col, num));
      if found.Some? then found else TryDigits(g, row, col, num + 1)
  }

  /** `s` completes `g`: every cell filled, no unit repeats a digit, and
      every digit given in `g` kept. */
  ghost predicate IsSolution(g: Grid, s: Grid) {
    IsComplete(s) && IsValid(s) && Extends(g, s)
  }

  /** No completion of `h` exists. */
  ghost predicate Unsolvable(h: Grid) {
    forall t :: !IsSolution(h, t)
  }

  /** Soundness: on a valid grid, whatever the search returns is a
      solution of that grid (complete, valid, pre-filled cells kept). */
  lemma {:induction false} SearchSound(g: Grid)
    requires IsValid(g)
    ensures Search(g).Some? ==> IsSolution(g, Search(g).value)
    decreases EmptyCount(g), 1
  {
    match FirstEmpty(g)
    case None =>
    case Some((row, col)) => TryDigitsSound(g, row, col, 1);
  }

  lemma {:induction false} AttemptSound(h: Grid)
    ensures Attempt(h).Some? ==> IsSolution(h, Attempt(h).value)
    decreases EmptyCount(h), 2
  {
    if IsValid(h) {
      SearchSound(h);
    }
  }

  lemma {:induction false} TryDigitsSound(g: Grid, row: int, col: int, num: int)
    requires InRange(row, col) && g[row][col] == Empty && 1 <= num <= 10
    ensures TryDigits(g, row, col, num).Some? ==> IsSolution(g, TryDigits(g, row, col, num).value)
    decreases EmptyCount(g), 0, 10 - num
  {
    if num < 10 {
      var h := Assign(g, row, col, num);
      EmptyCountAssign(g, row, col, num);
      if Attempt(h).Some? {
        AttemptSound(h);
        ExtendsTrans(g, h, Attempt(h).value);
      } else {
        TryDigitsSound(g, row, col, num + 1);
      }
    }
  }

  lemma ExtendsTrans(g: Grid, h: Grid, s: Grid)
    requires Extends(g, h) && Extends(h, s)
    ensures Extends(g, s)
  {
  }

  /** Completeness: if the grid has a solution at all, the search finds one. */
  lemma {:induction false} SearchComplete(g: Grid, s: Grid)
    requires IsSolution(g, s)
    ensures Search(g).Some?
    decreases EmptyCount(g), 1
  {
    match FirstEmpty(g)
    case None =>
    case Some((row, col)) =>
      assert s[row][col] != Empty;
      TryDigitsComplete(g, row, col, 1, s);
  }

  lemma {:induction false} AttemptComplete(h: Grid, s: Grid)
    requires IsSolution(h, s)
    ensures Attempt(h).Some?
    decreases EmptyCount(h), 2
  {
    ValidWhenExtended(h, s);
    SearchComplete(h, s);
  }

  lemma {:induction false} TryDigitsComplete(g: Grid, row: int, col: int, num: int, s: Grid)
    requires InRange(row, col) && g[row][col] == Empty && 1 <= num <= s[row][col]
    requires IsSolution(g, s)
    ensures TryDigits(g, row, col, num).Some?
    decreases EmptyCount(g), 0, 10 - num
  {
    var h := Assign(g, row, col, num);
    EmptyCountAssign(g, row, col, num);
    if num == s[row][col] {
      assert Extends(h, s);
      AttemptComplete(h, s);
    } else if Attempt(h).None? {
      TryDigitsComplete(g, row, col, num + 1, s);
    }
  }

  /** On a valid grid the search succeeds exactly when a solution exists;
      when it fails, the grid has no solution. */
  lemma SearchSucceedsIffSolvable(g: Grid)
    requires IsValid(g)
    ensures Search(g).Some? <==> !Unsolvable(g)
  {
    if Search(g).Some? {
      SearchSound(g);
      assert IsSolution(g, Search(g).value);
    }
    if !Unsolvable(g) {
      var s :| IsSolution(g, s);
      SearchComplete(g, s);
    }
  }

  /** A grid from which the digit loop moves on has no solution. */
  lemma SkippedUnsolvable(h: Grid)
    requires Attempt(h).None?
    ensures Unsolvable(h)
  {
    forall t ensures !IsSolution(h, t) {
      if IsSolution(h, t) {
        AttemptComplete(h, t);
      }
    }
  }

  /** When the digit `num` is kept, the loop returns the attempt from the
      grid with `num` placed, and that grid holds `num` there. */
  lemma KeptDigit(g: Grid, row: int, col: int, num: int)
    requires InRange(row, col) && g[row][col] == Empty && 1 <= num < 10
    requires Attempt(Assign(g, row, col, num)).Some?
    ensures TryDigits(g, row, col, num) == Attempt(Assign(g, row, col, num))
    ensures TryDigits(g, row, col, num).value[row][col] == num
  {
    AttemptSound(Assign(g, row, col, num));
  }

  /** When the digit `num` is not kept, the loop goes on with `num + 1`. */
  lemma MovesOn(g: Grid, row: int, col: int, num: int)
    requires InRange(row, col) && g[row][col] == Empty && 1 <= num < 10
    requires Attempt(Assign(g, row, col, num)).None?
    ensures TryDigits(g, row, col, num) == TryDigits(g, row, col, num + 1)
  {
  }

  /** What the digit loop returns: it kept a digit no smaller than `num`,
      and the result is the attempt from the grid with that digit placed. */
  lemma {:induction false} TryDigitsFound(g: Grid, row: int, col: int, num: int)
    requires InRange(row, col) && g[row][col] == Empty && 1 <= num <= 10
    requires TryDigits(g, row, col, num).Some?
    ensures var s := TryDigits(g, row, col, num).value;
      num <= s[row][col] && Attempt(Assign(g, row, col, s[row][col])) == Some(s)
    decreases 10 - num
  {
    if Attempt(Assign(g, row, col, num)).Some? {
      KeptDigit(g, row, col, num);
    } else {
      MovesOn(g, row, col, num);
      TryDigitsFound(g, row, col, num + 1);
    }
  }

  /** Every digit the loop passed over before the one it kept leaves a
      grid with no solution. */
  lemma {:induction false} TryDigitsSkipped(g: Grid, row: int, col: int, num: int, d: int)
    requires InRange(row, col) && g[row][col] == Empty && 1 <= num <= 10
    requires TryDigits(g, row, col, num).Some?
    requires num <= d < TryDigits(g, row, col, num).value[row][col]
    ensures Unsolvable(Assign(g, row, col, d))
    decreases 10 - num
  {
    var h := Assign(g, row, col, num);
    if Attempt(h).Some? {
      KeptDigit(g, row, col, num);
    } else {
      MovesOn(g, row, col, num);
      if d == num {
        SkippedUnsolvable(h);
      } else {
        TryDigitsSkipped(g, row, col, num + 1, d);
      }
    }
  }

  /** `s` comes before `t` when, at the first cell in row-major order where
      they differ, `s` holds the smaller digit. */
  ghost predicate LexBefore(s: Grid, t: Grid) {
    exists r, c :: InRange(r, c) && s[r][c] < t[r][c] &&
      forall r', c' :: InRange(r', c') && Before(r', c', r, c) ==> s[r'][c'] == t[r'][c']
  }

  /** Determinism of the choice order (first empty cell, digits in
      ascending order): of all solutions of a valid grid, the search
      returns the first one in row-major lexicographic order. */
  lemma {:induction false} SearchFindsFirst(g: Grid, t: Grid)
    requires IsValid(g) && Search(g).Some? && IsSolution(g, t)
    ensures Search(g).value == t || LexBefore(Search(g).value, t)
    decreases EmptyCount(g)
  {
    var s := Search(g).value;
    SearchSound(g);
    match FirstEmpty(g)
    case None =>
      forall r, c | InRange(r, c) ensures s[r][c] == t[r][c] {
      }
      CellwiseEqual(s, t);
    case Some((row, col)) =>
      TryDigitsFound(g, row, col, 1);
      var d := t[row][col];
      var h := Assign(g, row, col, s[row][col]);
      if d < s[row][col] {
        TryDigitsSkipped(g, row, col, 1, d);
        assert IsSolution(Assign(g, row, col, d), t);
      }
      if d > s[row][col] {
        assert InRange(row, col) && s[row][col] < t[row][col];
        forall r', c' | InRange(r', c') && Before(r', c', row, col) ensures s[r'][c'] == t[r'][c'] {
          assert g[r'][c'] != Empty;
        }
      } else {
        EmptyCountAssign(g, row, col, s[row][col]);
        SearchFindsFirst(h, t);
      }
  }

  /** The in-place `solve` on the array: returns true and leaves the grid
      the search computes, or returns false and leaves the array exactly as
      it found it (every tried cell is cleared again). */
  method SolveInPlace(a: array2<Cell>) returns (solved: bool)
    requires a.Length0 == 9 && a.Length1 == 9
    modifies a
    ensures solved == Search(old(Snapshot(a))).Some?
    ensures solved ==> Snapshot(a) == Search(old(Snapshot(a))).value
    ensures !solved ==> Snapshot(a) == old(Snapshot(a))
    decreases EmptyCount(Snapshot(a))
  {
    ghost var g := Snapshot(a);
    for row := 0 to 9
      invariant Snapshot(a) == g
      invariant forall r, c :: InRange(r, c) && Before(r, c, row, 0) ==> g[r][c] != Empty
    {
      for col := 0 to 9
        invariant Snapshot(a) == g
        invariant forall r, c :: InRange(r, c) && Before(r, c, row, col) ==> g[r][c] != Empty
      {
        if a[row, col] == Empty {
          assert FirstEmpty(g) == Some((row, col));
          for num := 1 to 10
            invariant Snapshot(a) == g
            invariant Search(g) == TryDigits(g, row, col, num)
          {
            a[row, col] := num;
            ghost var h := Assign(g, row, col, num);
            CellwiseEqual(Snapshot(a), h);
            EmptyCountAssign(g, row, col, num);
            var valid := CheckValid(a);
            if valid {
              var done := SolveInPlace(a);
              if done {
                return true;
              }
            }
            a[row, col] := Empty;
            CellwiseEqual(Snapshot(a), g);
          }
          return false;
        }
      }
    }
    return true;
  }
}
