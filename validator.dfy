/** `isValid` and its inner `isUnique`: a grid is valid when none of its
    27 units (nine rows, nine columns, nine 3×3 boxes) holds the same digit
    twice. Empty cells are never compared. */
module Validator {
  import opened SudokuGrid

  /** The filled entries of a unit, in order (the `filter` that drops ""). */
  function Filled(u: seq<Cell>): (f: seq<Cell>)
  {
    if u == [] then []
    else if u[0] == Empty then Filled(u[1..])
    else [u[0]] + Filled(u[1..])
  }

  /** The values of a sequence as a set (what `new Set(...)` holds). */
  function Elements(s: seq<Cell>): (e: set<Cell>)
  {
    if s == [] then {} else {s[0]} + Elements(s[1..])
  }

  /** The filter keeps exactly the filled values. */
  lemma {:induction false} FilledMembers(u: seq<Cell>)
    ensures forall x :: x in Filled(u) <==> x in u && x != Empty
  {
    if u != [] {
      FilledMembers(u[1..]);
      assert u == [u[0]] + u[1..];
    }
  }

  /** The set holds exactly the values of the sequence. */
  lemma {:induction false} ElementsMembers(s: seq<Cell>)
    ensures forall x :: x in Elements(s) <==> x in s
  {
    if s != [] {
      ElementsMembers(s[1..]);
      assert s == [s[0]] + s[1..];
    }
  }

  /** `isUnique`: the set of filled values has as many members as there are
      filled values. */
  predicate IsUnique(u: seq<Cell>) {
    |Elements(Filled(u))| == |Filled(u)|
  }

  ghost predicate Distinct(s: seq<Cell>) {
    forall i, j :: 0 <= i < j < |s| ==> s[i] != s[j]
  }

  /** Two positions of the unit hold the same digit. */
  predicate HasRepeat(u: seq<Cell>) {
    exists i, j :: 0 <= i < j < |u| && u[i] != Empty && u[i] == u[j]
  }

  lemma DistinctCons(x: Cell, s: seq<Cell>)
    ensures Distinct([x] + s) <==> x !in s && Distinct(s)
  {
    var f := [x] + s;
    if x in s {
      var k :| 0 <= k < |s| && s[k] == x;
      assert f[0] == f[k + 1];
    }
    if !Distinct(s) {
      var i, j :| 0 <= i < j < |s| && s[i] == s[j];
      assert f[i + 1] == f[j + 1];
    }
    if x !in s && Distinct(s) {
      forall i, j | 0 <= i < j < |f| ensures f[i] != f[j] {
        if i > 0 { assert f[i] == s[i - 1] && f[j] == s[j - 1]; }
        else { assert f[j] in s; }
      }
    }
  }

  lemma {:induction false} ElementsDistinct(s: seq<Cell>)
    ensures |Elements(s)| <= |s|
    ensures |Elements(s)| == |s| <==> Distinct(s)
  {
    if s != [] {
      ElementsDistinct(s[1..]);
      ElementsMembers(s[1..]);
      DistinctCons(s[0], s[1..]);
      assert s == [s[0]] + s[1..];
      if s[0] in s[1..] {
        assert Elements(s) == Elements(s[1..]);
      } else {
        assert Elements(s) == Elements(s[1..]) + {s[0]};
      }
    }
  }

  /** A repeat in the tail is a repeat of the whole unit. */
  lemma RepeatInTail(u: seq<Cell>)
    requires u != []
    ensures HasRepeat(u[1..]) ==> HasRepeat(u)
  {
    if HasRepeat(u[1..]) {
      var t := u[1..];
      var i, j :| 0 <= i < j < |t| && t[i] != Empty && t[i] == t[j];
      assert u[i + 1] != Empty && u[i + 1] == u[j + 1];
    }
  }

  /** A unit repeats a digit when its tail does or its filled head recurs. */
  lemma RepeatSplit(u: seq<Cell>)
    requires u != []
    ensures HasRepeat(u) <==> (u[0] != Empty && u[0] in u[1..]) || HasRepeat(u[1..])
  {
    var t := u[1..];
    RepeatInTail(u);
    if HasRepeat(u) {
      var i, j :| 0 <= i < j < |u| && u[i] != Empty && u[i] == u[j];
      if i > 0 { assert t[i - 1] != Empty && t[i - 1] == t[j - 1]; }
      else { assert u[0] == t[j - 1]; }
    }
    if u[0] != Empty && u[0] in t {
      var k :| 0 <= k < |t| && t[k] == u[0];
      assert u[0] == u[k + 1];
    }
  }

  lemma {:induction false} FilledDistinct(u: seq<Cell>)
    ensures Distinct(Filled(u)) <==> !HasRepeat(u)
  {
    if u != [] {
      var t := u[1..];
      FilledDistinct(t);
      RepeatSplit(u);
      if u[0] != Empty {
        FilledMembers(t);
        DistinctCons(u[0], Filled(t));
      }
    }
  }

  /** `isUnique` holds exactly when no digit occurs twice among the filled
      entries of the unit; empty entries are never compared. */
  lemma IsUniqueIff(u: seq<Cell>)
    ensures IsUnique(u) <==> !HasRepeat(u)
  {
    ElementsDistinct(Filled(u));
    FilledDistinct(u);
  }

  /** Row i of the grid (`grid[i]`). */
  function Row(g: Grid, i: int): seq<Cell>
    requires 0 <= i < 9
  {
    g[i]
  }

  /** Column i of the grid (`grid.map(row => row[i])`). */
  function Column(g: Grid, i: int): seq<Cell>
    requires 0 <= i < 9
  {
    seq(9, r requires 0 <= r < 9 => g[r][i])
  }

  /** Box i covers rows (i/3)*3 .. +3 and columns (i%3)*3 .. +3, read row by row. */
  function Box(g: Grid, i: int): seq<Cell>
    requires 0 <= i < 9
  {
    seq(9, k requires 0 <= k < 9 => g[(i / 3) * 3 + k / 3][(i % 3) * 3 + k % 3])
  }

  /** None of the three units with index i (row i, column i, box i)
      repeats a digit. */
  predicate UnitsUnique(g: Grid, i: int)
    requires 0 <= i < 9
  {
    !HasRepeat(Row(g, i)) && !HasRepeat(Column(g, i)) && !HasRepeat(Box(g, i))
  }

  /** `isValid`: no row, column or box repeats a digit. */
  predicate IsValid(g: Grid) {
    forall i :: 0 <= i < 9 ==> UnitsUnique(g, i)
  }

  /** The inner loops of `isValid`: push the cells of box i, row by row. */
  method CollectBox(a: array2<Cell>, i: int) returns (box: seq<Cell>)
    requires a.Length0 == 9 && a.Length1 == 9 && 0 <= i < 9
    ensures box == Box(Snapshot(a), i)
  {
    box := [];
    var startRow := (i / 3) * 3;
    var startCol := (i % 3) * 3;
    for r := startRow to startRow + 3
      invariant |box| == (r - startRow) * 3
      invariant forall k :: 0 <= k < |box| ==> box[k] == a[startRow + k / 3, startCol + k % 3]
    {
      for c := startCol to startCol + 3
        invariant |box| == (r - startRow) * 3 + (c - startCol)
        invariant forall k :: 0 <= k < |box| ==> box[k] == a[startRow + k / 3, startCol + k % 3]
      {
        box := box + [a[r, c]];
      }
    }
  }

  /** The loop of `isValid`: for each i it checks row i, column i and the
      box it assembles cell by cell, and returns false at the first unit
      that repeats a digit. It reads the grid and changes nothing. */
  method CheckValid(a: array2<Cell>) returns (valid: bool)
    requires a.Length0 == 9 && a.Length1 == 9
    ensures valid == IsValid(Snapshot(a))
  {
    var g := Snapshot(a);
    for i := 0 to 9
      invariant forall i' :: 0 <= i' < i ==> UnitsUnique(g, i')
    {
      IsUniqueIff(Row(g, i));
      if !IsUnique(Row(g, i)) {
        assert !UnitsUnique(g, i);
        return false;
      }
      IsUniqueIff(Column(g, i));
      if !IsUnique(Column(g, i)) {
        assert !UnitsUnique(g, i);
        return false;
      }
      var box := CollectBox(a, i);
      IsUniqueIff(box);
      if !IsUnique(box) {
        assert !UnitsUnique(g, i);
        return false;
      }
    }
    return true;
  }

  /** The test the loop of `isValid` makes (every row, column and box
      passes `isUnique`) is exactly validity. */
  lemma IsValidIffAllUnique(g: Grid)
    ensures IsValid(g) <==>
      forall i :: 0 <= i < 9 ==> IsUnique(Row(g, i)) && IsUnique(Column(g, i)) && IsUnique(Box(g, i))
  {
    forall i | 0 <= i < 9
      ensures UnitsUnique(g, i) <==> IsUnique(Row(g, i)) && IsUnique(Column(g, i)) && IsUnique(Box(g, i))
    {
      IsUniqueIff(Row(g, i));
      IsUniqueIff(Column(g, i));
      IsUniqueIff(Box(g, i));
    }
  }

  /** The Sudoku rule for two cells: they share a row, a column or a box. */
  predicate SameUnit(r1: int, c1: int, r2: int, c2: int) {
    r1 == r2 || c1 == c2 || (r1 / 3 == r2 / 3 && c1 / 3 == c2 / 3)
  }

  /** Two different cells of one unit hold the same digit. */
  ghost predicate Clash(g: Grid, r1: int, c1: int, r2: int, c2: int) {
    InRange(r1, c1) && InRange(r2, c2) && (r1, c1) != (r2, c2) &&
    SameUnit(r1, c1, r2, c2) && g[r1][c1] != Empty && g[r1][c1] == g[r2][c2]
  }

  /** No two cells that share a row, a column or a box hold the same digit. */
  ghost predicate NoClash(g: Grid) {
    forall r1, c1, r2, c2 :: !Clash(g, r1, c1, r2, c2)
  }

  /** Cell k of box i, and back. */
  lemma BoxSlot(i: int, k: int)
    requires 0 <= i < 9 && 0 <= k < 9
    ensures var r, c := (i / 3) * 3 + k / 3, (i % 3) * 3 + k % 3;
      InRange(r, c) && r / 3 == i / 3 && c / 3 == i % 3 && (r % 3) * 3 + c % 3 == k
  {
  }

  lemma BoxOfCell(r: int, c: int)
    requires InRange(r, c)
    ensures var i, k := (r / 3) * 3 + c / 3, (r % 3) * 3 + c % 3;
      0 <= i < 9 && 0 <= k < 9 && (i / 3) * 3 + k / 3 == r && (i % 3) * 3 + k % 3 == c
  {
  }

  /** `isValid` agrees with the rule stated cell by cell: a grid is valid
      exactly when no two cells sharing a row, a column or a box hold the
      same digit. */
  lemma ValidIffNoClash(g: Grid)
    ensures IsValid(g) <==> NoClash(g)
  {
    if !IsValid(g) {
      var i :| 0 <= i < 9 && !UnitsUnique(g, i);
      if HasRepeat(Row(g, i)) {
        RowRepeatClash(g, i);
      } else if HasRepeat(Column(g, i)) {
        ColumnRepeatClash(g, i);
      } else {
        BoxRepeatClash(g, i);
      }
    } else {
      forall r1, c1, r2, c2 ensures !Clash(g, r1, c1, r2, c2) {
        if Clash(g, r1, c1, r2, c2) {
          ClashGivesRepeat(g, r1, c1, r2, c2);
        }
      }
    }
  }

  lemma RowRepeatClash(g: Grid, i: int)
    requires 0 <= i < 9 && HasRepeat(Row(g, i))
    ensures !NoClash(g)
  {
    var j, k :| 0 <= j < k < 9 && Row(g, i)[j] != Empty && Row(g, i)[j] == Row(g, i)[k];
    assert Clash(g, i, j, i, k);
  }

  lemma ColumnRepeatClash(g: Grid, i: int)
    requires 0 <= i < 9 && HasRepeat(Column(g, i))
    ensures !NoClash(g)
  {
    var j, k :| 0 <= j < k < 9 && Column(g, i)[j] != Empty && Column(g, i)[j] == Column(g, i)[k];
    assert Clash(g, j, i, k, i);
  }

  lemma BoxRepeatClash(g: Grid, i: int)
    requires 0 <= i < 9 && HasRepeat(Box(g, i))
    ensures !NoClash(g)
  {
    var u := Box(g, i);
    var j, k :| 0 <= j < k < 9 && u[j] != Empty && u[j] == u[k];
    BoxSlot(i, j);
    BoxSlot(i, k);
    var r1, c1 := (i / 3) * 3 + j / 3, (i % 3) * 3 + j % 3;
    var r2, c2 := (i / 3) * 3 + k / 3, (i % 3) * 3 + k % 3;
    assert u[j] == g[r1][c1] && u[k] == g[r2][c2];
    assert Clash(g, r1, c1, r2, c2);
  }

  lemma ClashGivesRepeat(g: Grid, r1: int, c1: int, r2: int, c2: int)
    requires Clash(g, r1, c1, r2, c2)
    ensures !IsValid(g)
  {
    if r1 == r2 {
      var u := Row(g, r1);
      if c1 < c2 { assert u[c1] != Empty && u[c1] == u[c2]; }
      else { assert u[c2] != Empty && u[c2] == u[c1]; }
      assert !UnitsUnique(g, r1);
    } else if c1 == c2 {
      var u := Column(g, c1);
      if r1 < r2 { assert u[r1] != Empty && u[r1] == u[r2]; }
      else { assert u[r2] != Empty && u[r2] == u[r1]; }
      assert !UnitsUnique(g, c1);
    } else {
      BoxOfCell(r1, c1);
      BoxOfCell(r2, c2);
      var i := (r1 / 3) * 3 + c1 / 3;
      var k1, k2 := (r1 % 3) * 3 + c1 % 3, (r2 % 3) * 3 + c2 % 3;
      assert i == (r2 / 3) * 3 + c2 / 3;
      var u := Box(g, i);
      assert u[k1] == g[r1][c1] && u[k2] == g[r2][c2];
      assert k1 != k2;
      if k1 < k2 { assert u[k1] != Empty && u[k1] == u[k2]; }
      else { assert u[k2] != Empty && u[k2] == u[k1]; }
      assert !UnitsUnique(g, i);
    }
  }

  /** Clearing cells never makes a valid grid invalid: a grid whose filled
      cells all agree with a valid grid is valid. */
  lemma ValidWhenExtended(g: Grid, s: Grid)
    requires Extends(g, s) && IsValid(s)
    ensures IsValid(g)
  {
    ValidIffNoClash(s);
    ValidIffNoClash(g);
    forall r1, c1, r2, c2 ensures Clash(g, r1, c1, r2, c2) ==> Clash(s, r1, c1, r2, c2) {
    }
  }

  /** The grid the component starts with (every cell "") is valid. */
  lemma EmptyGridValid()
    ensures IsValid(EmptyGrid)
  {
    ValidIffNoClash(EmptyGrid);
  }
}
