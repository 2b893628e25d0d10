/** Concrete grids showing each of the three outcomes of the Solve button. */
module Scenarios {
  import opened SudokuGrid
  import opened Validator
  import opened Solver
  import opened App

  /** Two 5s side by side in the top row. */
  const TwoFives: Grid := EmptyGrid[0 := [5, 5, 0, 0, 0, 0, 0, 0, 0]]

  /** The top row forces 9 into its first cell, but column 0 already
      holds a 9 further down. */
  const Blocked: Grid :=
    EmptyGrid[0 := [0, 1, 2, 3, 4, 5, 6, 7, 8]][3 := [9, 0, 0, 0, 0, 0, 0, 0, 0]]

  /** A repeated digit in a row is rejected before any search. */
  lemma TwoFivesRejected()
    ensures SolveOutcome(TwoFives) == InitialInvalid
  {
    assert Row(TwoFives, 0)[0] == 5 && Row(TwoFives, 0)[1] == 5;
    assert !UnitsUnique(TwoFives, 0);
  }

  /** A valid grid without a completion ends in NoSolution. */
  lemma BlockedHasNoSolution()
    ensures SolveOutcome(Blocked) == NoSolution
  {
    BlockedValid();
    forall t ensures !IsSolution(Blocked, t) {
      assert IsValid(t) ==> UnitsUnique(t, 0);
      if IsComplete(t) && Extends(Blocked, t) && !HasRepeat(Row(t, 0)) {
        ForcedNine(t);
        ColumnClash(t);
        assert !UnitsUnique(t, 0);
      }
    }
    OutcomeCases(Blocked);
  }

  lemma BlockedValid()
    ensures IsValid(Blocked)
  {
    forall i | 0 <= i < 9 ensures UnitsUnique(Blocked, i) {
      assert Row(Blocked, i) == Blocked[i];
    }
  }

  /** In any completion the top row's one missing digit, 9, goes first. */
  lemma ForcedNine(t: Grid)
    requires IsComplete(t) && Extends(Blocked, t) && !HasRepeat(Row(t, 0))
    ensures t[0][0] == 9
  {
    var row := Row(t, 0);
    forall k | 1 <= k < 9 ensures row[k] == k && row[0] != row[k] {
      assert InRange(0, k) && Blocked[0][k] == k;
    }
    assert row[1] == 1 && row[2] == 2 && row[3] == 3 && row[4] == 4;
    assert row[5] == 5 && row[6] == 6 && row[7] == 7 && row[8] == 8;
    assert InRange(0, 0);
  }

  /** A 9 in the top-left corner repeats the 9 in column 0. */
  lemma ColumnClash(t: Grid)
    requires Extends(Blocked, t) && t[0][0] == 9
    ensures HasRepeat(Column(t, 0))
  {
    assert InRange(3, 0) && Blocked[3][0] == 9;
    assert Column(t, 0)[0] == 9 && Column(t, 0)[3] == 9;
  }

  /** A completed grid: a standard solved puzzle with top row
      5,3,4,6,7,8,9,1,2. */
  const Solution: Grid := [
    [5, 3, 4, 6, 7, 8, 9, 1, 2],
    [6, 7, 2, 1, 9, 5, 3, 4, 8],
    [1, 9, 8, 3, 4, 2, 5, 6, 7],
    [8, 5, 9, 7, 6, 1, 4, 2, 3],
    [4, 2, 6, 8, 5, 3, 7, 9, 1],
    [7, 1, 3, 9, 2, 4, 8, 5, 6],
    [9, 6, 1, 5, 3, 7, 2, 8, 4],
    [2, 8, 7, 4, 1, 9, 6, 3, 5],
    [3, 4, 5, 2, 8, 6, 1, 7, 9]
  ]

  /** Pigeonhole: a unit of nine cells holding every digit 1..9 repeats
      none of them, since its set of values is as large as the unit. */
  lemma AllDigitsNoRepeat(u: seq<Cell>)
    requires |u| == 9 && forall d :: 1 <= d <= 9 ==> d in u
    ensures !HasRepeat(u)
  {
    assert |Elements(u)| >= 9 by {
      AllDigitsElements(u);
    }
    ElementsDistinct(u);
    assert Distinct(u);
  }

  /** The nine digits. */
  const Digits: set<Cell> := {1, 2, 3, 4, 5, 6, 7, 8, 9}

  lemma DigitCount()
    ensures |Digits| == 9
  {
  }

  /** A unit holding every digit has at least nine distinct values. */
  lemma AllDigitsElements(u: seq<Cell>)
    requires forall d :: 1 <= d <= 9 ==> d in u
    ensures |Elements(u)| >= 9
  {
    assert Digits <= Elements(u) by {
      ElementsMembers(u);
    }
    var rest := Elements(u) - Digits;
    assert Elements(u) == Digits + rest && Digits * rest == {};
    DigitCount();
  }

  /** Every row of the solution holds all nine digits. */
  lemma SolutionRow(i: int)
    requires 0 <= i < 9
    ensures !HasRepeat(Row(Solution, i))
  {
    AllDigitsNoRepeat(Row(Solution, i));
  }

  /** Every column of the solution holds all nine digits. */
  lemma SolutionColumn(i: int)
    requires 0 <= i < 9
    ensures !HasRepeat(Column(Solution, i))
  {
    if i == 0 {
      assert Column(Solution, 0) == [5, 6, 1, 8, 4, 7, 9, 2, 3];
    } else if i == 1 {
      assert Column(Solution, 1) == [3, 7, 9, 5, 2, 1, 6, 8, 4];
    } else if i == 2 {
      assert Column(Solution, 2) == [4, 2, 8, 9, 6, 3, 1, 7, 5];
    } else if i == 3 {
      assert Column(Solution, 3) == [6, 1, 3, 7, 8, 9, 5, 4, 2];
    } else if i == 4 {
      assert Column(Solution, 4) == [7, 9, 4, 6, 5, 2, 3, 1, 8];
    } else if i == 5 {
      assert Column(Solution, 5) == [8, 5, 2, 1, 3, 4, 7, 9, 6];
    } else if i == 6 {
      assert Column(Solution, 6) == [9, 3, 5, 4, 7, 8, 2, 6, 1];
    } else if i == 7 {
      assert Column(Solution, 7) == [1, 4, 6, 2, 9, 5, 8, 3, 7];
    } else if i == 8 {
      assert Column(Solution, 8) == [2, 8, 7, 3, 1, 6, 4, 5, 9];
    }
    AllDigitsNoRepeat(Column(Solution, i));
  }

  /** Every box of the solution holds all nine digits. */
  lemma SolutionBox(i: int)
    requires 0 <= i < 9
    ensures !HasRepeat(Box(Solution, i))
  {
    if i < 3 {
      SolutionBoxTop(i);
    } else if i < 6 {
      SolutionBoxMiddle(i);
    } else {
      SolutionBoxBottom(i);
    }
  }

  lemma SolutionBoxTop(i: int)
    requires 0 <= i < 3
    ensures !HasRepeat(Box(Solution, i))
  {
    if i == 0 {
      assert Box(Solution, 0) == [5, 3, 4, 6, 7, 2, 1, 9, 8];
    } else if i == 1 {
      assert Box(Solution, 1) == [6, 7, 8, 1, 9, 5, 3, 4, 2];
    } else {
      assert Box(Solution, 2) == [9, 1, 2, 3, 4, 8, 5, 6, 7];
    }
    AllDigitsNoRepeat(Box(Solution, i));
  }

  lemma SolutionBoxMiddle(i: int)
    requires 3 <= i < 6
    ensures !HasRepeat(Box(Solution, i))
  {
    if i == 3 {
      assert Box(Solution, 3) == [8, 5, 9, 4, 2, 6, 7, 1, 3];
    } else if i == 4 {
      assert Box(Solution, 4) == [7, 6, 1, 8, 5, 3, 9, 2, 4];
    } else {
      assert Box(Solution, 5) == [4, 2, 3, 7, 9, 1, 8, 5, 6];
    }
    AllDigitsNoRepeat(Box(Solution, i));
  }

  lemma SolutionBoxBottom(i: int)
    requires 6 <= i < 9
    ensures !HasRepeat(Box(Solution, i))
  {
    if i == 6 {
      assert Box(Solution, 6) == [9, 6, 1, 2, 8, 7, 3, 4, 5];
    } else if i == 7 {
      assert Box(Solution, 7) == [5, 3, 7, 4, 1, 9, 2, 8, 6];
    } else {
      assert Box(Solution, 8) == [2, 8, 4, 6, 3, 5, 1, 7, 9];
    }
    AllDigitsNoRepeat(Box(Solution, i));
  }

  lemma SolutionValid()
    ensures IsValid(Solution)
  {
    forall i | 0 <= i < 9 ensures UnitsUnique(Solution, i) {
      SolutionRow(i);
      SolutionColumn(i);
      SolutionBox(i);
    }
  }

  /** Solve on the starting all-empty grid ends in Solved, with a complete
      valid grid. */
  lemma EmptyGridSolved()
    ensures SolveOutcome(EmptyGrid).Solved?
    ensures IsSolution(EmptyGrid, SolveOutcome(EmptyGrid).grid)
  {
    EmptyGridValid();
    SolutionValid();
    assert IsSolution(EmptyGrid, Solution);
    OutcomeCases(EmptyGrid);
  }
}
