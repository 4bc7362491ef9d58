/** The Sudoku solution validator of SudokuValidator.c: each of the 27
    sections (9 columns, 9 rows, 9 subgrids) is valid when each digit 1..9
    occurs in it exactly once, and the puzzle is valid when every section is.

    The source checks the sections on worker threads that only read the
    puzzle and each return one result; the model checks them one after the
    other, which gives the same results. */
module Sudoku {

  /** A rectangle of the grid, bounds inclusive. */
  datatype Parameters = Parameters(topRow: int, bottomRow: int, leftColumn: int, rightColumn: int)

  /** The rectangle has no cells (the loops of the source never run). */
  predicate IsEmpty(p: Parameters)
  {
    p.topRow > p.bottomRow || p.leftColumn > p.rightColumn
  }

  /** Every cell of the rectangle lies inside the 9x9 grid. */
  predicate InGrid(p: Parameters)
  {
    IsEmpty(p) || (0 <= p.topRow && p.bottomRow < 9 && 0 <= p.leftColumn && p.rightColumn < 9)
  }

  /** Cell (r, c) lies in the rectangle. */
  predicate Covers(p: Parameters, r: int, c: int)
  {
    p.topRow <= r <= p.bottomRow && p.leftColumn <= c <= p.rightColumn
  }

  /** The puzzle, row by row. It is only read once it has been loaded, so
      it is modelled as a value. */
  type Grid = seq<seq<int>>

  predicate IsPuzzle(puzzle: Grid)
  {
    |puzzle| == 9 && forall r :: 0 <= r < 9 ==> |puzzle[r]| == 9
  }

  /** Every cell of the rectangle holds a digit 1..9 (the counter index is
      `num - 1`, so the source reads outside its counters otherwise). */
  ghost predicate DigitsIn(puzzle: Grid, p: Parameters)
    requires IsPuzzle(puzzle) && InGrid(p)
  {
    forall r, c :: Covers(p, r, c) ==> 1 <= puzzle[r][c] <= 9
  }

  /** The number of cells holding `d` in row `r` of a non-empty section,
      columns p.leftColumn .. c1-1. (The rectangle is passed whole, not as
      four bounds, so that the solver does not unroll the recursion over
      literal bounds.) */
  function CountRow(puzzle: Grid, p: Parameters, r: int, c1: int, d: int): nat
    requires IsPuzzle(puzzle) && InGrid(p) && !IsEmpty(p)
    requires p.topRow <= r <= p.bottomRow && c1 <= p.rightColumn + 1
    decreases c1 - p.leftColumn
  {
    if c1 <= p.leftColumn then 0
    else CountRow(puzzle, p, r, c1 - 1, d) + (if puzzle[r][c1 - 1] == d then 1 else 0)
  }

  /** The number of cells holding `d` in rows p.topRow .. r1-1 of a
      non-empty section. */
  function CountRows(puzzle: Grid, p: Parameters, r1: int, d: int): nat
    requires IsPuzzle(puzzle) && InGrid(p) && !IsEmpty(p) && r1 <= p.bottomRow + 1
    decreases r1 - p.topRow
  {
    if r1 <= p.topRow then 0
    else CountRows(puzzle, p, r1 - 1, d) + CountRow(puzzle, p, r1 - 1, p.rightColumn + 1, d)
  }

  /** The number of cells of the section holding `d`. */
  function SectionCount(puzzle: Grid, p: Parameters, d: int): nat
    requires IsPuzzle(puzzle) && InGrid(p)
  {
    if IsEmpty(p) then 0 else CountRows(puzzle, p, p.bottomRow + 1, d)
  }

  /** Each digit 1..9 occurs exactly once in the section. */
  predicate SectionValid(puzzle: Grid, p: Parameters)
    requires IsPuzzle(puzzle) && InGrid(p)
  {
    forall d :: 1 <= d <= 9 ==> SectionCount(puzzle, p, d) == 1
  }

  /** `checkPuzzleSectionIsValid`: counts the occurrences of each digit in
      the section, then reports whether every counter is exactly 1. */
  method CheckPuzzleSectionIsValid(puzzle: Grid, p: Parameters) returns (valid: bool)
    requires IsPuzzle(puzzle) && InGrid(p) && DigitsIn(puzzle, p)
    ensures valid <==> SectionValid(puzzle, p)
  {
    var numCounters := new int[9](_ => 0);
    var row := p.topRow;
    while row <= p.bottomRow
      invariant p.topRow <= row && (row <= p.bottomRow + 1 || row == p.topRow)
      invariant IsEmpty(p) ==> forall k :: 0 <= k < 9 ==> numCounters[k] == 0
      invariant !IsEmpty(p) ==> forall k :: 0 <= k < 9 ==> numCounters[k] == CountRows(puzzle, p, row, k + 1)
    {
      var column := p.leftColumn;
      while column <= p.rightColumn
        invariant p.leftColumn <= column && (column <= p.rightColumn + 1 || column == p.leftColumn)
        invariant IsEmpty(p) ==> forall k :: 0 <= k < 9 ==> numCounters[k] == 0
        invariant !IsEmpty(p) ==> forall k :: 0 <= k < 9 ==>
          numCounters[k] == CountRows(puzzle, p, row, k + 1) + CountRow(puzzle, p, row, column, k + 1)
      {
        var num := puzzle[row][column];
        assert Covers(p, row, column);
        numCounters[num - 1] := numCounters[num - 1] + 1;
        column := column + 1;
      }
      row := row + 1;
    }
    for i := 0 to 9
      invariant forall k :: 0 <= k < i ==> numCounters[k] == 1
    {
      if numCounters[i] != 1 {
        assert SectionCount(puzzle, p, i + 1) != 1;
        return false;
      }
    }
    forall d | 1 <= d <= 9
      ensures SectionCount(puzzle, p, d) == 1
    {
      assert numCounters[d - 1] == 1;
    }
    return true;
  }

  /** Column `i`: rows 0..8 of column `i`. */
  function ColumnParameters(i: int): (p: Parameters)
    requires 0 <= i < 9
    ensures InGrid(p)
    ensures forall r, c :: Covers(p, r, c) <==> 0 <= r < 9 && c == i
  {
    Parameters(0, 8, i, i)
  }

  /** Row `i`: columns 0..8 of row `i`. */
  function RowParameters(i: int): (p: Parameters)
    requires 0 <= i < 9
    ensures InGrid(p)
    ensures forall r, c :: Covers(p, r, c) <==> r == i && 0 <= c < 9
  {
    Parameters(i, i, 0, 8)
  }

  /** Subgrid `i`: the 3x3 block whose top row is (i / 3) * 3 and whose left
      column is (i % 3) * 3. */
  function SubgridParameters(i: int): (p: Parameters)
    requires 0 <= i < 9
    ensures InGrid(p)
    ensures forall r, c :: Covers(p, r, c) <==> 0 <= r && 0 <= c && r / 3 == i / 3 && c / 3 == i % 3
  {
    var topRow := (i / 3) * 3;
    var leftColumn := (i % 3) * 3;
    Parameters(topRow, topRow + 2, leftColumn, leftColumn + 2)
  }

  /** Every cell of the grid lies in exactly one subgrid. */
  lemma SubgridsPartitionGrid(r: int, c: int)
    requires 0 <= r < 9 && 0 <= c < 9
    ensures Covers(SubgridParameters(3 * (r / 3) + c / 3), r, c)
    ensures forall i :: 0 <= i < 9 && Covers(SubgridParameters(i), r, c) ==> i == 3 * (r / 3) + c / 3
  {
    forall i | 0 <= i < 9 && Covers(SubgridParameters(i), r, c)
      ensures i == 3 * (r / 3) + c / 3
    {
    }
  }

  lemma SectionsInGrid()
    ensures forall i :: 0 <= i < 9 ==>
      InGrid(ColumnParameters(i)) && InGrid(RowParameters(i)) && InGrid(SubgridParameters(i))
  {
  }

  /** All 27 sections are valid. */
  predicate PuzzleValid(puzzle: Grid)
    requires IsPuzzle(puzzle)
  {
    SectionsInGrid();
    forall i :: 0 <= i < 9 ==>
      SectionValid(puzzle, ColumnParameters(i)) &&
      SectionValid(puzzle, RowParameters(i)) &&
      SectionValid(puzzle, SubgridParameters(i))
  }

  /** Every cell of the puzzle holds a digit 1..9. */
  predicate AllDigits(puzzle: Grid)
    requires IsPuzzle(puzzle)
  {
    forall r, c :: 0 <= r < 9 && 0 <= c < 9 ==> 1 <= puzzle[r][c] <= 9
  }

  lemma DigitsEverywhere(puzzle: Grid, p: Parameters)
    requires IsPuzzle(puzzle) && AllDigits(puzzle) && InGrid(p)
    ensures DigitsIn(puzzle, p)
  {
  }

  /** The section rectangles `main` builds: column, row and subgrid `i`
      for each i in 0..8. */
  method MakeSectionParameters() returns (columnParams: array<Parameters>, rowParams: array<Parameters>,
                                           subgridParams: array<Parameters>)
    ensures fresh(columnParams) && fresh(rowParams) && fresh(subgridParams)
    ensures columnParams.Length == 9 && rowParams.Length == 9 && subgridParams.Length == 9
    ensures forall k :: 0 <= k < 9 ==>
      columnParams[k] == ColumnParameters(k) && rowParams[k] == RowParameters(k) &&
      subgridParams[k] == SubgridParameters(k)
  {
    columnParams := new Parameters[9];
    rowParams := new Parameters[9];
    subgridParams := new Parameters[9];
    for i := 0 to 9
      modifies columnParams, rowParams, subgridParams
      invariant forall k :: 0 <= k < i ==>
        columnParams[k] == ColumnParameters(k) && rowParams[k] == RowParameters(k) &&
        subgridParams[k] == SubgridParameters(k)
    {
      columnParams[i] := Parameters(0, 8, i, i);
      rowParams[i] := Parameters(i, i, 0, 8);
      var topRow := (i / 3) * 3;
      var bottomRow := topRow + 2;
      var leftColumn := (i % 3) * 3;
      var rightColumn := leftColumn + 2;
      subgridParams[i] := Parameters(topRow, bottomRow, leftColumn, rightColumn);
    }
  }

  /** The final loop of `main`: the puzzle is valid when every column, row
      and subgrid is. */
  method CombineValidity(columnValidity: array<bool>, rowValidity: array<bool>, subgridValidity: array<bool>)
    returns (puzzleIsValid: bool)
    requires columnValidity.Length == 9 && rowValidity.Length == 9 && subgridValidity.Length == 9
    ensures puzzleIsValid <==> forall k :: 0 <= k < 9 ==> columnValidity[k] && rowValidity[k] && subgridValidity[k]
  {
    puzzleIsValid := true;
    for i := 0 to 9
      invariant puzzleIsValid <==> forall k :: 0 <= k < i ==>
        columnValidity[k] && rowValidity[k] && subgridValidity[k]
    {
      if !columnValidity[i] || !rowValidity[i] || !subgridValidity[i] {
        puzzleIsValid := false;
      }
    }
  }

  /** The checking threads of `main`: each section is checked and its result
      stored at its index. */
  method CheckSections(puzzle: Grid, columnParams: array<Parameters>, rowParams: array<Parameters>,
                       subgridParams: array<Parameters>)
    returns (columnValidity: array<bool>, rowValidity: array<bool>, subgridValidity: array<bool>)
    requires IsPuzzle(puzzle) && AllDigits(puzzle)
    requires columnParams.Length == 9 && rowParams.Length == 9 && subgridParams.Length == 9
    requires forall k :: 0 <= k < 9 ==>
      InGrid(columnParams[k]) && InGrid(rowParams[k]) && InGrid(subgridParams[k])
    ensures fresh(columnValidity) && fresh(rowValidity) && fresh(subgridValidity)
    ensures columnValidity.Length == 9 && rowValidity.Length == 9 && subgridValidity.Length == 9
    ensures forall k :: 0 <= k < 9 ==>
      columnValidity[k] == SectionValid(puzzle, columnParams[k]) &&
      rowValidity[k] == SectionValid(puzzle, rowParams[k]) &&
      subgridValidity[k] == SectionValid(puzzle, subgridParams[k])
  {
    ghost var columns, rows, subgrids := columnParams[..], rowParams[..], subgridParams[..];
    columnValidity := new bool[9];
    rowValidity := new bool[9];
    subgridValidity := new bool[9];
    for i := 0 to 9
      modifies columnValidity, rowValidity, subgridValidity
      invariant forall k :: 0 <= k < i ==>
        columnValidity[k] == SectionValid(puzzle, columns[k]) &&
        rowValidity[k] == SectionValid(puzzle, rows[k]) &&
        subgridValidity[k] == SectionValid(puzzle, subgrids[k])
    {
      DigitsEverywhere(puzzle, columns[i]);
      var columnIsValid := CheckPuzzleSectionIsValid(puzzle, columnParams[i]);
      DigitsEverywhere(puzzle, rows[i]);
      var rowIsValid := CheckPuzzleSectionIsValid(puzzle, rowParams[i]);
      DigitsEverywhere(puzzle, subgrids[i]);
      var subgridIsValid := CheckPuzzleSectionIsValid(puzzle, subgridParams[i]);
      columnValidity[i], rowValidity[i], subgridValidity[i] := columnIsValid, rowIsValid, subgridIsValid;
    }
  }

  /** The body of `main` after the puzzle has been read: builds the 27
      section rectangles, checks each one, and combines the results. */
  method CheckPuzzle(puzzle: Grid) returns (puzzleIsValid: bool)
    requires IsPuzzle(puzzle) && AllDigits(puzzle)
    ensures puzzleIsValid <==> PuzzleValid(puzzle)
  {
    var columnParams, rowParams, subgridParams := MakeSectionParameters();
    SectionsInGrid();
    var columnValidity, rowValidity, subgridValidity :=
      CheckSections(puzzle, columnParams, rowParams, subgridParams);
    puzzleIsValid := CombineValidity(columnValidity, rowValidity, subgridValidity);
  }

  /** The digits 1..9, each once. */
  const Digits: multiset<int> := multiset{1, 2, 3, 4, 5, 6, 7, 8, 9}

  lemma DigitsCount(x: int)
    ensures Digits[x] == if 1 <= x <= 9 then 1 else 0
  {
  }

  /** The values of a section in rows p.topRow .. r1-1, in the row-major
      order in which the source scans them. */
  function RectValues(puzzle: Grid, p: Parameters, r1: int): seq<int>
    requires IsPuzzle(puzzle) && InGrid(p) && !IsEmpty(p) && r1 <= p.bottomRow + 1
    decreases r1 - p.topRow
  {
    if r1 <= p.topRow then []
    else RectValues(puzzle, p, r1 - 1) + puzzle[r1 - 1][p.leftColumn..p.rightColumn + 1]
  }

  /** The values of a section, in scan order. */
  function SectionValues(puzzle: Grid, p: Parameters): seq<int>
    requires IsPuzzle(puzzle) && InGrid(p)
  {
    if IsEmpty(p) then [] else RectValues(puzzle, p, p.bottomRow + 1)
  }

  lemma {:induction false} CountRowIsMultiplicity(puzzle: Grid, p: Parameters, r: int, c1: int, d: int)
    requires IsPuzzle(puzzle) && InGrid(p) && !IsEmpty(p)
    requires p.topRow <= r <= p.bottomRow && p.leftColumn <= c1 <= p.rightColumn + 1
    ensures CountRow(puzzle, p, r, c1, d) == multiset(puzzle[r][p.leftColumn..c1])[d]
    decreases c1 - p.leftColumn
  {
    if c1 > p.leftColumn {
      CountRowIsMultiplicity(puzzle, p, r, c1 - 1, d);
      assert puzzle[r][p.leftColumn..c1] == puzzle[r][p.leftColumn..c1 - 1] + [puzzle[r][c1 - 1]];
    }
  }

  lemma {:induction false} CountRowsIsMultiplicity(puzzle: Grid, p: Parameters, r1: int, d: int)
    requires IsPuzzle(puzzle) && InGrid(p) && !IsEmpty(p) && r1 <= p.bottomRow + 1
    ensures CountRows(puzzle, p, r1, d) == multiset(RectValues(puzzle, p, r1))[d]
    decreases r1 - p.topRow
  {
    if r1 > p.topRow {
      CountRowsIsMultiplicity(puzzle, p, r1 - 1, d);
      CountRowIsMultiplicity(puzzle, p, r1 - 1, p.rightColumn + 1, d);
    }
  }

  /** The count `checkPuzzleSectionIsValid` keeps for a digit is its
      multiplicity among the section's values. */
  lemma SectionCountIsMultiplicity(puzzle: Grid, p: Parameters, d: int)
    requires IsPuzzle(puzzle) && InGrid(p)
    ensures SectionCount(puzzle, p, d) == multiset(SectionValues(puzzle, p))[d]
  {
    if !IsEmpty(p) {
      CountRowsIsMultiplicity(puzzle, p, p.bottomRow + 1, d);
    }
  }

  lemma {:induction false} RectValuesAreCells(puzzle: Grid, p: Parameters, r1: int, x: int)
    requires IsPuzzle(puzzle) && InGrid(p) && !IsEmpty(p) && r1 <= p.bottomRow + 1
    requires x in RectValues(puzzle, p, r1)
    ensures exists r, c :: p.topRow <= r < r1 && Covers(p, r, c) && puzzle[r][c] == x
    decreases r1 - p.topRow
  {
    var row := puzzle[r1 - 1][p.leftColumn..p.rightColumn + 1];
    if x in RectValues(puzzle, p, r1 - 1) {
      RectValuesAreCells(puzzle, p, r1 - 1, x);
    } else {
      var j :| 0 <= j < |row| && row[j] == x;
      assert Covers(p, r1 - 1, p.leftColumn + j);
    }
  }

  /** Every value scanned in a section is a digit. */
  lemma SectionValuesAreDigits(puzzle: Grid, p: Parameters, x: int)
    requires IsPuzzle(puzzle) && InGrid(p) && DigitsIn(puzzle, p)
    requires x in SectionValues(puzzle, p)
    ensures 1 <= x <= 9
  {
    RectValuesAreCells(puzzle, p, p.bottomRow + 1, x);
  }

  /** A section is valid exactly when its values are a permutation of the
      digits 1..9. */
  lemma SectionValidIffPermutationOfDigits(puzzle: Grid, p: Parameters)
    requires IsPuzzle(puzzle) && InGrid(p) && DigitsIn(puzzle, p)
    ensures SectionValid(puzzle, p) <==> multiset(SectionValues(puzzle, p)) == Digits
  {
    var values := SectionValues(puzzle, p);
    if SectionValid(puzzle, p) {
      forall x
        ensures multiset(values)[x] == Digits[x]
      {
        DigitsCount(x);
        SectionCountIsMultiplicity(puzzle, p, x);
        if x in values {
          SectionValuesAreDigits(puzzle, p, x);
        }
      }
      assert multiset(values) == Digits;
    } else if multiset(values) == Digits {
      var d :| 1 <= d <= 9 && SectionCount(puzzle, p, d) != 1;
      DigitsCount(d);
      SectionCountIsMultiplicity(puzzle, p, d);
    }
  }
}
