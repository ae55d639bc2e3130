/** The 9x9 Sudoku solver: a depth-first search that fills the empty cells
    (value 0) of a board in row-major order with the digits 1..9, undoing a
    tentative digit whenever the rest of the board cannot be completed.

    The search is specified by the functions `Solve` and `TryDigits` on a
    board value (`Grid`); the methods work on a board held in an `array2`
    and are proved to compute exactly what those functions compute. */
module Sudoku {
  import opened Wrappers

  /** A board as nine rows of nine cells; 0 marks an empty cell. */
  type Grid = seq<seq<int>>

  predicate IsGrid(g: Grid) {
    |g| == 9 && forall r :: 0 <= r < 9 ==> |g[r]| == 9
  }

  predicate InBounds(r: int, c: int) {
    0 <= r < 9 && 0 <= c < 9
  }

  /** (r1, c1) comes strictly before (r2, c2) in row-major order. */
  predicate Before(r1: int, c1: int, r2: int, c2: int) {
    r1 < r2 || (r1 == r2 && c1 < c2)
  }

  /** No cell of the board is empty. */
  predicate NoEmpty(g: Grid)
    requires IsGrid(g)
  {
    forall r, c :: 0 <= r < 9 && 0 <= c < 9 ==> g[r][c] != 0
  }

  // ---------------------------------------------------------------------
  // Boxes and peers

  /** First row (or column) of the 3x3 box that holds row (or column) i. */
  function BoxStart(i: int): (start: int)
    requires 0 <= i < 9
    ensures start % 3 == 0 && 0 <= start <= 6
    ensures start <= i < start + 3
  {
    3 * (i / 3)
  }

  /** Index j lies in the three-wide window of i's box exactly when the two
      indices have the same box origin. */
  lemma BoxWindow(i: int, j: int)
    requires 0 <= i < 9 && 0 <= j < 9
    ensures BoxStart(i) <= j < BoxStart(i) + 3 <==> BoxStart(j) == BoxStart(i)
  {
  }

  /** Two distinct cells that share a row, a column or a 3x3 box. */
  predicate Peers(r1: int, c1: int, r2: int, c2: int)
    requires InBounds(r1, c1) && InBounds(r2, c2)
  {
    && (r1 != r2 || c1 != c2)
    && (r1 == r2 || c1 == c2 || (BoxStart(r1) == BoxStart(r2) && BoxStart(c1) == BoxStart(c2)))
  }

  /** The value in cell (r, c) differs from the value of each of its peers. */
  ghost predicate DiffersFromPeers(g: Grid, r: int, c: int)
    requires IsGrid(g) && InBounds(r, c)
  {
    forall r2, c2 :: 0 <= r2 < 9 && 0 <= c2 < 9 && Peers(r, c, r2, c2) ==> g[r2][c2] != g[r][c]
  }

  /** A solved Sudoku: every cell holds a digit 1..9 that no peer repeats. */
  ghost predicate IsSolution(s: Grid) {
    && IsGrid(s)
    && (forall r, c :: 0 <= r < 9 && 0 <= c < 9 ==> 1 <= s[r][c] <= 9)
    && (forall r, c :: 0 <= r < 9 && 0 <= c < 9 ==> DiffersFromPeers(s, r, c))
  }

  /** Board s keeps every clue (non-zero cell) of board g. */
  ghost predicate KeepsClues(g: Grid, s: Grid)
    requires IsGrid(g) && IsGrid(s)
  {
    forall r, c :: 0 <= r < 9 && 0 <= c < 9 && g[r][c] != 0 ==> s[r][c] == g[r][c]
  }

  /** A puzzle as the solver expects it: cells hold 0..9 and no two peer
      clues hold the same digit. */
  ghost predicate WellFormedPuzzle(g: Grid) {
    && IsGrid(g)
    && (forall r, c :: 0 <= r < 9 && 0 <= c < 9 ==> 0 <= g[r][c] <= 9)
    && (forall r, c :: 0 <= r < 9 && 0 <= c < 9 && g[r][c] != 0 ==>
          forall r2, c2 :: 0 <= r2 < 9 && 0 <= c2 < 9 && Peers(r, c, r2, c2) ==> g[r2][c2] != g[r][c])
  }

  // ---------------------------------------------------------------------
  // The two queries: the next empty cell, and whether a digit may go in a cell

  /** The first empty cell at or after (row, col) in row-major order. */
  function FirstEmptyFrom(g: Grid, row: int, col: int): (cell: Option<(int, int)>)
    requires IsGrid(g) && 0 <= row <= 9 && 0 <= col <= 9
    ensures match cell
      case Some((r, c)) =>
        && InBounds(r, c) && g[r][c] == 0 && !Before(r, c, row, col)
        && forall r2, c2 :: 0 <= r2 < 9 && 0 <= c2 < 9 && !Before(r2, c2, row, col) && Before(r2, c2, r, c) ==> g[r2][c2] != 0
      case None =>
        forall r2, c2 :: 0 <= r2 < 9 && 0 <= c2 < 9 && !Before(r2, c2, row, col) ==> g[r2][c2] != 0
    decreases 9 - row, 9 - col
  {
    if row == 9 then None
    else if col == 9 then FirstEmptyFrom(g, row + 1, 0)
    else if g[row][col] == 0 then Some((row, col))
    else FirstEmptyFrom(g, row, col + 1)
  }

  /** The first empty cell of the board in row-major order, or None when the
      board is full. */
  function FirstEmpty(g: Grid): (cell: Option<(int, int)>)
    requires IsGrid(g)
    ensures match cell
      case Some((r, c)) =>
        && InBounds(r, c) && g[r][c] == 0
        && forall r2, c2 :: 0 <= r2 < 9 && 0 <= c2 < 9 && Before(r2, c2, r, c) ==> g[r2][c2] != 0
      case None => NoEmpty(g)
  {
    FirstEmptyFrom(g, 0, 0)
  }

  /** The digit `guess` occurs nowhere in row `row`, nowhere in column `col`
      and nowhere in the 3x3 box that holds (row, col). */
  predicate ValidChoice(g: Grid, row: int, col: int, guess: int)
    requires IsGrid(g) && InBounds(row, col)
  {
    && (forall c :: 0 <= c < 9 ==> g[row][c] != guess)
    && (forall r :: 0 <= r < 9 ==> g[r][col] != guess)
    && (forall r, c :: BoxStart(row) <= r < BoxStart(row) + 3 && BoxStart(col) <= c < BoxStart(col) + 3 ==> g[r][c] != guess)
  }

  /** A digit is a valid choice for a cell exactly when neither the cell
      itself nor any of its peers holds it. */
  lemma ValidChoiceIff(g: Grid, row: int, col: int, guess: int)
    requires IsGrid(g) && InBounds(row, col)
    ensures ValidChoice(g, row, col, guess) <==>
      && g[row][col] != guess
      && forall r, c :: 0 <= r < 9 && 0 <= c < 9 && Peers(row, col, r, c) ==> g[r][c] != guess
  {
    if ValidChoice(g, row, col, guess) {
      forall r, c | 0 <= r < 9 && 0 <= c < 9 && Peers(row, col, r, c)
        ensures g[r][c] != guess
      {
        BoxWindow(row, r);
        BoxWindow(col, c);
      }
    }
    if g[row][col] != guess && forall r, c :: 0 <= r < 9 && 0 <= c < 9 && Peers(row, col, r, c) ==> g[r][c] != guess {
      forall r, c | BoxStart(row) <= r < BoxStart(row) + 3 && BoxStart(col) <= c < BoxStart(col) + 3
        ensures g[r][c] != guess
      {
        BoxWindow(row, r);
        BoxWindow(col, c);
      }
    }
  }

  // ---------------------------------------------------------------------
  // The search

  /** The board with cell (row, col) set to v. */
  function Fill(g: Grid, row: int, col: int, v: int): (h: Grid)
    requires IsGrid(g) && InBounds(row, col)
    ensures IsGrid(h) && h[row][col] == v
    ensures forall r, c :: 0 <= r < 9 && 0 <= c < 9 && (r != row || c != col) ==> h[r][c] == g[r][c]
  {
    g[row := g[row][col := v]]
  }

  /** The empty cells of a board; the search variant. */
  ghost function EmptyCells(g: Grid): set<(int, int)>
    requires IsGrid(g)
  {
    set r, c | 0 <= r < 9 && 0 <= c < 9 && g[r][c] == 0 :: (r, c)
  }

  /** Writing a non-zero value into an empty cell removes exactly that cell
      from the empty cells. */
  lemma FillShrinks(g: Grid, row: int, col: int, v: int)
    requires IsGrid(g) && InBounds(row, col) && g[row][col] == 0 && v != 0
    ensures EmptyCells(Fill(g, row, col, v)) == EmptyCells(g) - {(row, col)}
    ensures EmptyCells(Fill(g, row, col, v)) < EmptyCells(g)
  {
    var h := Fill(g, row, col, v);
    assert (row, col) in EmptyCells(g);
    assert EmptyCells(h) == EmptyCells(g) - {(row, col)} by {
      forall p | p in EmptyCells(h) ensures p in EmptyCells(g) - {(row, col)} {
        var (r, c) := p;
        assert h[r][c] == 0;
      }
      forall p | p in EmptyCells(g) - {(row, col)} ensures p in EmptyCells(h) {
        var (r, c) := p;
        assert h[r][c] == g[r][c];
      }
    }
  }

  /** The result of the search: None when it fails, or the board it
      completes. The first empty cell in row-major order gets the first digit
      1..9 that is a valid choice and from which the rest of the board can
      be completed. */
  function Solve(g: Grid): Option<Grid>
    requires IsGrid(g)
    decreases EmptyCells(g), 10
  {
    match FirstEmpty(g)
    case None => Some(g)
    case Some((row, col)) => TryDigits(g, row, col, 1)
  }

  /** Tries the digits digit..9, in order, in the empty cell (row, col). */
  function TryDigits(g: Grid, row: int, col: int, digit: int): Option<Grid>
    requires IsGrid(g) && InBounds(row, col) && g[row][col] == 0 && 1 <= digit <= 10
    decreases EmptyCells(g), 10 - digit
  {
    if digit == 10 then None
    else if ValidChoice(g, row, col, digit) then
      FillShrinks(g, row, col, digit);
      match Solve(Fill(g, row, col, digit))
      case Some(s) => Some(s)
      case None => TryDigits(g, row, col, digit + 1)
    else TryDigits(g, row, col, digit + 1)
  }

  /** One step of TryDigits on a digit 1..9. */
  lemma TryDigitsUnfold(g: Grid, row: int, col: int, digit: int)
    requires IsGrid(g) && InBounds(row, col) && g[row][col] == 0 && 1 <= digit <= 9
    ensures TryDigits(g, row, col, digit) ==
      if ValidChoice(g, row, col, digit) && Solve(Fill(g, row, col, digit)).Some? then Solve(Fill(g, row, col, digit))
      else TryDigits(g, row, col, digit + 1)
  {
  }

  /** What a successful search promises about the board s it returns for g:
      s is full, keeps every clue of g, writes only digits 1..9, and each
      cell it filled differs from all of that cell's peers. */
  ghost predicate Completes(g: Grid, s: Grid)
    requires IsGrid(g)
  {
    && IsGrid(s)
    && NoEmpty(s)
    && KeepsClues(g, s)
    && (forall r, c :: 0 <= r < 9 && 0 <= c < 9 && g[r][c] == 0 ==> 1 <= s[r][c] <= 9)
    && (forall r, c :: 0 <= r < 9 && 0 <= c < 9 && g[r][c] == 0 ==> DiffersFromPeers(s, r, c))
  }

  /** One step of the search keeps Completes: a completion of the board with
      a valid digit written into (row, col) is a completion of the board. */
  lemma CompletesStep(g: Grid, row: int, col: int, digit: int, s: Grid)
    requires IsGrid(g) && InBounds(row, col) && g[row][col] == 0 && 1 <= digit <= 9
    requires ValidChoice(g, row, col, digit)
    requires Completes(Fill(g, row, col, digit), s)
    ensures Completes(g, s)
  {
    var h := Fill(g, row, col, digit);
    ValidChoiceIff(g, row, col, digit);
    assert s[row][col] == digit;
    forall r, c | 0 <= r < 9 && 0 <= c < 9 && g[r][c] == 0
      ensures 1 <= s[r][c] <= 9 && DiffersFromPeers(s, r, c)
    {
      if r == row && c == col {
        forall r2, c2 | 0 <= r2 < 9 && 0 <= c2 < 9 && Peers(r, c, r2, c2)
          ensures s[r2][c2] != s[r][c]
        {
          if h[r2][c2] == 0 {
            assert DiffersFromPeers(s, r2, c2);
            assert Peers(r2, c2, r, c);
          } else {
            assert s[r2][c2] == g[r2][c2];
          }
        }
      } else {
        assert h[r][c] == 0;
      }
    }
  }

  /** Soundness of the search: whatever it returns completes the board. */
  lemma {:induction false} SolveSound(g: Grid)
    requires IsGrid(g)
    ensures Solve(g).Some? ==> Completes(g, Solve(g).value)
    decreases EmptyCells(g), 10
  {
    match FirstEmpty(g)
    case None =>
    case Some((row, col)) => TryDigitsSound(g, row, col, 1);
  }

  lemma {:induction false} TryDigitsSound(g: Grid, row: int, col: int, digit: int)
    requires IsGrid(g) && InBounds(row, col) && g[row][col] == 0 && 1 <= digit <= 10
    ensures TryDigits(g, row, col, digit).Some? ==> Completes(g, TryDigits(g, row, col, digit).value)
    decreases EmptyCells(g), 10 - digit
  {
    if digit < 10 {
      if ValidChoice(g, row, col, digit) {
        var h := Fill(g, row, col, digit);
        FillShrinks(g, row, col, digit);
        SolveSound(h);
        if Solve(h).Some? {
          CompletesStep(g, row, col, digit, Solve(h).value);
        } else {
          TryDigitsSound(g, row, col, digit + 1);
        }
      } else {
        TryDigitsSound(g, row, col, digit + 1);
      }
    }
  }

  /** On a well-formed puzzle a successful search returns a solved Sudoku
      that keeps every clue. */
  lemma SolvedPuzzleIsSolution(g: Grid)
    requires WellFormedPuzzle(g)
    ensures Solve(g).Some? ==> IsSolution(Solve(g).value) && KeepsClues(g, Solve(g).value)
  {
    SolveSound(g);
    if Solve(g).Some? {
      var s := Solve(g).value;
      forall r, c | 0 <= r < 9 && 0 <= c < 9
        ensures 1 <= s[r][c] <= 9 && DiffersFromPeers(s, r, c)
      {
        if g[r][c] != 0 {
          forall r2, c2 | 0 <= r2 < 9 && 0 <= c2 < 9 && Peers(r, c, r2, c2)
            ensures s[r2][c2] != s[r][c]
          {
            if g[r2][c2] == 0 {
              assert DiffersFromPeers(s, r2, c2);
              assert Peers(r2, c2, r, c);
            }
          }
        }
      }
    }
  }

  /** Completeness of the search: if some solved Sudoku keeps the clues of
      g, the search does not fail. */
  lemma {:induction false} SolveComplete(g: Grid, s: Grid)
    requires IsGrid(g) && IsSolution(s) && KeepsClues(g, s)
    ensures Solve(g).Some?
    decreases EmptyCells(g), 10
  {
    match FirstEmpty(g)
    case None =>
    case Some((row, col)) => TryDigitsComplete(g, row, col, 1, s);
  }

  lemma {:induction false} TryDigitsComplete(g: Grid, row: int, col: int, digit: int, s: Grid)
    requires IsGrid(g) && InBounds(row, col) && g[row][col] == 0 && 1 <= digit <= 10
    requires IsSolution(s) && KeepsClues(g, s) && digit <= s[row][col]
    ensures TryDigits(g, row, col, digit).Some?
    decreases EmptyCells(g), 10 - digit
  {
    TryDigitsUnfold(g, row, col, digit);
    if digit == s[row][col] {
      var h := Fill(g, row, col, digit);
      assert DiffersFromPeers(s, row, col);
      ValidChoiceIff(g, row, col, digit);
      FillShrinks(g, row, col, digit);
      assert KeepsClues(h, s);
      SolveComplete(h, s);
    } else {
      TryDigitsComplete(g, row, col, digit + 1, s);
    }
  }

  // ---------------------------------------------------------------------
  // The board as a two-dimensional array, updated in place

  /** Two boards that agree on every cell are equal. */
  lemma GridsEqual(a: Grid, b: Grid)
    requires IsGrid(a) && IsGrid(b)
    requires forall r, c :: 0 <= r < 9 && 0 <= c < 9 ==> a[r][c] == b[r][c]
    ensures a == b
  {
    forall r | 0 <= r < 9 ensures a[r] == b[r] {
      assert forall c :: 0 <= c < 9 ==> a[r][c] == b[r][c];
    }
  }

  /** The board value held in the array. */
  function Contents(board: array2<int>): (g: Grid)
    reads board
    requires board.Length0 == 9 && board.Length1 == 9
    ensures IsGrid(g)
    ensures forall r, c :: 0 <= r < 9 && 0 <= c < 9 ==> g[r][c] == board[r, c]
  {
    seq(9, r reads board requires 0 <= r < 9 =>
      seq(9, c reads board requires 0 <= c < 9 => board[r, c]))
  }

  /** Scans the board row by row for a cell holding 0. */
  method FindEmptyCell(board: array2<int>) returns (cell: Option<(int, int)>)
    requires board.Length0 == 9 && board.Length1 == 9
    ensures cell == FirstEmpty(Contents(board))
  {
    ghost var g := Contents(board);
    for row := 0 to 9
      invariant FirstEmptyFrom(g, row, 0) == FirstEmpty(g)
    {
      for col := 0 to 9
        invariant FirstEmptyFrom(g, row, col) == FirstEmpty(g)
      {
        if board[row, col] == 0 {
          return Some((row, col));
        }
      }
    }
    return None;
  }

  /** Checks the row, then the column, then the 3x3 box of (row, col) for
      the digit `guess`. */
  method IsValidChoice(board: array2<int>, row: int, col: int, guess: int) returns (ok: bool)
    requires board.Length0 == 9 && board.Length1 == 9 && InBounds(row, col)
    ensures ok == ValidChoice(Contents(board), row, col, guess)
  {
    for c := 0 to 9
      invariant forall c2 :: 0 <= c2 < c ==> board[row, c2] != guess
    {
      if board[row, c] == guess {
        return false;
      }
    }
    for r := 0 to 9
      invariant forall r2 :: 0 <= r2 < r ==> board[r2, col] != guess
    {
      if board[r, col] == guess {
        return false;
      }
    }
    var startRow, startCol := BoxStart(row), BoxStart(col);
    for r := startRow to startRow + 3
      invariant forall r2, c2 :: startRow <= r2 < r && startCol <= c2 < startCol + 3 ==> board[r2, c2] != guess
    {
      for c := startCol to startCol + 3
        invariant forall r2, c2 :: startRow <= r2 < r && startCol <= c2 < startCol + 3 ==> board[r2, c2] != guess
        invariant forall c2 :: startCol <= c2 < c ==> board[r, c2] != guess
      {
        if board[r, c] == guess {
          return false;
        }
      }
    }
    return true;
  }

  /** Fills the empty cells of the board in place. On success the board
      holds the completion that Solve describes; on failure every tentative
      write has been undone. */
  method SolveSudoku(board: array2<int>) returns (solved: bool)
    requires board.Length0 == 9 && board.Length1 == 9
    modifies board
    ensures solved == Solve(old(Contents(board))).Some?
    ensures solved ==> Contents(board) == Solve(old(Contents(board))).value
    ensures solved ==> Completes(old(Contents(board)), Contents(board))
    ensures !solved ==> Contents(board) == old(Contents(board))
    decreases EmptyCells(Contents(board))
  {
    ghost var g := Contents(board);
    var next := FindEmptyCell(board);
    if next.None? {
      SolveSound(g);
      return true;
    }
    var row, col := next.value.0, next.value.1;
    for digit := 1 to 10
      invariant forall r, c :: 0 <= r < 9 && 0 <= c < 9 ==> board[r, c] == g[r][c]
      invariant TryDigits(g, row, col, digit) == Solve(g)
    {
      GridsEqual(Contents(board), g);
      TryDigitsUnfold(g, row, col, digit);
      var ok := IsValidChoice(board, row, col, digit);
      if ok {
        board[row, col] := digit;
        ghost var h := Fill(g, row, col, digit);
        GridsEqual(Contents(board), h);
        FillShrinks(g, row, col, digit);
        solved := SolveSudoku(board);
        if solved {
          SolveSound(g);
          return;
        }
        board[row, col] := 0;
      }
    }
    GridsEqual(Contents(board), g);
    return false;
  }
}
