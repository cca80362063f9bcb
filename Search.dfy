/**
 * The grid seen as a value: the row-major cell buffer and its dimensions, the eight search
 * directions with the room check Sources/Grid.c makes for each, what a match is, how a match
 * marks cells, and the hidden word made of the unmarked letters.
 */
module Search {
  import opened Configuration
  import opened Wrappers
  import opened Characters

  /** TGridCell: a letter and whether it is part of a found word. */
  datatype Cell = Cell(letter: char, found: bool)

  /** The Grid_Cells buffer with Grid_Rows_Count and Grid_Columns_Count. */
  datatype Board = Board(cells: seq<Cell>, rows: int, columns: int)

  predicate InGrid(rows: int, columns: int, row: int, column: int)
  {
    0 <= row < rows && 0 <= column < columns
  }

  lemma ProductBound(a: int, b: int)
    requires 0 <= a <= GridMaximumSize && 0 <= b <= GridMaximumSize
    ensures 0 <= a * b <= GridMaximumSize * GridMaximumSize
  {
    assert a * b <= GridMaximumSize * b;
  }

  /** Row-major addressing stays inside the loaded part of the buffer. */
  lemma CellIndexInRange(rows: int, columns: int, row: int, column: int)
    requires 0 <= rows <= GridMaximumSize && 0 <= columns <= GridMaximumSize
    requires InGrid(rows, columns, row, column)
    ensures 0 <= row * columns + column < rows * columns <= GridMaximumSize * GridMaximumSize
  {
    ProductBound(rows, columns);
    assert row * columns <= (rows - 1) * columns;
    assert (rows - 1) * columns + columns == rows * columns;
  }

  /** The buffer has room for the largest grid, and every loaded cell holds an uppercase letter. */
  ghost predicate WellFormed(b: Board)
  {
    && |b.cells| == GridMaximumSize * GridMaximumSize
    && 0 <= b.rows <= GridMaximumSize
    && 0 <= b.columns <= GridMaximumSize
    && forall k :: 0 <= k < b.rows * b.columns ==> IsUpperLetter(b.cells[k].letter)
  }

  /** The letter at a coordinate, 0 outside the grid. */
  ghost function Letter(b: Board, row: int, column: int): (c: char)
    requires WellFormed(b)
    ensures InGrid(b.rows, b.columns, row, column) ==> IsUpperLetter(c)
    ensures !InGrid(b.rows, b.columns, row, column) ==> c == '\0'
  {
    if InGrid(b.rows, b.columns, row, column) then
      CellIndexInRange(b.rows, b.columns, row, column);
      b.cells[row * b.columns + column].letter
    else
      '\0'
  }

  function Letters(cells: seq<Cell>): string
  {
    seq(|cells|, k requires 0 <= k < |cells| => cells[k].letter)
  }

  datatype Direction = North | NorthEast | East | SouthEast | South | SouthWest | West | NorthWest

  /** Position of a direction in the order the directions are tried. */
  function Rank(d: Direction): nat
  {
    match d
    case North => 0
    case NorthEast => 1
    case East => 2
    case SouthEast => 3
    case South => 4
    case SouthWest => 5
    case West => 6
    case NorthWest => 7
  }

  /** Row of the i-th letter of a word laid from row in direction d. */
  function PathRow(d: Direction, row: int, i: int): int
  {
    match d
    case North | NorthEast | NorthWest => row - i
    case East | West => row
    case SouthEast | South | SouthWest => row + i
  }

  /** Column of the i-th letter of a word laid from column in direction d. */
  function PathColumn(d: Direction, column: int, i: int): int
  {
    match d
    case NorthEast | East | SouthEast => column + i
    case North | South => column
    case SouthWest | West | NorthWest => column - i
  }

  /**
   * The room check made before a direction is tried, as Sources/Grid.c writes it. It is
   * exact: from a cell of the grid, a non-empty word fits exactly when its last letter falls
   * inside the grid (no off-by-one either way).
   */
  function Fits(rows: int, columns: int, d: Direction, row: int, column: int, length: int): (r: bool)
    ensures InGrid(rows, columns, row, column) && length >= 1 ==>
      (r <==> InGrid(rows, columns, PathRow(d, row, length - 1), PathColumn(d, column, length - 1)))
  {
    var fits := match d
      case North => (row + 1) - length >= 0
      case NorthEast => row + 1 >= length && columns - column >= length
      case East => column + length <= columns
      case SouthEast => rows - row >= length && columns - column >= length
      case South => rows - row >= length
      case SouthWest => rows - row >= length && column + 1 >= length
      case West => column + 1 >= length
      case NorthWest => row + 1 >= length && column + 1 >= length;
    fits
  }

  /** From a cell of the grid, a direction that fits keeps every letter of the word inside the grid. */
  lemma FitsKeepsPathInGrid(rows: int, columns: int, d: Direction, row: int, column: int, length: int, i: int)
    requires InGrid(rows, columns, row, column)
    requires Fits(rows, columns, d, row, column, length)
    requires 0 <= i < length
    ensures InGrid(rows, columns, PathRow(d, row, i), PathColumn(d, column, i))
  {
  }

  /**
   * From a cell of the grid, the room check passes exactly when every letter of the word
   * falls inside the grid: when it fails, the last letter is outside.
   */
  lemma FitsIsExact(rows: int, columns: int, d: Direction, row: int, column: int, length: int)
    requires InGrid(rows, columns, row, column)
    ensures Fits(rows, columns, d, row, column, length)
        <==> forall i :: 0 <= i < length ==> InGrid(rows, columns, PathRow(d, row, i), PathColumn(d, column, i))
  {
    if !Fits(rows, columns, d, row, column, length) {
      assert !InGrid(rows, columns, PathRow(d, row, length - 1), PathColumn(d, column, length - 1));
    }
  }

  /** The letters read from row, column in direction d, n of them. */
  ghost function PathLetters(b: Board, d: Direction, row: int, column: int, n: nat): string
    requires WellFormed(b)
  {
    seq(n, i requires 0 <= i < n => Letter(b, PathRow(d, row, i), PathColumn(d, column, i)))
  }

  /** The word is spelled from row, column in direction d and the room check lets d be tried. */
  ghost predicate Matches(b: Board, d: Direction, row: int, column: int, word: string)
    requires WellFormed(b)
  {
    Fits(b.rows, b.columns, d, row, column, |word|) && PathLetters(b, d, row, column, |word|) == word
  }

  /** The direction whose cells a match marks: the first one, in the order tried, that matches. */
  ghost function FirstMatch(b: Board, row: int, column: int, word: string): (m: Option<Direction>)
    requires WellFormed(b)
    ensures m.None? <==> forall d :: !Matches(b, d, row, column, word)
    ensures m.Some? ==> Matches(b, m.value, row, column, word)
    ensures m.Some? ==> forall d :: Rank(d) < Rank(m.value) ==> !Matches(b, d, row, column, word)
  {
    if Matches(b, North, row, column, word) then Some(North)
    else if Matches(b, NorthEast, row, column, word) then Some(NorthEast)
    else if Matches(b, East, row, column, word) then Some(East)
    else if Matches(b, SouthEast, row, column, word) then Some(SouthEast)
    else if Matches(b, South, row, column, word) then Some(South)
    else if Matches(b, SouthWest, row, column, word) then Some(SouthWest)
    else if Matches(b, West, row, column, word) then Some(West)
    else if Matches(b, NorthWest, row, column, word) then Some(NorthWest)
    else None
  }

  /** Every letter of a matched non-empty C string lies inside the grid, whatever the start. */
  lemma {:induction false} MatchedPathInGrid(b: Board, d: Direction, row: int, column: int, word: string, i: int)
    requires WellFormed(b) && NoNul(word)
    requires Matches(b, d, row, column, word)
    requires 0 <= i < |word|
    ensures InGrid(b.rows, b.columns, PathRow(d, row, i), PathColumn(d, column, i))
  {
    assert PathLetters(b, d, row, column, |word|)[i] == word[i];
  }

  /** A word may only match from a start inside the grid, unless it is empty. */
  lemma MatchStartsInGrid(b: Board, d: Direction, row: int, column: int, word: string)
    requires WellFormed(b) && NoNul(word) && word != []
    requires Matches(b, d, row, column, word)
    ensures InGrid(b.rows, b.columns, row, column)
  {
    MatchedPathInGrid(b, d, row, column, word, 0);
  }

  /** GridSetLetterFound on a value: flags the cell when the coordinate is inside the grid. */
  ghost function SetFound(b: Board, row: int, column: int): (r: Board)
    requires WellFormed(b)
    ensures WellFormed(r) && r.rows == b.rows && r.columns == b.columns
    ensures |r.cells| == |b.cells|
    ensures forall k :: 0 <= k < |b.cells| ==>
      && r.cells[k].letter == b.cells[k].letter
      && r.cells[k].found == (b.cells[k].found || (InGrid(b.rows, b.columns, row, column) && k == row * b.columns + column))
  {
    if InGrid(b.rows, b.columns, row, column) then
      CellIndexInRange(b.rows, b.columns, row, column);
      var k := row * b.columns + column;
      b.(cells := b.cells[k := b.cells[k].(found := true)])
    else
      b
  }

  /** Cell k is the i-th cell of the path from row, column in direction d, inside the grid. */
  ghost predicate PathCellAt(b: Board, d: Direction, row: int, column: int, i: int, k: int)
  {
    && InGrid(b.rows, b.columns, PathRow(d, row, i), PathColumn(d, column, i))
    && k == PathRow(d, row, i) * b.columns + PathColumn(d, column, i)
  }

  /** Cell k is one of the first n cells of the path. */
  ghost predicate OnPath(b: Board, d: Direction, row: int, column: int, n: nat, k: int)
  {
    exists i :: 0 <= i < n && PathCellAt(b, d, row, column, i, k)
  }

  /**
   * The board once the first n path cells have been flagged one after the other. Marking sets
   * exactly the flags of the path cells inside the grid and changes nothing else.
   */
  ghost function MarkPath(b: Board, d: Direction, row: int, column: int, n: nat): (r: Board)
    requires WellFormed(b)
    ensures WellFormed(r) && r.rows == b.rows && r.columns == b.columns
    ensures forall k :: 0 <= k < |b.cells| ==>
      && r.cells[k].letter == b.cells[k].letter
      && (r.cells[k].found <==> b.cells[k].found || OnPath(b, d, row, column, n, k))
  {
    if n == 0 then b
    else
      var before := MarkPath(b, d, row, column, n - 1);
      var r := SetFound(before, PathRow(d, row, n - 1), PathColumn(d, column, n - 1));
      assert forall k :: 0 <= k < |b.cells| ==>
        (OnPath(b, d, row, column, n, k) <==>
           OnPath(b, d, row, column, n - 1, k) || PathCellAt(b, d, row, column, n - 1, k));
      r
  }

  /** The unmarked letters among the first n cells, in buffer order. */
  function Hidden(cells: seq<Cell>, n: nat): (h: string)
    requires n <= |cells|
  {
    if n == 0 then []
    else Hidden(cells, n - 1) + (if cells[n - 1].found then [] else [cells[n - 1].letter])
  }

  /** The hidden word: the letters of the unmarked cells in row-major order. */
  ghost function HiddenWord(b: Board): string
    requires WellFormed(b)
  {
    ProductBound(b.rows, b.columns);
    Hidden(b.cells, b.rows * b.columns)
  }

  /** The cells among the first n that no found word covers. */
  ghost function Unmarked(cells: seq<Cell>, n: nat): set<nat>
  {
    set k: nat | k < n && k < |cells| && !cells[k].found
  }

  /** The hidden word of a prefix of the buffer begins the hidden word of a longer prefix. */
  lemma {:induction false} HiddenPrefix(cells: seq<Cell>, n: nat, m: nat)
    requires n <= m <= |cells|
    ensures |Hidden(cells, n)| <= |Hidden(cells, m)|
    ensures Hidden(cells, m)[..|Hidden(cells, n)|] == Hidden(cells, n)
    decreases m
  {
    if n < m {
      HiddenPrefix(cells, n, m - 1);
    }
  }

  /** The hidden word has one letter per unmarked cell. */
  lemma {:induction false} HiddenLength(cells: seq<Cell>, n: nat)
    requires n <= |cells|
    ensures |Hidden(cells, n)| == |Unmarked(cells, n)|
  {
    if n > 0 {
      HiddenLength(cells, n - 1);
      if cells[n - 1].found {
        assert Unmarked(cells, n) == Unmarked(cells, n - 1);
      } else {
        assert Unmarked(cells, n) == Unmarked(cells, n - 1) + {n - 1};
      }
    } else {
      assert Unmarked(cells, n) == {};
    }
  }

  /** With no cell marked, the hidden word is every letter, row-major. */
  lemma {:induction false} HiddenOfUnmarked(cells: seq<Cell>, n: nat)
    requires n <= |cells|
    requires forall k :: 0 <= k < n ==> !cells[k].found
    ensures Hidden(cells, n) == Letters(cells[..n])
  {
    if n > 0 {
      HiddenOfUnmarked(cells, n - 1);
      assert cells[..n] == cells[..n - 1] + [cells[n - 1]];
    }
  }
}
