/**
 * The grid store of Sources/Grid.c: the Grid_Cells buffer and the Grid_Rows_Count and
 * Grid_Columns_Count counters become the fields of one Grid object.
 */
module GridStore {
  import opened Configuration
  import opened Wrappers
  import opened Characters
  import opened Search
  import opened Tokens
  import opened WordLists

  class Grid {
    const cells: array<Cell>
    var rows: int
    var columns: int

    /** The grid as a value. */
    ghost function View(): Board
      reads this, cells
    {
      Board(cells[..], rows, columns)
    }

    ghost predicate Valid()
      reads this, cells
    {
      WellFormed(View())
    }

    /** The grid as the program's static storage holds it before loading: no rows, no columns, zeroed cells. */
    constructor ()
      ensures Valid() && rows == 0 && columns == 0 && fresh(cells)
      ensures forall k :: 0 <= k < cells.Length ==> cells[k] == Cell('\0', false)
    {
      cells := new Cell[GridMaximumSize * GridMaximumSize](_ => Cell('\0', false));
      rows := 0;
      columns := 0;
    }

    /** GridGetLetter: the letter at a coordinate, an uppercase letter inside the grid and 0 outside. */
    function GetLetter(row: int, column: int): (c: char)
      reads this, cells
      requires Valid()
      ensures c == Letter(View(), row, column)
      ensures InGrid(rows, columns, row, column) ==> IsUpperLetter(c)
      ensures !InGrid(rows, columns, row, column) ==> c == '\0'
    {
      if row < 0 || row >= rows || column < 0 || column >= columns then
        '\0'
      else
        CellIndexInRange(rows, columns, row, column);
        cells[row * columns + column].letter
    }

    /** GridSetLetterFound: flags the cell at a coordinate as part of a word; nothing happens outside the grid. */
    method SetLetterFound(row: int, column: int)
      requires Valid()
      modifies cells
      ensures Valid()
      ensures View() == SetFound(old(View()), row, column)
    {
      if row < 0 || row >= rows || column < 0 || column >= columns {
        return;
      }
      CellIndexInRange(rows, columns, row, column);
      var k := row * columns + column;
      cells[k] := Cell(cells[k].letter, true);
    }

    /**
     * One direction of GridMatchWordWithPosition: when the word fits, read its length of letters
     * into a temporary string, compare, and on a match flag every cell of the path.
     */
    method TryDirection(word: string, row: int, column: int, d: Direction) returns (matched: bool)
      requires Valid() && |word| < WordMaximumStringSize
      modifies cells
      ensures Valid()
      ensures matched == Matches(old(View()), d, row, column, word)
      ensures View() == if matched then MarkPath(old(View()), d, row, column, |word|) else old(View())
    {
      var length := |word|;
      if !Fits(rows, columns, d, row, column, length) {
        return false;
      }
      var temporary := ReadPath(d, row, column, length);
      // strncmp(word, temporary, length) == 0
      if temporary[..length] != word {
        return false;
      }
      FlagPath(d, row, column, length);
      return true;
    }

    /** Copies the length letters along a direction into a fresh string buffer, then a 0. */
    method ReadPath(d: Direction, row: int, column: int, length: nat) returns (temporary: array<char>)
      requires Valid() && length < WordMaximumStringSize
      ensures fresh(temporary) && temporary.Length == WordMaximumStringSize
      ensures temporary[..length] == PathLetters(View(), d, row, column, length) && temporary[length] == '\0'
    {
      temporary := new char[WordMaximumStringSize];
      for i := 0 to length
        invariant forall k :: 0 <= k < i ==> temporary[k] == Letter(View(), PathRow(d, row, k), PathColumn(d, column, k))
      {
        temporary[i] := GetLetter(PathRow(d, row, i), PathColumn(d, column, i));
      }
      temporary[length] := '\0';
    }

    /** Flags the first length cells along a direction as found. */
    method FlagPath(d: Direction, row: int, column: int, length: nat)
      requires Valid()
      modifies cells
      ensures Valid()
      ensures View() == MarkPath(old(View()), d, row, column, length)
    {
      for i := 0 to length
        invariant Valid()
        invariant View() == MarkPath(old(View()), d, row, column, i)
      {
        SetLetterFound(PathRow(d, row, i), PathColumn(d, column, i));
      }
    }

    /**
     * GridMatchWordWithPosition: tries N, NE, E, SE, S, SW, W and NW in that order; the first
     * direction that fits and spells the word has its cells flagged and 0 is returned. When
     * none does, -1 is returned and the grid is left as it was. The word is the content of a
     * C string no longer than the temporary buffer; for such a word strncmp over its length
     * is sequence equality.
     */
    method MatchWordWithPosition(word: string, row: int, column: int) returns (r: int)
      requires Valid() && |word| < WordMaximumStringSize && NoNul(word)
      modifies cells
      ensures Valid()
      ensures var m := FirstMatch(old(View()), row, column, word);
        if m.Some? then r == 0 && View() == MarkPath(old(View()), m.value, row, column, |word|)
        else r == -1 && View() == old(View())
    {
      var matched := TryDirection(word, row, column, North);
      if matched { return 0; }
      matched := TryDirection(word, row, column, NorthEast);
      if matched { return 0; }
      matched := TryDirection(word, row, column, East);
      if matched { return 0; }
      matched := TryDirection(word, row, column, SouthEast);
      if matched { return 0; }
      matched := TryDirection(word, row, column, South);
      if matched { return 0; }
      matched := TryDirection(word, row, column, SouthWest);
      if matched { return 0; }
      matched := TryDirection(word, row, column, West);
      if matched { return 0; }
      matched := TryDirection(word, row, column, NorthWest);
      if matched { return 0; }
      return -1;
    }

    /**
     * GridGetHiddenWord: writes the letters of the unmarked cells, row-major, then a 0 into a
     * buffer of capacity bytes. Fails with -1, part of the letters written, when they and the
     * terminator do not fit.
     */
    method GetHiddenWord(output: array<char>, capacity: int) returns (r: int)
      requires Valid() && 1 <= capacity <= output.Length
      modifies output
      ensures var hidden := HiddenWord(View());
        && (r == 0 || r == -1)
        && (r == 0 <==> |hidden| <= capacity - 1)
        && (r == 0 ==> output[..|hidden| + 1] == hidden + ['\0'])
        && (r == -1 ==> output[..capacity - 1] == hidden[..capacity - 1])
        && (forall k :: Written(r, |hidden|, capacity) <= k < output.Length ==> output[k] == old(output[k]))
    {
      ProductBound(rows, columns);
      r := CollectHidden(cells, rows, columns, output, capacity);
    }

    /**
     * GridLoadFromFile over the tokens the file holds, from the grid of the program's start
     * (no rows, no columns): the grid rows, then the 26 lists emptied and filled with the
     * words. The n-th insertion's malloc succeeds when mallocSucceeds(n). Returns 0 and the
     * grid size and word count when the whole file is accepted, -1 at the first rejected token.
     */
    method LoadFromTokens(tokens: seq<string>, lists: array<WordList>, mallocSucceeds: nat -> bool)
        returns (r: int, rowsCount: int, columnsCount: int, wordsCount: int)
      requires Valid() && rows == 0 && columns == 0
      requires RowCount(tokens) <= GridMaximumSize
      requires forall k :: 0 <= k < RowCount(tokens) ==> tokens[k] != []
      requires forall k :: 0 <= k < |tokens| ==> NoNul(tokens[k])
      requires lists.Length == AlphabetLettersCount
      requires forall a, b :: 0 <= a < b < lists.Length ==> lists[a] != lists[b]
      modifies this, cells, lists[..]
      ensures Valid()
      ensures forall k :: 0 <= k < cells.Length ==> cells[k].found == old(cells[k].found)
      ensures forall k :: rows * columns <= k < cells.Length ==> cells[k] == old(cells[k])
      ensures r == 0 || r == -1
      ensures r == 0 <==> Load(tokens, mallocSucceeds).Success?
      ensures r == 0 ==> var loaded := Load(tokens, mallocSucceeds).value;
        && rowsCount == rows == |loaded.rows|
        && columnsCount == columns == loaded.columns
        && wordsCount == |loaded.words|
        && HoldsRows(cells[..], columns, loaded.rows)
        && ListsHold(lists, loaded.words)
    {
      var loaded, separator := LoadGrid(tokens);
      if !loaded {
        return -1, 0, 0, 0;
      }
      loaded, wordsCount := LoadWordLists(tokens, separator + 1, lists, mallocSucceeds);
      if !loaded {
        return -1, 0, 0, 0;
      }
      return 0, rows, columns, wordsCount;
    }

    /**
     * The grid loop of GridLoadFromFile: up to the separator, each row is validated and
     * uppercased, fixes or is checked against the column count, and is copied into the next
     * row of cells.
     */
    method LoadGrid(tokens: seq<string>) returns (loaded: bool, separator: nat)
      requires Valid() && rows == 0 && columns == 0
      requires RowCount(tokens) <= GridMaximumSize
      requires forall k :: 0 <= k < RowCount(tokens) ==> tokens[k] != []
      requires forall k :: 0 <= k < |tokens| ==> NoNul(tokens[k])
      modifies this, cells
      ensures Valid()
      ensures forall k :: 0 <= k < cells.Length ==> cells[k].found == old(cells[k].found)
      ensures forall k :: rows * columns <= k < cells.Length ==> cells[k] == old(cells[k])
      ensures loaded <==> LoadRows(tokens, 0, 0, []).Success?
      ensures loaded ==> var g := LoadRows(tokens, 0, 0, []).value;
        && separator == g.separator
        && rows == |g.rows| && columns == g.columns
        && HoldsRows(cells[..], columns, g.rows)
    {
      var n := RowCount(tokens);
      var i := 0;
      ghost var acc: seq<string> := [];
      while true
        invariant i <= n && i <= |tokens|
        invariant Valid() && rows == |acc| == i
        invariant columns == if i == 0 then 0 else GridColumns(tokens)
        invariant forall k :: 0 <= k < i ==> RowAccepted(tokens, tokens[k])
        invariant forall k :: 0 <= k < i ==> acc[k] == Upper(tokens[k])
        invariant HoldsRows(cells[..], columns, acc)
        invariant forall k :: 0 <= k < cells.Length ==> cells[k].found == old(cells[k].found)
        invariant forall k :: rows * columns <= k < cells.Length ==> cells[k] == old(cells[k])
        decreases |tokens| - i
      {
        if i == |tokens| {
          LoadRowsSpec(tokens, 0, 0, []);
          return false, 0;
        }
        var token := tokens[i];
        if token == Separator {
          assert i == n;
          assert acc == [] + UpperAll(tokens[0..n]);
          LoadRowsSpec(tokens, 0, 0, []);
          return true, i;
        }
        assert i < n;
        var accepted := StoreRow(token, acc);
        if !accepted {
          LoadRowsSpec(tokens, 0, 0, []);
          return false, 0;
        }
        assert RowAccepted(tokens, token);
        acc := acc + [Upper(token)];
        i := i + 1;
      }
    }

    /**
     * One pass of the grid loop of GridLoadFromFile over a row token: its length is checked,
     * it is validated and uppercased, it fixes the column count when it is the first row or
     * must match it otherwise, and it is copied into the next row of cells.
     */
    method StoreRow(token: string, ghost held: seq<string>) returns (accepted: bool)
      requires Valid() && |held| == rows < GridMaximumSize && HoldsRows(cells[..], columns, held)
      requires token != [] && NoNul(token) && (columns == 0 ==> rows == 0)
      modifies this, cells
      ensures Valid()
      ensures accepted <==> |token| <= GridMaximumSize && ValidString(token) && (old(columns) == 0 || |token| == old(columns))
      ensures accepted ==> && rows == old(rows) + 1 && columns == |token|
                           && HoldsRows(cells[..], columns, held + [Upper(token)])
      ensures !accepted ==> rows == old(rows) && columns == old(columns) && cells[..] == old(cells[..])
      ensures old(rows) * old(columns) <= rows * columns
      ensures forall k :: 0 <= k < cells.Length ==> cells[k].found == old(cells[k].found)
      ensures forall k :: rows * columns <= k < cells.Length ==> cells[k] == old(cells[k])
    {
      if |token| > GridMaximumSize {
        return false;
      }
      var valid, buffer := ReadToken(token);
      if !valid {
        return false;
      }
      if columns == 0 {
        columns := buffer.Length;
      } else if buffer.Length != columns {
        return false;
      }
      CopyRow(buffer, held);
      RemainingRows(rows, columns);
      return true;
    }

    /** Fills the next grid row with the letters of a validated row and counts it. */
    method CopyRow(row: array<char>, ghost held: seq<string>)
      requires Valid() && rows < GridMaximumSize && row.Length == columns
      requires forall k :: 0 <= k < row.Length ==> IsUpperLetter(row[k])
      requires |held| == rows && HoldsRows(cells[..], columns, held)
      modifies this, cells
      ensures Valid() && rows == old(rows) + 1 && columns == old(columns)
      ensures HoldsRows(cells[..], columns, held + [row[..]])
      ensures forall k :: 0 <= k < cells.Length ==> cells[k].found == old(cells[k].found)
      ensures forall k :: rows * columns <= k < cells.Length ==> cells[k] == old(cells[k])
    {
      NextRowStart(rows, GridMaximumSize, columns);
      var p := rows * columns;
      assert (rows + 1) * columns == p + columns;
      ghost var before := cells[..];
      WriteLetters(p, row);
      ghost var after := cells[..];
      forall k | 0 <= k < p + columns
        ensures IsUpperLetter(after[k].letter)
      {
        if k < p {
          assert after[k] == before[k];
        } else {
          assert after[k].letter == row[k - p];
        }
      }
      HoldsRowsExtend(before, after, columns, held, row[..]);
      rows := rows + 1;
    }

    /** The copy loop of a grid row: letters written from cell p on, the found flags kept. */
    method WriteLetters(p: int, row: array<char>)
      requires 0 <= p && p + row.Length <= cells.Length
      modifies cells
      ensures forall k :: 0 <= k < p ==> cells[k] == old(cells[k])
      ensures forall k :: p <= k < p + row.Length ==> cells[k].letter == row[k - p]
      ensures forall k :: 0 <= k < cells.Length ==> cells[k].found == old(cells[k].found)
      ensures forall k :: p + row.Length <= k < cells.Length ==> cells[k] == old(cells[k])
    {
      for c := 0 to row.Length
        invariant forall k :: 0 <= k < p ==> cells[k] == old(cells[k])
        invariant forall k :: p + c <= k < cells.Length ==> cells[k] == old(cells[k])
        invariant forall k :: p <= k < p + c ==> cells[k].letter == row[k - p]
        invariant forall k :: 0 <= k < cells.Length ==> cells[k].found == old(cells[k].found)
      {
        cells[p + c] := Cell(row[c], cells[p + c].found);
      }
    }
  }

  /**
   * A token as the loader handles it: its characters in a fresh buffer (String_Temporary),
   * validated and uppercased in place by GridValidateString.
   */
  method ReadToken(token: string) returns (valid: bool, buffer: array<char>)
    requires NoNul(token)
    ensures fresh(buffer) && buffer.Length == |token|
    ensures valid <==> ValidString(token)
    ensures valid ==> buffer[..] == Upper(token) && forall k :: 0 <= k < buffer.Length ==> IsUpperLetter(buffer[k])
  {
    FirstInvalidIsLength(token);
    buffer := new char[|token|](k requires 0 <= k < |token| => token[k]);
    assert buffer[..] == token;
    var invalid := ValidateString(buffer);
    valid := invalid == 0;
    if valid {
      ValidatedIsUpper(token, buffer[..]);
      UpperOfValid(token);
      assert forall k :: 0 <= k < buffer.Length ==> buffer[k] == Upper(token)[k];
    }
  }

  /** List b holds, from its head, the words of list b in reverse order of insertion. */
  ghost predicate ListsHold(lists: array<WordList>, words: seq<string>)
    reads lists, lists[..]
  {
    && lists.Length == AlphabetLettersCount
    && forall b :: 0 <= b < AlphabetLettersCount ==>
         lists[b].Valid() && lists[b].Contents() == Reversed(BucketOf(words, b))
  }

  /** Each loaded list read from its head: its k-th word is the k-th last of its words in file order. */
  lemma ListHoldsInReverse(lists: array<WordList>, words: seq<string>, b: int, k: nat)
    requires ListsHold(lists, words) && 0 <= b < AlphabetLettersCount
    requires k < |BucketOf(words, b)|
    ensures k < |lists[b].Contents()|
    ensures lists[b].Contents()[k] == BucketOf(words, b)[|BucketOf(words, b)| - 1 - k]
  {
    ReversedAt(BucketOf(words, b), k);
  }

  /**
   * The word loop of GridLoadFromFile, after the 26 lists are emptied: each word from token
   * start on is validated, uppercased and inserted at the head of the list of its first letter.
   */
  method LoadWordLists(tokens: seq<string>, start: nat, lists: array<WordList>, mallocSucceeds: nat -> bool)
      returns (loaded: bool, wordsCount: int)
    requires start <= |tokens| && forall k :: 0 <= k < |tokens| ==> NoNul(tokens[k])
    requires lists.Length == AlphabetLettersCount
    requires forall a, b :: 0 <= a < b < lists.Length ==> lists[a] != lists[b]
    modifies lists[..]
    ensures loaded <==> LoadWords(tokens, start, [], mallocSucceeds).Success?
    ensures loaded ==> var words := LoadWords(tokens, start, [], mallocSucceeds).value;
      && wordsCount == |words|
      && ListsHold(lists, words)
  {
    InitializeLists(lists);
    var j := start;
    ghost var words: seq<string> := [];
    wordsCount := 0;
    while j < |tokens|
      invariant start <= j <= |tokens|
      invariant wordsCount == |words|
      invariant LoadWords(tokens, start, [], mallocSucceeds) == LoadWords(tokens, j, words, mallocSucceeds)
      invariant ListsHold(lists, words)
      decreases |tokens| - j
    {
      var token := tokens[j];
      var loadedWord := LoadWord(token, lists, mallocSucceeds(wordsCount), words);
      if !loadedWord {
        LoadWordsStops(tokens, j, words, mallocSucceeds);
        return false, 0;
      }
      LoadWordsContinues(tokens, j, words, mallocSucceeds);
      words := words + [Upper(token)];
      wordsCount := wordsCount + 1;
      j := j + 1;
    }
    return true, wordsCount;
  }

  /**
   * One pass of the word loop: the token must be non-empty, shorter than the word buffer and
   * valid; it is then uppercased and inserted into the list of its first letter.
   */
  method LoadWord(token: string, lists: array<WordList>, allocationSucceeds: bool, ghost words: seq<string>)
      returns (loaded: bool)
    requires NoNul(token)
    requires forall a, b :: 0 <= a < b < lists.Length ==> lists[a] != lists[b]
    requires ListsHold(lists, words)
    modifies lists[..]
    ensures loaded <==> WordAccepted(token) && allocationSucceeds
    ensures ListsHold(lists, if loaded then words + [Upper(token)] else words)
  {
    if |token| == 0 || |token| >= WordMaximumStringSize {
      return false;
    }
    var valid, buffer := ReadToken(token);
    if !valid {
      return false;
    }
    var inserted := InsertWord(lists, buffer, allocationSucceeds, words);
    return inserted == 0;
  }

  /** The loop of GridLoadFromFile that runs WordListInitialize on each of the 26 lists. */
  method InitializeLists(lists: array<WordList>)
    requires lists.Length == AlphabetLettersCount
    requires forall a, b :: 0 <= a < b < lists.Length ==> lists[a] != lists[b]
    modifies lists[..]
    ensures ListsHold(lists, [])
  {
    for b := 0 to AlphabetLettersCount
      invariant forall a :: 0 <= a < b ==> lists[a].Valid() && lists[a].Contents() == []
    {
      lists[b].Initialize();
    }
  }

  /** The insertion step of the word loop: the word goes to the head of the list of its first letter. */
  method InsertWord(lists: array<WordList>, word: array<char>, allocationSucceeds: bool, ghost words: seq<string>)
      returns (r: int)
    requires forall a, b :: 0 <= a < b < lists.Length ==> lists[a] != lists[b]
    requires 0 < word.Length < WordMaximumStringSize && IsUpperLetter(word[0])
    requires ListsHold(lists, words)
    modifies lists[..]
    ensures r == (if allocationSucceeds then 0 else -1)
    ensures ListsHold(lists, if r == 0 then words + [word[..]] else words)
  {
    var w := word[..];
    var index := word[0] as int - 'A' as int;
    assert BucketIndex(w) == index;
    var list := lists[index];
    ghost var others := set b | 0 <= b < AlphabetLettersCount && b != index :: lists[b];
    assert list !in others;
    assert list.Contents() == Reversed(BucketOf(words, index));
    r := list.Insert(w, allocationSucceeds);
    if r != 0 {
      return;
    }
    BucketOfAppend(words, w);
    ReversedAppend(BucketOf(words, index), w);
    assert list.Contents() == Reversed(BucketOf(words + [w], index));
    forall b | 0 <= b < AlphabetLettersCount
      ensures lists[b].Valid() && lists[b].Contents() == Reversed(BucketOf(words + [w], b))
    {
      if b != index {
        assert lists[b] in others;
        assert lists[b].Contents() == old(lists[b].Contents()) == Reversed(BucketOf(words, b));
        assert BucketOf(words + [w], b) == BucketOf(words, b) + [] == BucketOf(words, b);
      } else {
        assert lists[b] == list;
      }
    }
  }

  /** Row after row, the letters of rows sit at their row-major place among the cells. */
  ghost predicate HoldsRows(cells: seq<Cell>, columns: int, rows: seq<string>)
  {
    forall row, column :: 0 <= row < |rows| && 0 <= column < columns ==> HoldsAt(cells, columns, rows, row, column)
  }

  ghost predicate HoldsAt(cells: seq<Cell>, columns: int, rows: seq<string>, row: nat, column: nat)
    requires row < |rows|
  {
    && column < |rows[row]|
    && 0 <= row * columns + column < |cells|
    && cells[row * columns + column].letter == rows[row][column]
  }

  /** Copying one more row of columns letters after the rows held keeps them held. */
  lemma HoldsRowsExtend(before: seq<Cell>, after: seq<Cell>, columns: int, rows: seq<string>, row: string)
    requires HoldsRows(before, columns, rows) && |row| == columns && |after| == |before|
    requires 0 <= |rows| * columns && |rows| * columns + columns <= |after|
    requires forall k :: 0 <= k < |rows| * columns ==> after[k] == before[k]
    requires forall k :: |rows| * columns <= k < |rows| * columns + columns ==> after[k].letter == row[k - |rows| * columns]
    ensures HoldsRows(after, columns, rows + [row])
  {
    var all := rows + [row];
    forall r, c | 0 <= r < |all| && 0 <= c < columns
      ensures HoldsAt(after, columns, all, r, c)
    {
      if r < |rows| {
        assert all[r] == rows[r];
        assert HoldsAt(before, columns, rows, r, c);
        assert r * columns + c < |rows| * columns by {
          assert r * columns <= (|rows| - 1) * columns;
        }
      } else {
        assert all[r] == row && r == |rows|;
      }
    }
  }

  /** With at least one row left to scan, the next row's cells are among those left. */
  lemma RemainingRows(left: int, columns: int)
    requires 1 <= left && 0 <= columns
    ensures columns <= left * columns && (left - 1) * columns == left * columns - columns
  {
  }

  /** The row after row starts columns cells later and still inside the loaded area. */
  lemma NextRowStart(row: int, rows: int, columns: int)
    requires 0 <= row < rows && 0 <= columns
    ensures (row + 1) * columns == row * columns + columns <= rows * columns
  {
    assert (row + 1) * columns <= rows * columns;
  }

  /** An unmarked cell at index with capacity - 1 letters already collected: the hidden word does not fit. */
  lemma HiddenOverflow(cells: seq<Cell>, index: nat, total: nat, capacity: int)
    requires index < total <= |cells| && !cells[index].found
    requires |Hidden(cells, index)| == capacity - 1
    ensures |Hidden(cells, total)| > capacity - 1
    ensures Hidden(cells, total)[..capacity - 1] == Hidden(cells, index)
  {
    assert Hidden(cells, index + 1) == Hidden(cells, index) + [cells[index].letter];
    HiddenPrefix(cells, index + 1, total);
    HiddenPrefix(cells, index, total);
  }

  /** How many bytes of its buffer GetHiddenWord has written, by outcome. */
  function Written(r: int, hiddenLength: nat, capacity: int): int
  {
    if r == 0 then hiddenLength + 1 else capacity - 1
  }

  /**
   * GridGetHiddenWord over the rows by columns cells at the start of cells: the letters of
   * the unmarked ones, then a 0, into a buffer of capacity bytes, or -1 when they and the
   * terminator do not fit, with the first capacity - 1 letters written.
   */
  method CollectHidden(cells: array<Cell>, rows: int, columns: int, output: array<char>, capacity: int)
      returns (r: int)
    requires 0 <= rows && 0 <= columns && rows * columns <= cells.Length
    requires 1 <= capacity <= output.Length
    modifies output
    ensures var hidden := Hidden(cells[..], rows * columns);
      && (r == 0 || r == -1)
      && (r == 0 <==> |hidden| <= capacity - 1)
      && (r == 0 ==> output[..|hidden| + 1] == hidden + ['\0'])
      && (r == -1 ==> output[..capacity - 1] == hidden[..capacity - 1])
      && output[Written(r, |hidden|, capacity)..] == old(output[..])[Written(r, |hidden|, capacity)..]
  {
    ghost var hidden := Hidden(cells[..], rows * columns);
    ghost var before := output[..];
    var size, overflow := CollectRows(cells, rows, columns, output, capacity, before);
    if overflow {
      return -1;
    }
    output[size] := '\0';
    assert output[..size + 1] == hidden + ['\0'];
    assert output[size + 1..] == before[size + 1..];
    return 0;
  }

  /**
   * The row loop of GridGetHiddenWord: the letters of the unmarked cells, row by row, or a
   * report that the buffer is full once capacity - 1 of them are written.
   */
  method CollectRows(cells: array<Cell>, rows: int, columns: int, output: array<char>, capacity: int,
                     ghost before: seq<char>)
      returns (size: int, overflow: bool)
    requires 0 <= rows && 0 <= columns && rows * columns <= cells.Length
    requires 1 <= capacity <= output.Length && before == output[..]
    modifies output
    ensures !overflow ==> && size == |Hidden(cells[..], rows * columns)| <= capacity - 1
                          && output[..size] == Hidden(cells[..], rows * columns)
                          && output[size..] == before[size..]
    ensures overflow ==> && |Hidden(cells[..], rows * columns)| > capacity - 1
                         && output[..capacity - 1] == Hidden(cells[..], rows * columns)[..capacity - 1]
                         && output[capacity - 1..] == before[capacity - 1..]
  {
    ghost var all := cells[..];
    ghost var total := rows * columns;
    size := 0;
    var start := 0;
    for row := 0 to rows
      invariant 0 <= start <= total
      invariant start + (rows - row) * columns == total
      invariant 0 <= size <= capacity - 1
      invariant output[..size] == Hidden(all, start)
      invariant output[size..] == before[size..]
    {
      RemainingRows(rows - row, columns);
      size, overflow := CollectRow(cells, output, capacity, start, columns, size, total, before);
      if overflow {
        return;
      }
      start := start + columns;
    }
    return size, false;
  }

  /**
   * The inner loop of GridGetHiddenWord over one row, whose cells start at index start of
   * the total loaded ones: appends the letters of its unmarked cells after the size letters
   * already written, or reports that the buffer is full.
   */
  method CollectRow(cells: array<Cell>, output: array<char>, capacity: int, start: int, columns: int,
                    size0: int, ghost total: int, ghost before: seq<char>)
      returns (size: int, overflow: bool)
    requires 1 <= capacity <= output.Length && |before| == output.Length
    requires 0 <= start && 0 <= columns && start + columns <= total <= cells.Length
    requires 0 <= size0 <= capacity - 1 && output[..size0] == Hidden(cells[..], start)
    requires output[size0..] == before[size0..]
    modifies output
    ensures !overflow ==> && 0 <= size <= capacity - 1
                          && output[..size] == Hidden(cells[..], start + columns)
                          && output[size..] == before[size..]
    ensures overflow ==> && |Hidden(cells[..], total)| > capacity - 1
                         && output[..capacity - 1] == Hidden(cells[..], total)[..capacity - 1]
                         && output[capacity - 1..] == before[capacity - 1..]
  {
    ghost var all := cells[..];
    size := size0;
    for column := 0 to columns
      invariant 0 <= size <= capacity - 1
      invariant output[..size] == Hidden(all, start + column)
      invariant output[size..] == before[size..]
    {
      var index := start + column;
      var cell := cells[index];
      ghost var prefix := Hidden(all, index);
      assert Hidden(all, index + 1) == prefix + (if cell.found then [] else [cell.letter]);
      if !cell.found {
        if size >= capacity - 1 {
          HiddenOverflow(all, index, total, capacity);
          return size, true;
        }
        ghost var previous := output[..];
        output[size] := cell.letter;
        assert output[..size + 1] == prefix + [cell.letter];
        assert previous[size + 1..] == previous[size..][1..] == before[size..][1..];
        assert output[size + 1..] == previous[size + 1..];
        size := size + 1;
      }
    }
    return size, false;
  }
}
