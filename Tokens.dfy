/**
 * What GridLoadFromFile accepts, stated over the whitespace-separated tokens the file holds:
 * grid rows up to a "-" separator, then the words to search.
 */
module Tokens {
  import opened Configuration
  import opened Wrappers
  import opened Characters

  const Separator: string := "-"

  datatype LoadError =
    | MissingSeparator
    | RowTooLong
    | RowInvalidCharacter
    | RowLengthMismatch
    | WordEmpty
    | WordTooLong
    | WordInvalidCharacter
    | InsertionFailed

  /** The grid part: index of the separator, the column count and the validated rows. */
  datatype GridSection = GridSection(separator: nat, columns: int, rows: seq<string>)

  /** A loaded file: the validated rows, the column count and the validated words in file order. */
  datatype Loaded = Loaded(rows: seq<string>, columns: int, words: seq<string>)

  /** Index of the first separator at or after i, or |tokens| when there is none. */
  function SeparatorFrom(tokens: seq<string>, i: nat): (k: nat)
    requires i <= |tokens|
    ensures i <= k <= |tokens|
    ensures forall j :: i <= j < k ==> tokens[j] != Separator
    ensures k < |tokens| ==> tokens[k] == Separator
    decreases |tokens| - i
  {
    if i == |tokens| || tokens[i] == Separator then i else SeparatorFrom(tokens, i + 1)
  }

  /** How many grid rows the file holds: the tokens before the first separator. */
  function RowCount(tokens: seq<string>): nat
  {
    SeparatorFrom(tokens, 0)
  }

  /** The grid loop of GridLoadFromFile from token i on, columns being Grid_Columns_Count so far. */
  function LoadRows(tokens: seq<string>, i: nat, columns: int, rows: seq<string>): (r: Result<GridSection, LoadError>)
    requires i <= |tokens|
    ensures r.Success? ==> i <= r.value.separator < |tokens| && tokens[r.value.separator] == Separator
    ensures r.Success? ==> r.value.separator == SeparatorFrom(tokens, i)
    ensures r.Success? ==> |r.value.rows| == |rows| + (r.value.separator - i)
    decreases |tokens| - i
  {
    if i == |tokens| then Failure(MissingSeparator)
    else if tokens[i] == Separator then Success(GridSection(i, columns, rows))
    else
      var row := tokens[i];
      if |row| > GridMaximumSize then Failure(RowTooLong)
      else if FirstInvalid(row) != |row| then Failure(RowInvalidCharacter)
      else
        var width := if columns == 0 then |row| else columns;
        if |row| != width then Failure(RowLengthMismatch)
        else LoadRows(tokens, i + 1, width, rows + [Upper(row)])
  }

  /** Each string uppercased. */
  function UpperAll(ts: seq<string>): seq<string>
  {
    seq(|ts|, k requires 0 <= k < |ts| => Upper(ts[k]))
  }

  /** Index of the list a validated word goes to. */
  function BucketIndex(word: string): int
    requires word != []
  {
    word[0] as int - 'A' as int
  }

  /** The word loop of GridLoadFromFile from token j on, words being those inserted so far. */
  function LoadWords(tokens: seq<string>, j: nat, words: seq<string>, mallocSucceeds: nat -> bool): (r: Result<seq<string>, LoadError>)
    requires j <= |tokens|
    ensures r.Success? ==> |r.value| == |words| + (|tokens| - j) && r.value[..|words|] == words
    ensures r.Success? ==> forall k :: |words| <= k < |r.value| ==> 0 < |r.value[k]| < WordMaximumStringSize
    decreases |tokens| - j
  {
    if j == |tokens| then Success(words)
    else
      var word := tokens[j];
      if |word| == 0 then Failure(WordEmpty)
      else if |word| >= WordMaximumStringSize then Failure(WordTooLong)
      else if FirstInvalid(word) != |word| then Failure(WordInvalidCharacter)
      else if !mallocSucceeds(|words|) then Failure(InsertionFailed)
      else LoadWords(tokens, j + 1, words + [Upper(word)], mallocSucceeds)
  }

  /** An accepted word whose allocation succeeds is uppercased, kept, and the loop goes on. */
  lemma LoadWordsContinues(tokens: seq<string>, j: nat, words: seq<string>, mallocSucceeds: nat -> bool)
    requires j < |tokens| && WordAccepted(tokens[j]) && mallocSucceeds(|words|)
    ensures LoadWords(tokens, j, words, mallocSucceeds) == LoadWords(tokens, j + 1, words + [Upper(tokens[j])], mallocSucceeds)
  {
    FirstInvalidIsLength(tokens[j]);
  }

  /** A rejected word, or one whose allocation fails, ends the loop with an error. */
  lemma LoadWordsStops(tokens: seq<string>, j: nat, words: seq<string>, mallocSucceeds: nat -> bool)
    requires j < |tokens| && !(WordAccepted(tokens[j]) && mallocSucceeds(|words|))
    ensures LoadWords(tokens, j, words, mallocSucceeds).Failure?
  {
    FirstInvalidIsLength(tokens[j]);
  }

  /** GridLoadFromFile: the grid rows, then the words. The n-th word's malloc succeeds when mallocSucceeds(n). */
  function Load(tokens: seq<string>, mallocSucceeds: nat -> bool): (r: Result<Loaded, LoadError>)
    ensures r.Success? ==> RowCount(tokens) < |tokens| && |r.value.rows| == RowCount(tokens)
    ensures r.Success? ==> |r.value.words| == |tokens| - RowCount(tokens) - 1
  {
    match LoadRows(tokens, 0, 0, [])
    case Failure(e) => Failure(e)
    case Success(g) =>
      match LoadWords(tokens, g.separator + 1, [], mallocSucceeds)
      case Failure(e) => Failure(e)
      case Success(words) => Success(Loaded(g.rows, g.columns, words))
  }

  /** The words of a sequence that go to list b, in order. */
  function BucketOf(words: seq<string>, b: int): seq<string>
  {
    if words == [] then []
    else
      var last := words[|words| - 1];
      BucketOf(words[..|words| - 1], b) + (if last != [] && BucketIndex(last) == b then [last] else [])
  }

  /** Column count the file fixes: the length of its first row. */
  function GridColumns(tokens: seq<string>): int
  {
    if RowCount(tokens) == 0 then 0 else |tokens[0]|
  }

  /** A grid row the loader accepts. */
  ghost predicate RowAccepted(tokens: seq<string>, row: string)
  {
    |row| <= GridMaximumSize && ValidString(row) && |row| == GridColumns(tokens)
  }

  /** A word the loader accepts. */
  ghost predicate WordAccepted(word: string)
  {
    0 < |word| < WordMaximumStringSize && ValidString(word)
  }

  /** Index of the first word token. */
  function WordsStart(tokens: seq<string>): nat
  {
    RowCount(tokens) + 1
  }

  /**
   * Token k holds an accepted word and the malloc of its item succeeds; reading from token
   * start with inserted words already in the lists, it is the (inserted + k - start)-th word.
   */
  ghost predicate WordLoads(tokens: seq<string>, start: int, inserted: int, mallocSucceeds: nat -> bool, k: int)
    requires 0 <= k < |tokens|
  {
    WordAccepted(tokens[k]) && inserted + (k - start) >= 0 && mallocSucceeds(inserted + (k - start))
  }

  /** The file the loader accepts, stated without its loops. */
  ghost predicate Accepted(tokens: seq<string>, mallocSucceeds: nat -> bool)
  {
    var n := RowCount(tokens);
    && n < |tokens|
    && (forall i :: 0 <= i < n ==> RowAccepted(tokens, tokens[i]))
    && (forall j :: n < j < |tokens| ==> WordLoads(tokens, WordsStart(tokens), 0, mallocSucceeds, j))
  }

  /** What an accepted file loads to: the rows and words uppercased, in file order. */
  ghost function Expected(tokens: seq<string>): Loaded
    requires RowCount(tokens) < |tokens|
  {
    var n := RowCount(tokens);
    Loaded(UpperAll(tokens[..n]), GridColumns(tokens), UpperAll(tokens[n + 1..]))
  }

  /** The grid loop from row i on, for files whose rows are non-empty. */
  lemma {:induction false} LoadRowsSpec(tokens: seq<string>, i: nat, columns: int, rows: seq<string>)
    requires i <= RowCount(tokens)
    requires forall k :: 0 <= k < RowCount(tokens) ==> tokens[k] != []
    requires columns == if i == 0 then 0 else GridColumns(tokens)
    ensures LoadRows(tokens, i, columns, rows).Success?
        <==> RowCount(tokens) < |tokens| && forall k :: i <= k < RowCount(tokens) ==> RowAccepted(tokens, tokens[k])
    ensures LoadRows(tokens, i, columns, rows).Success? ==>
      LoadRows(tokens, i, columns, rows).value
        == GridSection(RowCount(tokens), GridColumns(tokens), rows + UpperAll(tokens[i..RowCount(tokens)]))
    decreases |tokens| - i
  {
    var n := RowCount(tokens);
    if i == n {
      assert rows + UpperAll(tokens[i..n]) == rows;
    } else {
      var row := tokens[i];
      FirstInvalidIsLength(row);
      var width := if columns == 0 then |row| else columns;
      assert width == GridColumns(tokens);
      assert row != Separator;
      assert RowAccepted(tokens, row) ==>
        LoadRows(tokens, i, columns, rows) == LoadRows(tokens, i + 1, width, rows + [Upper(row)]);
      assert !RowAccepted(tokens, row) ==> LoadRows(tokens, i, columns, rows).Failure?;
      LoadRowsSpec(tokens, i + 1, width, rows + [Upper(row)]);
      assert UpperAll(tokens[i..n]) == [Upper(row)] + UpperAll(tokens[i + 1..n]);
      assert rows + UpperAll(tokens[i..n]) == (rows + [Upper(row)]) + UpperAll(tokens[i + 1..n]);
    }
  }

  /** The word loop from token j on. */
  lemma {:induction false} LoadWordsSpec(tokens: seq<string>, j: nat, words: seq<string>, mallocSucceeds: nat -> bool)
    requires j <= |tokens|
    ensures LoadWords(tokens, j, words, mallocSucceeds).Success?
        <==> forall k :: j <= k < |tokens| ==> WordLoads(tokens, j, |words|, mallocSucceeds, k)
    ensures LoadWords(tokens, j, words, mallocSucceeds).Success? ==>
      LoadWords(tokens, j, words, mallocSucceeds).value == words + UpperAll(tokens[j..])
    decreases |tokens| - j
  {
    if j == |tokens| {
      assert words + UpperAll(tokens[j..]) == words;
    } else {
      var word := tokens[j];
      FirstInvalidIsLength(word);
      LoadWordsSpec(tokens, j + 1, words + [Upper(word)], mallocSucceeds);
      var next, inserted := j + 1, |words + [Upper(word)]|;
      forall k | next <= k < |tokens|
        ensures WordLoads(tokens, j, |words|, mallocSucceeds, k) <==> WordLoads(tokens, next, inserted, mallocSucceeds, k)
      {
      }
      assert WordLoads(tokens, j, |words|, mallocSucceeds, j) <==> WordAccepted(word) && mallocSucceeds(|words|);
      assert UpperAll(tokens[j..]) == [Upper(word)] + UpperAll(tokens[j + 1..]);
    }
  }

  /**
   * The loader succeeds exactly on accepted files, and then holds their rows and words,
   * uppercased, in file order.
   */
  lemma LoadSpec(tokens: seq<string>, mallocSucceeds: nat -> bool)
    requires forall k :: 0 <= k < RowCount(tokens) ==> tokens[k] != []
    ensures Load(tokens, mallocSucceeds).Success? <==> Accepted(tokens, mallocSucceeds)
    ensures Load(tokens, mallocSucceeds).Success? ==> Load(tokens, mallocSucceeds).value == Expected(tokens)
  {
    var n := RowCount(tokens);
    LoadRowsSpec(tokens, 0, 0, []);
    if n < |tokens| {
      LoadWordsSpec(tokens, n + 1, [], mallocSucceeds);
      var none: seq<string> := [];
      assert |none| == 0 && WordsStart(tokens) == n + 1;
      assert [] + UpperAll(tokens[0..n]) == UpperAll(tokens[..n]);
      assert [] + UpperAll(tokens[n + 1..]) == UpperAll(tokens[n + 1..]);
    }
  }

  /** A file that runs out of tokens before the separator fails to load. */
  lemma NoSeparatorFails(tokens: seq<string>, mallocSucceeds: nat -> bool)
    requires Separator !in tokens
    ensures Load(tokens, mallocSucceeds).Failure?
  {
  }

  /** A word is in list b exactly when it is one of the words and its first letter is letter b. */
  lemma {:induction false} BucketMembership(words: seq<string>, b: int, w: string)
    ensures w in BucketOf(words, b) <==> w in words && w != [] && BucketIndex(w) == b
    decreases |words|
  {
    if words != [] {
      var init, last := words[..|words| - 1], words[|words| - 1];
      BucketMembership(init, b, w);
      assert words == init + [last];
    }
  }

  /** One more word goes to the end of its own list and leaves the other lists as they were. */
  lemma BucketOfAppend(words: seq<string>, w: string)
    ensures forall b :: BucketOf(words + [w], b) == BucketOf(words, b) + (if w != [] && BucketIndex(w) == b then [w] else [])
  {
    assert (words + [w])[..|words|] == words;
  }

  /** The number of words held by lists 0 to n - 1. */
  function BucketSizes(words: seq<string>, n: nat): nat
  {
    if n == 0 then 0 else BucketSizes(words, n - 1) + |BucketOf(words, n - 1)|
  }

  lemma {:induction false} BucketSizesAppend(init: seq<string>, last: string, n: nat)
    ensures BucketSizes(init + [last], n)
         == BucketSizes(init, n) + (if last != [] && 0 <= BucketIndex(last) < n then 1 else 0)
  {
    if n > 0 {
      BucketSizesAppend(init, last, n - 1);
      assert (init + [last])[..|init + [last]| - 1] == init;
    }
  }

  /** Every validated word goes to exactly one of the lists: their sizes add up to the word count. */
  lemma {:induction false} BucketsPartition(words: seq<string>)
    requires forall i :: 0 <= i < |words| ==> words[i] != [] && 0 <= BucketIndex(words[i]) < AlphabetLettersCount
    ensures BucketSizes(words, AlphabetLettersCount) == |words|
    decreases |words|
  {
    if words == [] {
      BucketSizesEmpty(AlphabetLettersCount);
    } else {
      var init, last := words[..|words| - 1], words[|words| - 1];
      BucketsPartition(init);
      assert words == init + [last];
      BucketSizesAppend(init, last, AlphabetLettersCount);
    }
  }

  lemma {:induction false} BucketSizesEmpty(n: nat)
    ensures BucketSizes([], n) == 0
  {
    if n > 0 {
      BucketSizesEmpty(n - 1);
    }
  }

  /** Every word the loader accepts goes to one of the 26 lists. */
  lemma AcceptedWordHasList(word: string)
    requires WordAccepted(word)
    ensures 0 <= BucketIndex(Upper(word)) < AlphabetLettersCount
  {
    assert IsUpperLetter(ToUpper(word[0]));
  }
}
