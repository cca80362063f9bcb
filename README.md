# Word search grid — a Dafny model

This project models the core of a word-search puzzle solver written in C: the grid store of
`Sources/Grid.c` and the per-letter word lists of `Sources/Word_List.c`.

The grid store keeps a fixed buffer of 32 × 32 cells. Each cell holds a letter and a "part of a found
word" flag. Two counters give the loaded number of rows and columns. Around that state it offers:

- string validation, which uppercases a string in place and rejects anything that is not a letter;
- a bounds-checked letter read and a bounds-checked flag write;
- a word match from a starting cell, trying N, NE, E, SE, S, SW, W and NW in that order;
- extraction of the hidden word: the letters of the unflagged cells, row-major, into a bounded buffer;
- loading of a puzzle: grid rows up to a `-` separator, then the words, each inserted into the list
  of its first letter.

The word list is a singly linked list with head insertion and a `Size` counter.

Modules:

- `Configuration` holds the constants of `Includes/Configuration.h`:
  - a word buffer of 32 bytes, terminator included;
  - a grid of at most 32 rows and 32 columns;
  - 26 letters, hence 26 word lists.
- `Characters` holds the validation of `GridValidateString`. `ValidateString` is the in-place loop
  over a character array. `ToUpper`, `Upper` and `FirstInvalid` are its specification.
- `WordLists` holds the list. `WordList` is a class with a `size` field and a `head` pointer to
  immutable `WordListItem` nodes. `Valid()` ties `size` to the number of reachable nodes.
- `Search` is the grid as a value (`Board`). It defines:
  - the eight directions and the room check `Grid.c` makes for each (`Fits`);
  - what a match is (`Matches`) and the first matching direction in priority order (`FirstMatch`);
  - the effect of flagging a path (`MarkPath`);
  - the hidden word (`Hidden`, `HiddenWord`).
- `Tokens` specifies the loader over the sequence of whitespace-separated tokens a file holds:
  - `LoadRows`, `LoadWords` and `Load` follow the loops of `GridLoadFromFile`;
  - `Accepted` and `Expected` state the same result without loops;
  - `BucketOf` gives the words each of the 26 lists receives.
- `GridStore` turns the globals of `Grid.c` into the `Grid` class: the cell array and the row and
  column counters. Its methods are the C functions, each proved against the `Search` or `Tokens`
  specification.

Three facts of the code shape the model:

- The word list is singly linked and has only `WordListInitialize` and `WordListInsert`.
- Duplicate words are inserted twice.
- A file whose first token is `-` loads a 0 × 0 grid.

The loader follows the five-parameter definition in `Sources/Grid.c:83`. `Includes/Grid.h:21`
declares four parameters, without the word count.

C strings are modelled by their characters without the terminator. An array of `char` stands for
a string that is changed in place; a `string` value stands for one that is only read. The hidden word
buffer size, `CONFIGURATION_HIDDEN_WORD_MAXIMUM_STRING_SIZE`, is not defined in
`Includes/Configuration.h`. It is the `capacity` parameter of `GetHiddenWord`, with `capacity >= 1`.

## Model

| member | source | states |
|---|---|---|
| `Characters.ToUpper` | Sources/Grid.c:49-54 | only `a`–`z` are converted, by subtracting 32; every other character is kept; the result is an uppercase letter iff the input was a letter of either case |
| `Characters.FirstInvalid` | Sources/Grid.c:44-59 | the position where validation stops: every earlier character converts to `A`–`Z`, the one at that position does not, or it is the length |
| `Characters.ValidStringIsLetters` | Sources/Grid.c:50-57 | a string passes validation iff every character is a letter of either case |
| `Characters.FirstInvalidIsLength` | Sources/Grid.c:44-61 | the scan reaches the end of the string iff the string is valid |
| `Characters.UpperOfValid` | Sources/Grid.c:47-54 | a valid string converts to uppercase letters only, and converting it again changes nothing |
| `Characters.ValidateString` | Sources/Grid.c:39-62 | returns 0 or 1, and 0 iff no character is invalid; the characters before the first invalid one are uppercased in place, that one and those after it are unchanged |
| `Characters.ValidatedIsUpper` | Sources/Grid.c:39-62 | after a successful validation the string is the uppercase of what it held before |
| `WordLists.WordListItem.constructor` | Sources/Word_List.c:33-36 | a new item holds its own copy of the word (shorter than 32) and links to the old head |
| `WordLists.WordList.constructor` | Includes/Word_List.h:20-24 | a list in zeroed static storage: size 0 and no head, which satisfies the size invariant |
| `WordLists.WordList.Initialize` | Sources/Word_List.c:13-17 | the list becomes empty with size 0, and the size invariant holds |
| `WordLists.WordList.Insert` | Sources/Word_List.c:19-41 | a word of length 32 or more gives -2 and a failed allocation -1, both leaving the list unchanged; otherwise 0, the word's copy at the head before the old contents, size + 1; the size invariant is preserved |
| `WordLists.ReversedAt` | Sources/Word_List.c:35-37 | reversal puts element `k` at position `n-1-k` |
| `WordLists.ReversedAppend` | Sources/Word_List.c:35-37 | reversing a sequence with one more word at its end puts that word first |
| `WordLists.InsertionsReverse` | Sources/Word_List.c:35-38 | inserting w1..wn reads wn..w1 followed by the former contents |
| `Search.CellIndexInRange` | Sources/Grid.c:24 | row-major index `row*columns+column` of an in-grid cell lies inside the loaded area and the 32 × 32 buffer |
| `Search.Letter` | Sources/Grid.c:217-227 | the letter a coordinate reads: an uppercase letter inside the grid, 0 outside |
| `Search.Fits` | Sources/Grid.c:238-378 | from an in-grid start, a direction's room check for a word of length at least 1 holds iff the cell of its last letter is inside the grid |
| `Search.FitsKeepsPathInGrid` | Sources/Grid.c:238-378 | from an in-grid start, a direction that passes its room check keeps every letter of the word inside the grid |
| `Search.FitsIsExact` | Sources/Grid.c:238-378 | from an in-grid start, the room check holds iff every letter of the word lands inside the grid: no off-by-one in either direction |
| `Search.FirstMatch` | Sources/Grid.c:237-397 | none iff no direction both fits and spells the word; otherwise a matching direction before which, in the order N, NE, E, SE, S, SW, W, NW, none matches |
| `Search.MatchedPathInGrid` | Sources/Grid.c:244-252 | every letter of a matched C string lies inside the grid, because outside cells read as 0 |
| `Search.MatchStartsInGrid` | Sources/Grid.c:229-255 | a non-empty word can only match from a start inside the grid |
| `Search.SetFound` | Sources/Grid.c:68-78 | flagging a coordinate keeps the dimensions, a well-formed grid and every letter; a cell's flag is set afterwards iff it was set before or it is cell `row*columns+column` of an in-grid coordinate |
| `Search.MarkPath` | Sources/Grid.c:252 | after flagging a path's first n cells, exactly the in-grid path cells gain the flag; every letter and every other flag is unchanged |
| `Search.HiddenPrefix` | Sources/Grid.c:406-424 | the hidden word of a shorter prefix of the cells begins the hidden word of a longer one |
| `Search.HiddenLength` | Sources/Grid.c:414-422 | the hidden word has exactly one letter per unflagged cell |
| `Search.HiddenOfUnmarked` | Sources/Grid.c:400-431 | with no cell flagged, the hidden word is the whole grid read row-major |
| `Tokens.SeparatorFrom` | Sources/Grid.c:100-120 | the first `-` token at or after a position, or the end of the tokens |
| `Tokens.LoadRows` | Sources/Grid.c:100-153 | the grid loop succeeds only by reaching a `-` token |
| `Tokens.LoadRowsSpec` | Sources/Grid.c:100-153 | the grid loop succeeds iff a separator follows the rows and every row is at most 32 long, valid and as long as the first; the result is the uppercased rows and the first row's length |
| `Tokens.LoadWords` | Sources/Grid.c:159-202 | the word loop, on success, keeps the words already read as its prefix and adds one word per remaining token, each non-empty and shorter than 32 |
| `Tokens.LoadWordsSpec` | Sources/Grid.c:158-202 | the word loop succeeds iff every later token is non-empty, shorter than 32 and valid, and its allocation succeeds; the result is the words uppercased in file order |
| `Tokens.LoadWordsContinues` | Sources/Grid.c:174-201 | an accepted word whose allocation succeeds is kept uppercased and the word loop goes on with the next token |
| `Tokens.LoadWordsStops` | Sources/Grid.c:174-200 | an empty, too long or invalid word, or a failed allocation, ends the word loop with an error |
| `Tokens.Load` | Sources/Grid.c:83-215 | a successful load has a separator after the rows, one grid row per token before it and one word per token after it |
| `Tokens.LoadSpec` | Sources/Grid.c:83-215 | loading succeeds exactly on accepted token sequences, and then yields their rows and words uppercased, in file order |
| `Tokens.NoSeparatorFails` | Sources/Grid.c:111-116 | running out of tokens before `-` is an error |
| `Tokens.BucketMembership` | Sources/Grid.c:195-196 | a word is in list b iff it is one of the words and `word[0]-'A' == b` |
| `Tokens.BucketOfAppend` | Sources/Grid.c:195-196 | one more word joins its own list and leaves the other lists unchanged |
| `Tokens.BucketSizesAppend` | Sources/Grid.c:195-201 | one more word with a list index below n adds one to the total size of lists 0..n-1 |
| `Tokens.BucketSizesEmpty` | Sources/Grid.c:156 | with no words, the first n lists hold nothing |
| `Tokens.BucketsPartition` | Sources/Grid.c:195-201 | when every word has a list index in [0,26), the 26 list sizes add up to the word count |
| `Tokens.AcceptedWordHasList` | Sources/Grid.c:187-195 | every word the loader accepts has its list index in [0,26) once uppercased |
| `GridStore.Grid.constructor` | Sources/Grid.c:24-29 | the static grid before loading: zero rows and columns, zeroed cells |
| `GridStore.Grid.GetLetter` | Sources/Grid.c:217-227 | inside the grid, the letter of cell `row*columns+column`, an uppercase letter; outside, 0; reads only |
| `GridStore.Grid.SetLetterFound` | Sources/Grid.c:68-78 | flags the addressed cell when it is inside the grid and changes nothing otherwise |
| `GridStore.Grid.ReadPath` | Sources/Grid.c:241-247 | the temporary string holds the letters along the direction, then a 0 |
| `GridStore.Grid.FlagPath` | Sources/Grid.c:252 | the grid becomes `MarkPath` of the old grid |
| `GridStore.Grid.TryDirection` | Sources/Grid.c:237-255 | reports a match iff the direction fits and spells the word; flags the path on a match and changes nothing otherwise |
| `GridStore.Grid.MatchWordWithPosition` | Sources/Grid.c:229-398 | 0 with exactly the path of the first matching direction flagged, or -1 with the grid unchanged |
| `GridStore.Grid.GetHiddenWord` | Sources/Grid.c:400-431 | 0 iff the unflagged letters number at most capacity-1, with the buffer then holding them row-major and a 0; otherwise -1 with the first capacity-1 of them written; nothing beyond is touched |
| `GridStore.CollectHidden` | Sources/Grid.c:400-431 | over the cell array and the counters: 0 iff the unflagged letters fit with their terminator, the buffer then holding them and a 0; otherwise -1 with the first capacity-1 of them written; the rest of the buffer unchanged |
| `GridStore.CollectRows` | Sources/Grid.c:408-424 | the row loop writes exactly the hidden word, or reports overflow only when the hidden word is longer than capacity-1, with that many of its letters written |
| `GridStore.CollectRow` | Sources/Grid.c:412-423 | one row's unflagged letters are appended, or overflow is reported only when the whole hidden word is too long |
| `GridStore.HiddenOverflow` | Sources/Grid.c:417 | an unflagged cell met with capacity-1 letters already written proves the hidden word too long |
| `GridStore.Grid.LoadFromTokens` | Sources/Grid.c:83-215 | 0 iff `Tokens.Load` succeeds; the rows are then stored row-major, the counters give the grid size, the word count is returned and each list holds its words in reverse file order; flags untouched, and every cell past the loaded rows keeps its value |
| `GridStore.Grid.LoadGrid` | Sources/Grid.c:100-153 | succeeds iff `Tokens.LoadRows` does; the rows are then stored consecutively and the row counter counts them; flags and every cell past the stored rows are unchanged |
| `GridStore.Grid.StoreRow` | Sources/Grid.c:121-152 | a row token is accepted iff it is at most 32 long, letters only, and the first row or as long as it; then it is stored uppercased as the next row and fixes the column count; otherwise nothing changes: counters and every cell as before; on acceptance, flags and the cells past the stored rows are unchanged |
| `GridStore.Grid.CopyRow` | Sources/Grid.c:146-152 | the validated row is written as the next grid row and the row counter grows by one; flags and every cell after the new row are unchanged |
| `GridStore.Grid.WriteLetters` | Sources/Grid.c:147-151 | the row's letters are written from cell p on; the cells before p and from p plus the row length on, and all flags, are unchanged |
| `GridStore.HoldsRowsExtend` | Sources/Grid.c:146-151 | writing one more row after the stored rows keeps them stored |
| `GridStore.ReadToken` | Sources/Grid.c:104-135 | the token is copied into a fresh buffer and validated in place; valid iff letters only, the buffer then holding it uppercased |
| `GridStore.ListHoldsInReverse` | Sources/Word_List.c:35-37 | after loading, the k-th word of list b from its head is the k-th last of that list's words in file order |
| `GridStore.InitializeLists` | Sources/Grid.c:156 | all 26 lists are emptied |
| `GridStore.InsertWord` | Sources/Grid.c:194-200 | the word goes at the head of list `word[0]-'A'` on success, and every other list is unchanged |
| `GridStore.LoadWord` | Sources/Grid.c:174-201 | one token is loaded iff it is accepted and its allocation succeeds |
| `GridStore.LoadWordLists` | Sources/Grid.c:155-206 | succeeds iff `Tokens.LoadWords` does, returning the word count with each list holding its words |

## Left out

- File I/O: `fopen`, `fscanf`, `errno` and `fclose` are left out. The loader works on the tokens
  the file holds. A read error is not modelled. End of file is the end of the token sequence.
- Console output is left out: every `printf` diagnostic and `GridDisplay`.
- `Main.c` is not part of this model: argument checking and the call to the loader.
- The solver scan and the removal of words during iteration are left out: `Sources/Word_List.c`
  has only `WordListInitialize` and `WordListInsert`.
- `malloc` is a boolean parameter of `Insert`, and of the loader through `mallocSucceeds`. It
  says whether the n-th allocation succeeds.
- The loader's state after a failed load is not described. The C code leaves partly filled
  cells, counters and lists behind.
- `GridStore.Grid.LoadFromTokens` and `GridStore.Grid.LoadGrid` require at most 32 tokens before
  the first `-`. This follows the 32-row bound of `Includes/Configuration.h`. The C loop checks no
  row count. It only overflows the 1024-cell buffer when rows × columns exceeds 1024, so 64 rows of
  16 letters load fine in C. The requirement also excludes files with more than 32 tokens before
  `-` that C rejects cleanly at an early bad row.
- The same two methods require non-empty row tokens, which `fscanf("%s")` always yields. They and
  the token-reading methods require tokens without a NUL character, which a token read as a C
  string cannot hold.
- The 256-byte `fscanf` buffer and its possible overflow are left out. Tokens have any length.
- `GridStore.Grid.MatchWordWithPosition` requires a NUL-free word shorter than 32 characters,
  which is what a C string fits in the 32-byte temporary buffer. It does not require a non-empty
  word or an in-grid start. As in C, an empty word matches in the first direction whose room
  check passes, and nothing is flagged.
- `GridStore.Grid.LoadFromTokens` and `GridStore.Grid.LoadGrid` require zero rows and columns, so
  only a first load is modelled. A second `GridLoadFromFile` in C would keep the old counters while
  its cell pointer restarts at cell 0. `Sources/Main.c` loads once.
- `int` overflow of the coordinate arithmetic is left out: coordinates are unbounded integers.
- The memory leak when a non-empty list is initialised again is left out.
