/** The singly linked word list of Sources/Word_List.c (types in Includes/Word_List.h). */
module WordLists {
  import opened Configuration

  /**
   * TWordListItem: a copy of one word and the link to the next item. Items are never
   * changed once they are linked, so their fields are constants.
   */
  class WordListItem {
    const word: string
    const next: WordListItem?
    /** How many items are reachable from this one, itself included. */
    ghost const length: nat

    ghost predicate Valid()
      decreases length
    {
      && |word| < WordMaximumStringSize
      && (next == null ==> length == 1)
      && (next != null ==> next.length + 1 == length && next.Valid())
    }

    constructor (word: string, next: WordListItem?)
      requires |word| < WordMaximumStringSize
      requires next != null ==> next.Valid()
      ensures Valid() && this.word == word && this.next == next
    {
      this.word := word;
      this.next := next;
      this.length := if next == null then 1 else next.length + 1;
    }
  }

  /** The words met by following the links from item to the end of the list. */
  ghost function Words(item: WordListItem?): seq<string>
    requires item != null ==> item.Valid()
    decreases if item == null then 0 else item.length
  {
    if item == null then [] else [item.word] + Words(item.next)
  }

  /** TWordList: the head of the chain and the Size counter. */
  class WordList {
    var size: int
    var head: WordListItem?

    /** Size is the number of items reachable from the head. */
    ghost predicate Valid()
      reads this
    {
      && (head != null ==> head.Valid())
      && size == |Words(head)|
    }

    /** The words of the list, from the head. */
    ghost function Contents(): seq<string>
      reads this
      requires Valid()
    {
      Words(head)
    }

    /** A list as the program's static storage holds it before anything runs: zero size, no head. */
    constructor ()
      ensures Valid() && Contents() == [] && size == 0
    {
      size := 0;
      head := null;
    }

    /** WordListInitialize: the list becomes empty. */
    method Initialize()
      modifies this
      ensures Valid() && Contents() == [] && size == 0 && head == null
    {
      size := 0;
      head := null;
    }

    /**
     * WordListInsert: copies the word into a new item linked at the head. The word is the
     * content of a C string, a value, so the item's copy is never affected by later changes
     * to the caller's buffer. Whether malloc succeeds is a parameter.
     */
    method Insert(word: string, allocationSucceeds: bool) returns (r: int)
      requires Valid()
      modifies this
      ensures Valid()
      ensures r == (if |word| >= WordMaximumStringSize then -2 else if !allocationSucceeds then -1 else 0)
      ensures r == 0 ==> Contents() == [word] + old(Contents()) && size == old(size) + 1 && fresh(head)
      ensures r != 0 ==> Contents() == old(Contents()) && size == old(size) && head == old(head)
    {
      if |word| >= WordMaximumStringSize {
        return -2;
      }
      if !allocationSucceeds {
        return -1;
      }
      var item := new WordListItem(word, head);
      head := item;
      size := size + 1;
      return 0;
    }
  }

  function Reversed(s: seq<string>): (r: seq<string>)
    ensures |r| == |s|
  {
    if s == [] then [] else Reversed(s[1..]) + [s[0]]
  }

  /** Reversal read from its other end: the last element comes first. */
  lemma {:induction false} ReversedAt(s: seq<string>, k: nat)
    requires k < |s|
    ensures Reversed(s)[k] == s[|s| - 1 - k]
  {
    if k < |s| - 1 {
      ReversedAt(s[1..], k);
    }
  }

  lemma {:induction false} ReversedAppend(s: seq<string>, w: string)
    ensures Reversed(s + [w]) == [w] + Reversed(s)
  {
    if s == [] {
      assert s + [w] == [w];
    } else {
      assert (s + [w])[1..] == s[1..] + [w];
      ReversedAppend(s[1..], w);
    }
  }

  /** The contents of a list after Insert has succeeded on each of the words, in order. */
  ghost function AfterInsertions(contents: seq<string>, words: seq<string>): seq<string>
    decreases |words|
  {
    if words == [] then contents else AfterInsertions([words[0]] + contents, words[1..])
  }

  /** Head insertion: after inserting w1..wn the list reads wn..w1 followed by what it held. */
  lemma {:induction false} InsertionsReverse(contents: seq<string>, words: seq<string>)
    ensures AfterInsertions(contents, words) == Reversed(words) + contents
    decreases |words|
  {
    if words != [] {
      InsertionsReverse([words[0]] + contents, words[1..]);
      assert Reversed(words) == Reversed(words[1..]) + [words[0]];
    }
  }
}
