/** Character validation of the grid rows and searched words (GridValidateString in Sources/Grid.c). */
module Characters {

  predicate IsUpperLetter(c: char) { 'A' <= c <= 'Z' }

  predicate IsLowerLetter(c: char) { 'a' <= c <= 'z' }

  /** A C string never contains its terminator. */
  predicate NoNul(s: string) { forall i :: 0 <= i < |s| ==> s[i] != '\0' }

  /** What GridValidateString does to one character: a lowercase letter loses 32, anything else is kept. */
  function ToUpper(c: char): (u: char)
    ensures IsUpperLetter(u) <==> IsUpperLetter(c) || IsLowerLetter(c)
    ensures IsLowerLetter(c) ==> u as int + 32 == c as int
    ensures !IsLowerLetter(c) ==> u == c
  {
    if IsLowerLetter(c) then (c as int - 32) as char else c
  }

  /** The string once every lowercase letter is converted. */
  function Upper(s: string): string
  {
    seq(|s|, i requires 0 <= i < |s| => ToUpper(s[i]))
  }

  /** The string passes validation: every character is an uppercase letter once converted. */
  ghost predicate ValidString(s: string)
  {
    forall i :: 0 <= i < |s| ==> IsUpperLetter(ToUpper(s[i]))
  }

  /** The position of the first character that fails validation, or |s| when there is none. */
  function FirstInvalid(s: string): (k: nat)
    ensures k <= |s|
    ensures forall i :: 0 <= i < k ==> IsUpperLetter(ToUpper(s[i]))
    ensures k < |s| ==> !IsUpperLetter(ToUpper(s[k]))
  {
    if |s| == 0 then 0
    else if !IsUpperLetter(ToUpper(s[0])) then 0
    else 1 + FirstInvalid(s[1..])
  }

  /** Validation succeeds exactly on the strings made of letters of either case. */
  lemma ValidStringIsLetters(s: string)
    ensures ValidString(s) <==> forall i :: 0 <= i < |s| ==> IsUpperLetter(s[i]) || IsLowerLetter(s[i])
  {
  }

  /** No invalid character is found exactly when the string is valid. */
  lemma FirstInvalidIsLength(s: string)
    ensures FirstInvalid(s) == |s| <==> ValidString(s)
  {
  }

  /** A valid string converts to uppercase letters only, and conversion is then the identity. */
  lemma {:induction false} UpperOfValid(s: string)
    requires ValidString(s)
    ensures |Upper(s)| == |s|
    ensures forall i :: 0 <= i < |s| ==> IsUpperLetter(Upper(s)[i])
    ensures Upper(Upper(s)) == Upper(s)
  {
  }

  /**
   * GridValidateString: converts the string to uppercase in place, stopping at the first
   * character that is not a letter. The array holds the characters of the C string.
   */
  method ValidateString(s: array<char>) returns (r: int)
    requires NoNul(s[..])
    modifies s
    ensures var k := FirstInvalid(old(s[..]));
      && (r == 0 || r == 1)
      && (r == 0 <==> k == s.Length)
      && (forall i :: 0 <= i < k ==> s[i] == ToUpper(old(s[i])))
      && (forall i :: k <= i < s.Length ==> s[i] == old(s[i]))
  {
    ghost var original := s[..];
    var i := 0;
    while i < s.Length
      invariant 0 <= i <= FirstInvalid(original)
      invariant forall k :: 0 <= k < i ==> s[k] == ToUpper(original[k])
      invariant forall k :: i <= k < s.Length ==> s[k] == original[k]
    {
      var character := s[i];
      if IsLowerLetter(character) {
        character := (character as int - 32) as char;
        s[i] := character;
      }
      if !IsUpperLetter(character) {
        return 1;
      }
      i := i + 1;
    }
    return 0;
  }

  /** On success the array holds the uppercase form of its former content. */
  lemma ValidatedIsUpper(before: string, after: string)
    requires |after| == |before| && FirstInvalid(before) == |before|
    requires forall i :: 0 <= i < FirstInvalid(before) ==> after[i] == ToUpper(before[i])
    ensures ValidString(before) && after == Upper(before)
  {
  }
}
