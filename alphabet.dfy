/**
 * The mapping between the 26 lower-case letters and the child slots of a trie node
 * (Trie.charToAscii / Trie.asciiToChar), and the words the model works over.
 */
module Alphabet {

  /** Number of child slots of a node, one per letter 'a'..'z'. */
  const AlphabetSize: nat := 26

  /** Character.toLowerCase restricted to ASCII: 'A'..'Z' become 'a'..'z', other characters stay. */
  function ToLower(c: char): char {
    if 'A' <= c <= 'Z' then (c as int + 32) as char else c
  }

  /** String.toLowerCase restricted to ASCII. */
  function ToLowerWord(s: string): (r: string)
    ensures |r| == |s|
    ensures IsWord(s) ==> r == s
  {
    if s == [] then [] else [ToLower(s[0])] + ToLowerWord(s[1..])
  }

  /** A string made only of the letters 'a'..'z' (the empty string included). */
  predicate IsWord(s: string) {
    forall i | 0 <= i < |s| :: 'a' <= s[i] <= 'z'
  }

  /** charToAscii: lower-case the character and subtract 97; in range 0..25 only for letters. */
  function CharToAscii(c: char): (i: int)
    ensures 'a' <= c <= 'z' ==> 0 <= i < AlphabetSize && i == c as int - 'a' as int
    ensures 'A' <= c <= 'Z' ==> 0 <= i < AlphabetSize && i == c as int - 'A' as int
  {
    ToLower(c) as int - 97
  }

  /** asciiToChar: add 97 and convert to a character. */
  function AsciiToChar(i: int): (c: char)
    requires 0 <= i + 97 < 0xD800
    ensures 0 <= i < AlphabetSize ==> 'a' <= c <= 'z'
  {
    (i + 97) as char
  }

  /** Every letter survives the trip to its slot and back. */
  lemma LetterRoundTrip(c: char)
    requires 'a' <= c <= 'z'
    ensures 0 <= CharToAscii(c) < AlphabetSize && AsciiToChar(CharToAscii(c)) == c
  {
  }

  /** Every slot survives the trip to its letter and back. */
  lemma SlotRoundTrip(i: int)
    requires 0 <= i < AlphabetSize
    ensures 'a' <= AsciiToChar(i) <= 'z' && CharToAscii(AsciiToChar(i)) == i
  {
  }

  /** Distinct letters occupy distinct slots. */
  lemma SlotInjective(x: char, y: char)
    requires 'a' <= x <= 'z' && 'a' <= y <= 'z'
    requires CharToAscii(x) == CharToAscii(y)
    ensures x == y
  {
  }
}
