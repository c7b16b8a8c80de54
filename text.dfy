/** The parts of java.lang.StringBuilder and String.toCharArray that the core uses. */
module Text {

  class StringBuilder {
    var chars: string

    constructor ()
      ensures chars == []
    {
      chars := [];
    }

    method Append(s: string)
      modifies this
      ensures chars == old(chars) + s
    {
      chars := chars + s;
    }

    /** deleteCharAt(i); Java throws for an index outside the builder. */
    method DeleteCharAt(i: nat)
      requires i < |chars|
      modifies this
      ensures chars == old(chars[..i] + chars[i + 1..])
    {
      chars := chars[..i] + chars[i + 1..];
    }

    /** insert(i, ch); Java throws for an offset beyond the length. */
    method Insert(i: nat, ch: char)
      requires i <= |chars|
      modifies this
      ensures chars == old(chars[..i] + [ch] + chars[i..])
    {
      chars := chars[..i] + [ch] + chars[i..];
    }

    /** delete(0, length()) empties the builder. */
    method Clear()
      modifies this
      ensures chars == []
    {
      chars := [];
    }

    method ToString() returns (s: string)
      ensures s == chars
    {
      s := chars;
    }
  }

  /** String.toCharArray: a fresh array holding the characters of `s`. */
  method ToCharArray(s: string) returns (c: array<char>)
    ensures fresh(c) && c[..] == s
  {
    c := new char[|s|](i requires 0 <= i < |s| => s[i]);
  }
}
