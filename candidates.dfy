/**
 * The four one-edit operators of SpellCorrector and the candidate sets they produce:
 * deletion of one character, transposition of two adjacent characters, alteration of
 * one character to a letter 'a'..'z', and insertion of a letter at any position.
 */
module Edits {
  import opened Alphabet

  /** `w` with the character at i removed (deleteCharAt(i) on a copy of w). */
  function Delete(w: string, i: nat): string
    requires i < |w|
  {
    w[..i] + w[i + 1..]
  }

  /** `w` with the characters at i and i + 1 exchanged. */
  function Swap(w: string, i: nat): string
    requires i + 1 < |w|
  {
    w[i := w[i + 1]][i + 1 := w[i]]
  }

  /** `w` with the character at i replaced by `ch`. */
  function Substitute(w: string, i: nat, ch: char): string
    requires i < |w|
  {
    w[i := ch]
  }

  /** `w` with `ch` inserted before position i (insert(i, ch) on a copy of w). */
  function Insert(w: string, i: nat, ch: char): string
    requires i <= |w|
  {
    w[..i] + [ch] + w[i..]
  }

  predicate IsLetter(ch: char) {
    'a' <= ch <= 'z'
  }

  /** Every string deletionDistance(w) adds. */
  ghost function Deletions(w: string): set<string> {
    set i: nat | i < |w| :: Delete(w, i)
  }

  /** Every string transpositionDistance(w) adds. */
  ghost function Transpositions(w: string): set<string> {
    set i: nat | i + 1 < |w| :: Swap(w, i)
  }

  /** Every string alterationDistance(w) adds. */
  ghost function Alterations(w: string): set<string> {
    set i: nat, ch: char | i < |w| && IsLetter(ch) :: Substitute(w, i, ch)
  }

  /** Every string insertionDistance(w) adds. */
  ghost function Insertions(w: string): set<string> {
    set i: nat, ch: char | i <= |w| && IsLetter(ch) :: Insert(w, i, ch)
  }

  /** What callFourEditDistances(w) adds: the strings one edit away from w. */
  ghost function Edits1(w: string): set<string> {
    Deletions(w) + Transpositions(w) + Alterations(w) + Insertions(w)
  }

  /** What editDistanceTwo adds for a candidate set S: one more edit of each member of S. */
  ghost function Expand(S: set<string>): set<string> {
    set s, t | s in S && t in Edits1(s) :: t
  }

  /**
   * The partial sets the generator loops have added after their outer index reached
   * i (and, for the two nested loops, their letter reached `letter`).
   */
  ghost function DeletionsBelow(w: string, n: nat): set<string> {
    set i: nat | i < n && i < |w| :: Delete(w, i)
  }

  ghost function TranspositionsBelow(w: string, n: nat): set<string> {
    set i: nat | i < n && i + 1 < |w| :: Swap(w, i)
  }

  ghost function AlterationsBelow(w: string, n: nat, letter: char): set<string> {
    (set i: nat, ch: char | i < n && i < |w| && IsLetter(ch) :: Substitute(w, i, ch)) +
    (set ch: char | n < |w| && 'a' <= ch < letter :: Substitute(w, n, ch))
  }

  ghost function InsertionsBelow(w: string, n: nat, letter: char): set<string> {
    (set i: nat, ch: char | i < n && i <= |w| && IsLetter(ch) :: Insert(w, i, ch)) +
    (set ch: char | n <= |w| && 'a' <= ch < letter :: Insert(w, n, ch))
  }

  /** The sizes of the candidates: deletion shortens by one, insertion lengthens by one. */
  lemma CandidateLengths(w: string, s: string)
    ensures s in Deletions(w) ==> |s| == |w| - 1
    ensures s in Transpositions(w) || s in Alterations(w) ==> |s| == |w|
    ensures s in Insertions(w) ==> |s| == |w| + 1
  {
    if s in Deletions(w) {
      var i: nat :| i < |w| && s == Delete(w, i);
    }
    if s in Insertions(w) {
      var i: nat, ch :| i <= |w| && IsLetter(ch) && s == Insert(w, i, ch);
    }
  }

  /** Deleting from or inserting a letter into a lower-case word gives a lower-case word. */
  lemma DeleteIsWord(w: string, i: nat)
    requires IsWord(w) && i < |w|
    ensures IsWord(Delete(w, i))
  {
    var s := Delete(w, i);
    assert forall j | 0 <= j < |s| :: s[j] == if j < i then w[j] else w[j + 1];
  }

  lemma InsertIsWord(w: string, i: nat, ch: char)
    requires IsWord(w) && i <= |w| && IsLetter(ch)
    ensures IsWord(Insert(w, i, ch))
  {
    var s := Insert(w, i, ch);
    assert forall j | 0 <= j < |s| :: s[j] == if j < i then w[j] else if j == i then ch else w[j - 1];
  }

  /** Editing a lower-case word gives lower-case words only. */
  lemma EditsAreWords(w: string, s: string)
    requires IsWord(w) && s in Edits1(w)
    ensures IsWord(s)
  {
    if s in Deletions(w) {
      var i: nat :| i < |w| && s == Delete(w, i);
      DeleteIsWord(w, i);
    } else if s in Insertions(w) {
      var i: nat, ch :| i <= |w| && IsLetter(ch) && s == Insert(w, i, ch);
      InsertIsWord(w, i, ch);
    } else if s in Alterations(w) {
      var i: nat, ch :| i < |w| && IsLetter(ch) && s == Substitute(w, i, ch);
    } else {
      var i: nat :| i + 1 < |w| && s == Swap(w, i);
    }
  }

  lemma EditsOfWords(S: set<string>, w: string)
    requires forall s | s in S :: IsWord(s)
    requires IsWord(w)
    ensures forall s | s in S + Edits1(w) :: IsWord(s)
  {
    forall s | s in Edits1(w)
      ensures IsWord(s)
    {
      EditsAreWords(w, s);
    }
  }

  /** A non-empty word is one alteration away from itself (each letter may be replaced by itself). */
  lemma AlterationsContainWord(w: string)
    requires IsWord(w) && |w| > 0
    ensures w in Alterations(w)
  {
    assert Substitute(w, 0, w[0]) == w;
  }

  /** Deleting the inserted character gives the word back. */
  lemma DeleteUndoesInsert(w: string, i: nat, ch: char)
    requires i <= |w|
    ensures Delete(Insert(w, i, ch), i) == w
  {
    var s := Insert(w, i, ch);
    assert s[..i] == w[..i] && s[i + 1..] == w[i..];
  }

  /** Inserting the deleted character where it was gives the word back. */
  lemma InsertUndoesDelete(w: string, i: nat)
    requires i < |w|
    ensures Insert(Delete(w, i), i, w[i]) == w
  {
    var d := Delete(w, i);
    assert d[..i] == w[..i] && d[i..] == w[i + 1..];
  }

  /** Swapping the same pair twice gives the word back. */
  lemma SwapTwice(w: string, i: nat)
    requires i + 1 < |w|
    ensures Swap(Swap(w, i), i) == w
  {
  }

  /** Substituting back the replaced character gives the word back. */
  lemma SubstituteBack(w: string, i: nat, ch: char)
    requires i < |w|
    ensures Substitute(Substitute(w, i, ch), i, w[i]) == w
  {
  }

  /** "One edit apart" is symmetric on lower-case words: each operator has an inverse among the four. */
  lemma Edits1Symmetric(w: string, s: string)
    requires IsWord(w) && s in Edits1(w)
    ensures w in Edits1(s)
  {
    if s in Deletions(w) {
      var i: nat :| i < |w| && s == Delete(w, i);
      InsertUndoesDelete(w, i);
      assert w == Insert(s, i, w[i]);
      assert w in Insertions(s);
    } else if s in Transpositions(w) {
      var i: nat :| i + 1 < |w| && s == Swap(w, i);
      SwapTwice(w, i);
      assert w in Transpositions(s);
    } else if s in Alterations(w) {
      var i: nat, ch :| i < |w| && IsLetter(ch) && s == Substitute(w, i, ch);
      SubstituteBack(w, i, ch);
      assert w == Substitute(s, i, w[i]);
      assert w in Alterations(s);
    } else {
      var i: nat, ch :| i <= |w| && IsLetter(ch) && s == Insert(w, i, ch);
      DeleteUndoesInsert(w, i, ch);
      assert w in Deletions(s);
    }
  }

  /** The loops' partial sets start empty and end as the full candidate sets. */
  lemma BelowBounds(w: string)
    ensures DeletionsBelow(w, 0) == {} && DeletionsBelow(w, |w|) == Deletions(w)
    ensures TranspositionsBelow(w, 0) == {}
    ensures |w| >= 1 ==> TranspositionsBelow(w, |w| - 1) == Transpositions(w)
    ensures |w| == 0 ==> TranspositionsBelow(w, 0) == Transpositions(w)
    ensures AlterationsBelow(w, 0, 'a') == {} && AlterationsBelow(w, |w|, 'a') == Alterations(w)
    ensures InsertionsBelow(w, 0, 'a') == {} && InsertionsBelow(w, |w| + 1, 'a') == Insertions(w)
  {
  }

  /** One more index of the deletion loop adds exactly one deletion. */
  lemma DeletionsNext(w: string, i: nat)
    requires i < |w|
    ensures DeletionsBelow(w, i + 1) == DeletionsBelow(w, i) + {Delete(w, i)}
  {
  }

  lemma TranspositionsNext(w: string, i: nat)
    requires i + 1 < |w|
    ensures TranspositionsBelow(w, i + 1) == TranspositionsBelow(w, i) + {Swap(w, i)}
  {
  }

  /** One more letter of the inner alteration loop adds exactly one substitution. */
  lemma AlterationsNext(w: string, i: nat, letter: char)
    requires i < |w| && IsLetter(letter)
    ensures AlterationsBelow(w, i, (letter as int + 1) as char) ==
            AlterationsBelow(w, i, letter) + {Substitute(w, i, letter)}
  {
  }

  /** Finishing the letters of index i is the same as starting index i + 1 at 'a'. */
  lemma AlterationsWrap(w: string, i: nat)
    requires i < |w|
    ensures AlterationsBelow(w, i, '{') == AlterationsBelow(w, i + 1, 'a')
  {
  }

  lemma InsertionsNext(w: string, i: nat, letter: char)
    requires i <= |w| && IsLetter(letter)
    ensures InsertionsBelow(w, i, (letter as int + 1) as char) ==
            InsertionsBelow(w, i, letter) + {Insert(w, i, letter)}
  {
  }

  lemma InsertionsWrap(w: string, i: nat)
    requires i <= |w|
    ensures InsertionsBelow(w, i, '{') == InsertionsBelow(w, i + 1, 'a')
  {
  }

  /** editDistanceTwo's loop: expanding one more member s adds exactly the edits of s. */
  lemma ExpandStep(D: set<string>, s: string)
    ensures Expand({}) == {}
    ensures Expand(D + {s}) == Expand(D) + Edits1(s)
  {
  }

  /** The candidates of both rounds are lower-case words when the first-round ones are. */
  lemma ExpandWords(S: set<string>)
    requires forall s | s in S :: IsWord(s)
    ensures forall t | t in S + Expand(S) :: IsWord(t)
  {
    forall t | t in Expand(S)
      ensures IsWord(t)
    {
      var s :| s in S && t in Edits1(s);
      EditsAreWords(s, t);
    }
  }

  /** Adding to the empty set gives the added set. */
  lemma EmptyUnion(S: set<string>)
    ensures {} + S == S
  {
  }

  /** The step of every generator loop: adding x to base + before gives base + after. */
  lemma AddStep(S: set<string>, base: set<string>, before: set<string>, after: set<string>, x: set<string>)
    requires S == base + before && after == before + x
    ensures S + x == base + after
  {
  }
}
