/**
 * The candidate generators of SpellCorrector.  Each adds its candidates to the set it
 * is given and returns the enlarged set, which the corrector stores back into its
 * alterationSet.
 */
module Generators {
  import opened Edits
  import opened Text

  /** callFourEditDistances: the candidates one edit away from inputWord. */
  method CallFourEditDistances(inputWord: string, candidates: set<string>) returns (alterationSet: set<string>)
    ensures alterationSet == candidates + Edits1(inputWord)
  {
    alterationSet := DeletionDistance(inputWord, candidates);
    alterationSet := TranspositionDistance(inputWord, alterationSet);
    alterationSet := AlterationDistance(inputWord, alterationSet);
    alterationSet := InsertionDistance(inputWord, alterationSet);
  }

  /** deletionDistance: each position deleted in turn, through a StringBuilder. */
  method DeletionDistance(inputWord: string, candidates: set<string>) returns (alterationSet: set<string>)
    ensures alterationSet == candidates + Deletions(inputWord)
  {
    alterationSet := candidates;
    var sb := new StringBuilder();
    BelowBounds(inputWord);
    for i := 0 to |inputWord|
      invariant sb.chars == []
      invariant alterationSet == candidates + DeletionsBelow(inputWord, i)
    {
      sb.Append(inputWord);
      sb.DeleteCharAt(i);
      var s := sb.ToString();
      assert s == Delete(inputWord, i) by {
        assert [] + inputWord == inputWord;
      }
      DeletionsNext(inputWord, i);
      AddStep(alterationSet, candidates, DeletionsBelow(inputWord, i), DeletionsBelow(inputWord, i + 1), {s});
      alterationSet := alterationSet + {s};
      sb.Clear();
    }
  }

  /** transpositionDistance: each adjacent pair swapped in a char array, which is then reset. */
  method TranspositionDistance(inputWord: string, candidates: set<string>) returns (alterationSet: set<string>)
    ensures alterationSet == candidates + Transpositions(inputWord)
  {
    alterationSet := candidates;
    var c := ToCharArray(inputWord);
    var temp: char;
    BelowBounds(inputWord);
    var i := 0;
    while i < |inputWord| - 1
      invariant 0 <= i && (|inputWord| > 0 ==> i <= |inputWord| - 1)
      invariant fresh(c) && c[..] == inputWord
      invariant alterationSet == candidates + TranspositionsBelow(inputWord, i)
    {
      temp := c[i];
      c[i] := c[i + 1];
      c[i + 1] := temp;
      assert c[..] == Swap(inputWord, i);
      TranspositionsNext(inputWord, i);
      AddStep(alterationSet, candidates, TranspositionsBelow(inputWord, i), TranspositionsBelow(inputWord, i + 1), {c[..]});
      // String.valueOf(c)
      alterationSet := alterationSet + {c[..]};
      c := ToCharArray(inputWord);
      i := i + 1;
    }
  }

  /** alterationDistance: each position overwritten with every letter 'a'..'z' in a char array. */
  method AlterationDistance(inputWord: string, candidates: set<string>) returns (alterationSet: set<string>)
    ensures alterationSet == candidates + Alterations(inputWord)
  {
    alterationSet := candidates;
    var c: array<char>;
    BelowBounds(inputWord);
    for index := 0 to |inputWord|
      invariant alterationSet == candidates + AlterationsBelow(inputWord, index, 'a')
    {
      c := ToCharArray(inputWord);
      var letter := 'a';
      while letter <= 'z'
        invariant 'a' <= letter <= '{'
        invariant fresh(c) && c.Length == |inputWord|
        invariant forall j | 0 <= j < c.Length && j != index :: c[j] == inputWord[j]
        invariant alterationSet == candidates + AlterationsBelow(inputWord, index, letter)
      {
        c[index] := letter;
        assert c[..] == Substitute(inputWord, index, letter);
        AlterationsNext(inputWord, index, letter);
        AddStep(alterationSet, candidates, AlterationsBelow(inputWord, index, letter),
                AlterationsBelow(inputWord, index, (letter as int + 1) as char), {c[..]});
        alterationSet := alterationSet + {c[..]};
        letter := (letter as int + 1) as char;
      }
      AlterationsWrap(inputWord, index);
    }
  }

  /** insertionDistance: every letter 'a'..'z' inserted at every position, through a StringBuilder. */
  method InsertionDistance(inputWord: string, candidates: set<string>) returns (alterationSet: set<string>)
    ensures alterationSet == candidates + Insertions(inputWord)
  {
    alterationSet := candidates;
    var sb := new StringBuilder();
    BelowBounds(inputWord);
    for i := 0 to |inputWord| + 1
      invariant sb.chars == []
      invariant alterationSet == candidates + InsertionsBelow(inputWord, i, 'a')
    {
      var letter := 'a';
      while letter <= 'z'
        invariant 'a' <= letter <= '{'
        invariant sb.chars == []
        invariant alterationSet == candidates + InsertionsBelow(inputWord, i, letter)
      {
        sb.Append(inputWord);
        sb.Insert(i, letter);
        var s := sb.ToString();
        assert s == Insert(inputWord, i, letter) by {
          assert [] + inputWord == inputWord;
        }
        InsertionsNext(inputWord, i, letter);
        AddStep(alterationSet, candidates, InsertionsBelow(inputWord, i, letter),
                InsertionsBelow(inputWord, i, (letter as int + 1) as char), {s});
        alterationSet := alterationSet + {s};
        sb.Clear();
        letter := (letter as int + 1) as char;
      }
      InsertionsWrap(inputWord, i);
    }
  }

  /**
   * The loop of editDistanceTwo: the edits of every member of a copy of the candidate
   * set are added to the set.
   */
  method ExpandCandidates(candidates: set<string>) returns (alterationSet: set<string>)
    ensures alterationSet == candidates + Expand(candidates)
  {
    alterationSet := candidates;
    var newAlterationSet := candidates;
    var rest := newAlterationSet;
    ghost var done: set<string> := {};
    ExpandStep({}, "");
    while rest != {}
      invariant done == newAlterationSet - rest
      invariant alterationSet == newAlterationSet + Expand(done)
      decreases rest
    {
      var s :| s in rest;
      ExpandStep(done, s);
      AddStep(alterationSet, newAlterationSet, Expand(done), Expand(done + {s}), Edits1(s));
      alterationSet := CallFourEditDistances(s, alterationSet);
      rest := rest - {s};
      done := done + {s};
    }
  }
}
