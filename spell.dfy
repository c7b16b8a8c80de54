/**
 * spell.SpellCorrector: a dictionary trie and the three collections one suggestion is
 * computed in — the candidate set (alterationSet), the candidates found in the
 * dictionary with their frequencies (possibleWordMap) and the most frequent of those
 * (suggestedWord).
 */
module Spell {
  import opened Wrappers
  import opened Alphabet
  import opened Edits
  import opened Ranking
  import Lex
  import Tries
  import opened Generators

  /**
   * The answer to suggestSimilarWord(w) for a dictionary `words`: w itself when it is a
   * dictionary word; otherwise the best dictionary word one edit away; otherwise the best
   * dictionary word among the candidates of both rounds; otherwise none.
   */
  ghost function Suggestion(words: map<string, nat>, w: string): Option<string> {
    if w in words then Some(ToLowerWord(w))
    else
      var near := Matches(Edits1(w), words);
      if near != map[] then Some(Best(near))
      else
        var far := Matches(Edits1(w) + Expand(Edits1(w)), words);
        if far != map[] then Some(Best(far)) else None
  }

  /** A dictionary word is answered with itself; any other answer is a dictionary word within two edits. */
  lemma SuggestionSound(words: map<string, nat>, w: string)
    requires IsWord(w)
    ensures w in words ==> Suggestion(words, w) == Some(w)
    ensures Suggestion(words, w).Some? ==> Suggestion(words, w).value in words
    ensures w !in words && Suggestion(words, w).Some? ==>
              Suggestion(words, w).value in Edits1(w) + Expand(Edits1(w))
  {
  }

  /** There is no answer exactly when neither w nor any string within two edits of it is a dictionary word. */
  lemma SuggestionNone(words: map<string, nat>, w: string)
    ensures Suggestion(words, w).None? <==>
              w !in words && forall s | s in Edits1(w) + Expand(Edits1(w)) :: s !in words
  {
    var far := Matches(Edits1(w) + Expand(Edits1(w)), words);
    if w !in words && far == map[] {
      forall s | s in Edits1(w) + Expand(Edits1(w))
        ensures s !in words
      {
        assert s in words ==> s in far;
      }
    }
  }

  /**
   * A dictionary word one edit away always beats the second round: the answer is then
   * itself one edit away, at least as frequent as s, and not after s when as frequent.
   */
  lemma SuggestionPrefersOneEdit(words: map<string, nat>, w: string, s: string)
    requires w !in words && s in Edits1(w) && s in words
    ensures Suggestion(words, w).Some?
    ensures Suggestion(words, w).value in Edits1(w) && Suggestion(words, w).value in words
    ensures words[s] <= words[Suggestion(words, w).value]
    ensures words[s] == words[Suggestion(words, w).value] ==> Lex.LessEq(Suggestion(words, w).value, s)
  {
    var near := Matches(Edits1(w), words);
    assert s in near;
  }

  /**
   * Without a dictionary word one edit away, the answer is at least as frequent as any
   * dictionary word two edits away, and not after it when as frequent.
   */
  lemma SuggestionSecondRound(words: map<string, nat>, w: string, s: string)
    requires w !in words && Matches(Edits1(w), words) == map[]
    requires s in Expand(Edits1(w)) && s in words
    ensures Suggestion(words, w).Some?
    ensures words[s] <= words[Suggestion(words, w).value]
    ensures words[s] == words[Suggestion(words, w).value] ==> Lex.LessEq(Suggestion(words, w).value, s)
  {
    var far := Matches(Edits1(w) + Expand(Edits1(w)), words);
    assert s in far;
  }

  class SpellCorrector {
    var trie: Tries.Trie
    var alterationSet: set<string>
    var possibleWordMap: map<string, nat>
    var suggestedWord: map<string, nat>

    /** The trie is well formed and every candidate can be looked up in it. */
    ghost predicate Valid()
      reads this, trie
    {
      trie.Valid() && forall s | s in alterationSet :: IsWord(s)
    }

    /** new SpellCorrector(): an empty dictionary and empty collections. */
    constructor ()
      ensures Valid() && fresh(trie)
      ensures trie.Words() == map[] && trie.Prefixes() == {[]} && trie.wordCount == 0
      ensures alterationSet == {} && possibleWordMap == map[] && suggestedWord == map[]
    {
      trie := new Tries.Trie();
      alterationSet := {};
      possibleWordMap := map[];
      suggestedWord := map[];
    }

    /** useDictionary: every line of the dictionary is added to the trie, in order. */
    method UseDictionary(lines: seq<string>)
      requires Valid()
      requires forall i | 0 <= i < |lines| :: IsWord(lines[i])
      modifies trie
      ensures Valid()
      ensures trie.Words() == Tries.Tally(old(trie.Words()), lines)
      ensures trie.Prefixes() == old(trie.Prefixes()) + Tries.AllPrefixes(lines)
      ensures trie.wordCount == old(trie.wordCount) + |lines|
      ensures trie.nodeCount == |trie.Prefixes()|
    {
      ghost var words0, prefixes0, count0 := trie.Words(), trie.Prefixes(), trie.wordCount;
      for i := 0 to |lines|
        invariant trie.Valid()
        invariant trie.Words() == Tries.Tally(words0, lines[..i])
        invariant trie.Prefixes() == prefixes0 + Tries.AllPrefixes(lines[..i])
        invariant trie.wordCount == count0 + i
      {
        trie.Add(lines[i]);
        Tries.TallyStep(words0, prefixes0, lines, i, trie.Words(), trie.Prefixes());
      }
      assert lines[..|lines|] == lines;
    }

    /**
     * suggestSimilarWord: the collections are cleared, the answer is Suggestion's, and the
     * collections are left as Collections describes.
     */
    method SuggestSimilarWord(inputWord: string) returns (r: Option<string>)
      requires Valid() && IsWord(inputWord)
      modifies this`alterationSet, this`possibleWordMap, this`suggestedWord
      ensures Valid()
      ensures r == Suggestion(trie.Words(), inputWord)
      ensures (alterationSet, possibleWordMap, suggestedWord) == Collections(trie.Words(), inputWord)
    {
      r, alterationSet, possibleWordMap, suggestedWord := Suggest(trie, inputWord);
    }
  }

  /** The candidates suggestSimilarWord leaves in alterationSet when w is not a dictionary word. */
  ghost function Candidates(words: map<string, nat>, w: string): set<string> {
    if Matches(Edits1(w), words) != map[] then Edits1(w) else Edits1(w) + Expand(Edits1(w))
  }

  /** alterationSet, possibleWordMap and suggestedWord after suggestSimilarWord(w). */
  ghost function Collections(words: map<string, nat>, w: string)
    : (set<string>, map<string, nat>, map<string, nat>)
  {
    if w in words then ({}, map[], map[])
    else
      var candidates := Candidates(words, w);
      var found := Matches(candidates, words);
      (candidates, found, Ties(found))
  }

  /** The body of suggestSimilarWord, computing on fresh empty collections. */
  method Suggest(trie: Tries.Trie, inputWord: string)
    returns (r: Option<string>, alterationSet: set<string>,
             possibleWordMap: map<string, nat>, suggestedWord: map<string, nat>)
    requires trie.Valid() && IsWord(inputWord)
    ensures r == Suggestion(trie.Words(), inputWord)
    ensures (alterationSet, possibleWordMap, suggestedWord) == Collections(trie.Words(), inputWord)
    ensures forall s | s in alterationSet :: IsWord(s)
  {
    ghost var words := trie.Words();
    alterationSet, possibleWordMap, suggestedWord := {}, map[], map[];
    var found := trie.Find(inputWord);
    if found == None {
      alterationSet := CallFourEditDistances(inputWord, alterationSet);
      EditsOfWords({}, inputWord);
      possibleWordMap := AddEditedWordsToNewMap(trie, alterationSet, possibleWordMap);
      var similarWord;
      similarWord, suggestedWord := FindWordWithHighestFrequency(possibleWordMap, suggestedWord);
      RoundOne(words, inputWord, alterationSet, possibleWordMap, similarWord, suggestedWord);
      if similarWord == None {
        ghost var S1 := alterationSet;
        similarWord, alterationSet, possibleWordMap, suggestedWord :=
          EditDistanceTwo(trie, alterationSet, possibleWordMap, suggestedWord);
        RoundTwo(words, inputWord, S1, alterationSet, possibleWordMap, similarWord, suggestedWord);
      }
      r := similarWord;
    } else {
      r := Some(ToLowerWord(inputWord));
    }
  }

  /** What the first round establishes: an answer when some candidate is a dictionary word. */
  lemma RoundOne(words: map<string, nat>, w: string, S: set<string>, pwm: map<string, nat>,
                 r: Option<string>, sw: map<string, nat>)
    requires w !in words
    requires S == {} + Edits1(w) && pwm == map[] + Matches(S, words)
    requires r.None? <==> pwm == map[]
    requires r.None? ==> sw == map[]
    requires r.Some? ==> sw == map[] + Ties(pwm) && r.value == Best(pwm)
    ensures r.Some? ==> r == Suggestion(words, w) && (S, pwm, sw) == Collections(words, w)
    ensures r.None? ==> S == Edits1(w) && Matches(Edits1(w), words) == map[] && pwm == map[] && sw == map[]
  {
    EmptyUnion(Edits1(w));
    EmptyOverride(Matches(S, words));
    EmptyOverride(Ties(pwm));
  }

  /** What the second round establishes, once the first found nothing. */
  lemma RoundTwo(words: map<string, nat>, w: string, S1: set<string>, S: set<string>,
                 pwm: map<string, nat>, r: Option<string>, sw: map<string, nat>)
    requires w !in words && S1 == Edits1(w) && Matches(Edits1(w), words) == map[]
    requires S == S1 + Expand(S1) && pwm == map[] + Matches(S, words)
    requires r.None? <==> pwm == map[]
    requires r.None? ==> sw == map[]
    requires r.Some? ==> sw == map[] + Ties(pwm) && r.value == Best(pwm)
    ensures r == Suggestion(words, w) && (S, pwm, sw) == Collections(words, w)
  {
    EmptyOverride(Matches(S, words));
    EmptyOverride(Ties(pwm));
  }

  /** editDistanceTwo: one more edit of every candidate, then the ranking over all candidates. */
  method EditDistanceTwo(trie: Tries.Trie, candidates: set<string>, possibleWords: map<string, nat>,
                         suggested: map<string, nat>)
    returns (r: Option<string>, alterationSet: set<string>,
             possibleWordMap: map<string, nat>, suggestedWord: map<string, nat>)
    requires trie.Valid() && forall s | s in candidates :: IsWord(s)
    ensures forall s | s in alterationSet :: IsWord(s)
    ensures alterationSet == candidates + Expand(candidates)
    ensures possibleWordMap == possibleWords + Matches(alterationSet, trie.Words())
    ensures r.None? <==> possibleWordMap == map[]
    ensures r.None? ==> suggestedWord == suggested
    ensures r.Some? ==> suggestedWord == suggested + Ties(possibleWordMap)
    ensures r.Some? && suggested == map[] ==> r.value == Best(possibleWordMap)
  {
    ExpandWords(candidates);
    alterationSet := ExpandCandidates(candidates);
    possibleWordMap := AddEditedWordsToNewMap(trie, alterationSet, possibleWords);
    r, suggestedWord := FindWordWithHighestFrequency(possibleWordMap, suggested);
  }

  /**
   * addEditedWordsToNewMap: every candidate found in the trie is put into the map with
   * its frequency.
   */
  method AddEditedWordsToNewMap(trie: Tries.Trie, alterationSet: set<string>, possibleWords: map<string, nat>)
    returns (possibleWordMap: map<string, nat>)
    requires trie.Valid() && forall s | s in alterationSet :: IsWord(s)
    ensures possibleWordMap == possibleWords + Matches(alterationSet, trie.Words())
  {
    possibleWordMap := possibleWords;
    var rest := alterationSet;
    ghost var done: set<string> := {};
    while rest != {}
      invariant done == alterationSet - rest
      invariant possibleWordMap == possibleWords + Matches(done, trie.Words())
      decreases rest
    {
      var s :| s in rest;
      var n := trie.Find(s);
      MatchesStep(done, s, trie.Words());
      if n != None {
        OverridePut(possibleWords, Matches(done, trie.Words()), s, n.value.GetValue());
        possibleWordMap := possibleWordMap[s := n.value.GetValue()];
      }
      rest := rest - {s};
      done := done + {s};
    }
    assert done == alterationSet;
  }

  /**
   * findWordWithHighestFrequency: the most frequent entries of possibleWordMap are put
   * into suggestedWord, and the least key of suggestedWord is returned; none when
   * possibleWordMap is empty.
   */
  method FindWordWithHighestFrequency(possibleWordMap: map<string, nat>, suggested: map<string, nat>)
    returns (r: Option<string>, suggestedWord: map<string, nat>)
    ensures r.None? <==> possibleWordMap == map[]
    ensures r.None? ==> suggestedWord == suggested
    ensures r.Some? ==> suggestedWord == suggested + Ties(possibleWordMap)
    ensures r.Some? ==> r.value in suggestedWord && forall k | k in suggestedWord :: Lex.LessEq(r.value, k)
    ensures r.Some? && suggested == map[] ==> r.value == Best(possibleWordMap)
  {
    suggestedWord := suggested;
    if |possibleWordMap| > 0 {
      var highest := HighestFrequency(possibleWordMap);
      TiesOfMax(possibleWordMap, highest);
      suggestedWord := PutTies(possibleWordMap, highest, suggestedWord);
      var first := Lex.FirstKey(suggestedWord);
      if suggested == map[] {
        LeastTieIsBest(possibleWordMap, first);
      }
      return Some(first), suggestedWord;
    }
    return None, suggestedWord;
  }

  /** The first loop of findWordWithHighestFrequency: the largest value, starting from 0. */
  method HighestFrequency(possibleWordMap: map<string, nat>) returns (highest: nat)
    ensures forall k | k in possibleWordMap :: possibleWordMap[k] <= highest
    ensures highest == 0 || exists k | k in possibleWordMap :: possibleWordMap[k] == highest
  {
    highest := 0;
    var rest := possibleWordMap.Keys;
    while rest != {}
      invariant rest <= possibleWordMap.Keys
      invariant forall k | k in possibleWordMap && k !in rest :: possibleWordMap[k] <= highest
      invariant highest == 0 || exists k | k in possibleWordMap :: possibleWordMap[k] == highest
      decreases rest
    {
      var key :| key in rest;
      if possibleWordMap[key] > highest {
        highest := possibleWordMap[key];
      }
      rest := rest - {key};
    }
  }

  /** The second loop of findWordWithHighestFrequency: every entry of value highest is put. */
  method PutTies(possibleWordMap: map<string, nat>, highest: nat, suggested: map<string, nat>)
    returns (suggestedWord: map<string, nat>)
    ensures suggestedWord == suggested + TiedAmong(possibleWordMap, possibleWordMap.Keys, highest)
  {
    suggestedWord := suggested;
    var rest := possibleWordMap.Keys;
    ghost var done: set<string> := {};
    while rest != {}
      invariant rest <= possibleWordMap.Keys && done == possibleWordMap.Keys - rest
      invariant suggestedWord == suggested + TiedAmong(possibleWordMap, done, highest)
      decreases rest
    {
      var key :| key in rest;
      TiedAmongStep(possibleWordMap, done, key, highest);
      if highest == possibleWordMap[key] {
        OverridePut(suggested, TiedAmong(possibleWordMap, done, highest), key, highest);
        suggestedWord := suggestedWord[key := possibleWordMap[key]];
      }
      rest := rest - {key};
      done := done + {key};
    }
    assert done == possibleWordMap.Keys;
  }
}
