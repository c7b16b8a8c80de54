# spellChecker: a verified model of the trie and the spelling suggester

The program stores a dictionary in a 26-ary trie (`spell.Trie`, `spell.Node`). Each
node has one child slot per letter 'a'..'z', a frequency count and an end-of-word
flag. Adding a word walks it letter by letter and allocates every missing node.
`nodeCount` counts the nodes and `wordCount` counts the insertions. `find` follows
the same walk. `toString` lists the stored words depth first in slot order. `equals`
compares the two counters and then the two node trees position by position.

`spell.SpellCorrector` loads a dictionary into such a trie and answers
`suggestSimilarWord(w)`:

- w itself when w is stored;
- otherwise the most frequent stored word one edit away, where an edit is a deletion,
  an adjacent transposition, a substitution by a letter or an insertion of a letter;
- otherwise the most frequent stored word two edits away;
- otherwise null.

Ties go to the lexicographically least word, which is the first key of the `TreeMap`
the candidates are ranked in.

The model is split into modules:

- `Alphabet` maps a letter to its child slot and back.
- `Nodes` holds the node record.
- `TrieWalk`, `TrieView`, `TrieListing` and `TrieEquality` hold the trie's nodes as an
  arena, that is a sequence of node records with the root at index 0. Each child slot
  holds the index of the child. These modules state what the walk, the word map,
  the listing and the tree comparison mean.
- `Tries` holds the `Trie` class itself.
- `Edits` defines the exact candidate sets of the four edit operators and of the
  second round.
- `Generators` holds the loops that build those sets.
- `Ranking` holds the selection rule, that is the most frequent key and then the
  least such key.
- `Lex` defines `String.compareTo`'s order and the `TreeMap` first key.
- `Spell` holds the `SpellCorrector` class and `Suggestion`, the answer it must give.
- `Text` is the part of `StringBuilder` and `toCharArray` that the code uses.
- `Wrappers` holds `Option`, which stands for a reference that may be null.

A trie means two ghost views:

- `Words()` maps each stored word to its frequency.
- `Prefixes()` is the set of paths that have a node.

The invariant `Valid()` ties these views to the arena and to the two counters.
`Suggestion(words, w)` states the whole answer of `suggestSimilarWord` as a function
of the dictionary's word map. The corrector is proved to compute exactly that answer,
and to leave its three collections in the state `Collections(words, w)` describes.

## Model

| member | source | states |
|---|---|---|
| Alphabet.CharToAscii | src/spell/Trie.java:46-50 | a lower-case or upper-case letter maps to its slot 0..25, its distance from 'a' or 'A' |
| Alphabet.AsciiToChar | src/spell/Trie.java:53-56 | a slot 0..25 maps to a letter 'a'..'z' |
| Alphabet.LetterRoundTrip | src/spell/Trie.java:46-56 | for c in 'a'..'z', charToAscii(c) is in 0..25 and asciiToChar(charToAscii(c)) == c |
| Alphabet.SlotRoundTrip | src/spell/Trie.java:46-56 | for i in 0..25, asciiToChar(i) is a letter and charToAscii(asciiToChar(i)) == i |
| Alphabet.SlotInjective | src/spell/Trie.java:46-50 | distinct letters occupy distinct child slots |
| Alphabet.ToLowerWord | src/spell/SpellCorrector.java:71 | toLowerCase keeps the length and leaves a lower-case word unchanged |
| Nodes.NewNode | src/spell/Node.java:9-12 | a fresh node has frequency 0 (so getValue() is 0), is not an end, and has 26 empty slots |
| TrieWalk.Link | src/spell/Trie.java:29-33 | storing a new node in a slot keeps the arena well formed and grows it by one node |
| TrieWalk.Bump | src/spell/Trie.java:40-42 | marking the last node and bumping its frequency keeps the arena well formed and its size |
| TrieWalk.WalkNoneExtends | src/spell/Trie.java:76-81 | once the walk meets an empty slot, no longer string that extends the walked prefix is found either |
| TrieWalk.InitialInv | src/spell/Trie.java:10-14 | the single-root arena satisfies the trie invariant, with the root's path empty |
| TrieWalk.LinkWalk | src/spell/Trie.java:29-33 | after linking a node into an empty slot, exactly one new path reaches a node (the new one) and every other walk is unchanged |
| TrieWalk.LinkInv | src/spell/Trie.java:29-33 | linking a node into an empty slot preserves the trie invariant, with the new node's path appended |
| TrieWalk.BumpInv | src/spell/Trie.java:40-42 | bumping node n changes no walk and only the frequency of n's path (by one), and preserves the invariant |
| TrieWalk.WalkIsSub | src/spell/Trie.java:154-178 | the walk from the root taking the last character last reaches the same node as recursiveHelper's descent taking the first character first |
| TrieView.AddOccurrence | src/spell/Trie.java:42 | one more occurrence of w raises w's frequency by one, changes no other frequency, and adds at most the key w |
| TrieView.PathAt | src/spell/Trie.java:66-82 | a string has a node exactly when it is lower-case and its walk from the root succeeds |
| TrieView.WordAt | src/spell/Trie.java:84-88 | a string is stored exactly when it is lower-case and the node it reaches has a positive frequency, which is its value |
| TrieView.InitialView | src/spell/Trie.java:10-14 | the new trie has the paths {""} and no stored words |
| TrieView.DescendStep | src/spell/Trie.java:26-37 | the slot of letter ch in the node of path p is full exactly when p + ch has a node, and then it holds that node |
| TrieView.LinkStep | src/spell/Trie.java:29-33 | allocating a child in an empty slot adds exactly the one new path, which was absent before |
| TrieView.LinkWords | src/spell/Trie.java:29-33 | allocating a child stores no new word and changes no frequency |
| TrieView.BumpStep | src/spell/Trie.java:40-42 | marking the last node and bumping it counts exactly one more occurrence of its path in the word map |
| TrieListing.RenderAppend | src/spell/Trie.java:113 | the output of two lists of words is the output of the first followed by that of the second |
| TrieListing.EmittedStart | src/spell/Trie.java:112-113 | before any child, toStringHelper has written the buffer's word and "\n" exactly when the node's frequency is positive |
| TrieListing.EmittedSkip | src/spell/Trie.java:119 | an empty slot writes nothing |
| TrieListing.EmittedChild | src/spell/Trie.java:119-123 | a full slot adds the listing of the child entered with the slot's letter |
| TrieListing.ListingOrdered | src/spell/Trie.java:116-124 | the listing below a node is strictly ascending and every word in it extends the path buffer |
| TrieListing.ChildListingsOrdered | src/spell/Trie.java:116-124 | the listings of the children in slots below i ascend strictly and continue the buffer with a letter before slot i |
| TrieListing.AppendChildOrdered | src/spell/Trie.java:116-124 | appending the next slot's listing keeps the whole listing ascending |
| TrieListing.ListingSound | src/spell/Trie.java:109-126 | every listed word below a node is a lower-case word of positive frequency that extends the node's path |
| TrieListing.ListingComplete | src/spell/Trie.java:109-126 | every lower-case word of positive frequency that extends a node's path is listed below that node |
| TrieListing.ListingIsWords | src/spell/Trie.java:102-126 | the whole listing is strictly ascending (so no word appears twice) and holds exactly the words of positive frequency |
| TrieEquality.SlotAt | src/spell/Trie.java:159-174 | a successful slot loop means every later slot is full on both sides or on neither, with matching subtrees |
| TrieEquality.HelperShortCircuits | src/spell/Trie.java:155-169 | recursiveHelper is false when the frequencies differ or one side has a child in a slot the other lacks |
| TrieEquality.HelperSound | src/spell/Trie.java:154-178 | when recursiveHelper holds, the same lower-case strings lead to nodes below both roots, with the same frequencies |
| TrieEquality.HelperComplete | src/spell/Trie.java:154-178 | when the same strings lead to nodes with the same frequencies below both roots, recursiveHelper holds |
| TrieEquality.SlotsComplete | src/spell/Trie.java:159-174 | the slot loop succeeds from any slot when the subtrees have the same content |
| TrieEquality.HelperReflexive | src/spell/Trie.java:154-178 | recursiveHelper(r, r) holds |
| TrieEquality.HelperSymmetric | src/spell/Trie.java:154-178 | recursiveHelper(r1, r2) == recursiveHelper(r2, r1) |
| TrieEquality.HelperIffSameContent | src/spell/Trie.java:146 | from the roots, recursiveHelper holds exactly when both tries have the same paths and frequencies |
| Tries.TallyCounts | src/spell/Trie.java:42 | after any sequence of adds, a word's frequency is its old frequency plus the number of times it was added |
| Tries.PrefixesOfMember | src/spell/Trie.java:24-37 | the prefixes add walks through are exactly the strings the word starts with |
| Tries.TallyStep | src/spell/SpellCorrector.java:32-34 | adding the next dictionary line extends the word tally and the prefix set by that line |
| Tries.PrefixesOfSnoc | src/spell/Trie.java:24-37 | one more character of the walk gives exactly one new and longer prefix |
| Tries.CountNew | src/spell/Trie.java:29-30 | the nodes allocated number the prefixes of the word that had no node before |
| Tries.WalkingStart | src/spell/Trie.java:23 | add's walk starts at the root, with the empty prefix walked |
| Tries.WalkingStep | src/spell/Trie.java:24-39 | one character of add's walk links a fresh node into an empty slot or follows a full one, keeping the words and gaining one prefix |
| Tries.WalkingDone | src/spell/Trie.java:40-42 | at the end of add's walk, bumping the node adds one occurrence of the word; the arena gained exactly the word's missing prefixes |
| Tries.AddWalk | src/spell/Trie.java:22-43 | add's walk on the arena: the word's prefixes all get a node, exactly the missing ones are allocated (counted in added), and the word map gets one more occurrence of the word |
| Tries.SamePathSets | src/spell/Trie.java:154-178 | arenas with the same paths and frequencies have the same path sets |
| Tries.SameWordMaps | src/spell/Trie.java:154-178 | arenas with the same paths and frequencies have the same word maps |
| Tries.AddCounted | src/spell/Trie.java:30 | add keeps nodeCount equal to the number of nodes and wordCount consistent with the stored words |
| Tries.Trie.constructor | src/spell/Trie.java:10-14 | a new trie has nodeCount 1, wordCount 0, a root without children, no words and only the empty path |
| Tries.Trie.Add | src/spell/Trie.java:22-43 | wordCount rises by 1; the word's frequency rises by 1 and no other frequency changes; the word's prefixes get nodes; nodeCount rises by exactly the number of prefixes that had none |
| Tries.Trie.Find | src/spell/Trie.java:66-89 | the result is non-null exactly when the word is stored; then it is an end node whose getValue() is the word's frequency; the trie is not modified |
| Tries.Trie.GetNodeCount | src/spell/Trie.java:97-99 | nodeCount is the number of distinct paths with a node, the root's empty path included |
| Tries.Trie.GetWordCount | src/spell/Trie.java:187-189 | wordCount is at least the number of distinct words and is 0 exactly when no word is stored |
| Tries.Trie.HashCode | src/spell/Trie.java:129-133 | wordCount * nodeCount + 1 is at least 1, and is 1 exactly when the trie is empty |
| Tries.Trie.PrefixesAreWalks | src/spell/Trie.java:66-82 | the trie's paths are exactly the lower-case strings whose walk reaches a node |
| Tries.Trie.WordsAreEnds | src/spell/Trie.java:84-88 | the stored words are exactly the lower-case strings whose node has a positive frequency, which is their value |
| Tries.Trie.StoredWordPrefixes | src/spell/Trie.java:29-37 | every prefix of a stored word has a node, so that re-adding it allocates no node and leaves nodeCount unchanged |
| Tries.Trie.SameContentIff | src/spell/Trie.java:146 | equal paths and frequencies in the arenas are equal path sets and equal word maps |
| Tries.Trie.Equals | src/spell/Trie.java:136-152 | equals is false for null, and otherwise holds exactly when both counters are equal and both tries store the same paths and words; equal tries have equal hash codes |
| Tries.Trie.ToString | src/spell/Trie.java:102-107 | the output is every stored word followed by "\n", in strictly ascending lexicographic order, each exactly once; the trie is not modified |
| Tries.Trie.ToStringHelper | src/spell/Trie.java:109-126 | the buffer currentWord is as it was when the call returns, and output grows by the rendered listing below the node |
| Lex.Irreflexive | src/spell/SpellCorrector.java:101-102 | no string is before itself in the TreeMap's order |
| Lex.Transitive | src/spell/SpellCorrector.java:101-102 | the key order is transitive |
| Lex.Total | src/spell/SpellCorrector.java:101-102 | any two distinct strings are ordered one way or the other |
| Lex.Asymmetric | src/spell/SpellCorrector.java:101-102 | two strings are never each before the other |
| Lex.PrefixLess | src/spell/Trie.java:112-121 | a word is listed before every longer word it starts (the node's own word precedes its subtree) |
| Lex.DivergeLess | src/spell/Trie.java:116-121 | words below an earlier slot come before words below a later slot |
| Lex.SortedAppend | src/spell/Trie.java:116-124 | two ascending runs, every element of the first below every element of the second, ascend together |
| Lex.FirstKey | src/spell/SpellCorrector.java:101-102 | the first key of a non-empty TreeMap is a key that is not after any other key |
| Text.StringBuilder.Append | src/spell/SpellCorrector.java:135 | append adds the string at the end of the builder |
| Text.StringBuilder.DeleteCharAt | src/spell/SpellCorrector.java:136 | deleteCharAt(i) removes exactly the character at i |
| Text.StringBuilder.Insert | src/spell/SpellCorrector.java:184 | insert(i, ch) puts ch before position i |
| Text.StringBuilder.Clear | src/spell/SpellCorrector.java:140 | delete(0, length()) empties the builder |
| Text.StringBuilder.ToString | src/spell/SpellCorrector.java:137 | toString gives the builder's characters |
| Text.ToCharArray | src/spell/SpellCorrector.java:146 | toCharArray gives a fresh array holding the string's characters |
| Edits.CandidateLengths | src/spell/SpellCorrector.java:129-191 | a deletion is one shorter, a transposition or alteration has the same length, and an insertion is one longer |
| Edits.DeleteIsWord | src/spell/SpellCorrector.java:129-142 | deleting from a lower-case word gives a lower-case word |
| Edits.InsertIsWord | src/spell/SpellCorrector.java:177-191 | inserting a letter into a lower-case word gives a lower-case word |
| Edits.EditsAreWords | src/spell/SpellCorrector.java:122-127 | every candidate of a lower-case word is lower-case, so it can be looked up in the trie |
| Edits.EditsOfWords | src/spell/SpellCorrector.java:122-127 | adding a lower-case word's candidates to a set of lower-case words keeps it lower-case |
| Edits.AlterationsContainWord | src/spell/SpellCorrector.java:161-174 | a non-empty word is among its own alterations |
| Edits.DeleteUndoesInsert | src/spell/SpellCorrector.java:177-191 | deleting the inserted character gives the word back |
| Edits.InsertUndoesDelete | src/spell/SpellCorrector.java:129-142 | inserting the deleted character at its place gives the word back |
| Edits.SwapTwice | src/spell/SpellCorrector.java:145-158 | swapping the same adjacent pair twice gives the word back |
| Edits.SubstituteBack | src/spell/SpellCorrector.java:161-174 | substituting the replaced character back gives the word back |
| Edits.Edits1Symmetric | src/spell/SpellCorrector.java:122-127 | one edit apart is symmetric on lower-case words |
| Edits.BelowBounds | src/spell/SpellCorrector.java:129-191 | each generator's partial set starts empty and ends as the full candidate set |
| Edits.DeletionsNext | src/spell/SpellCorrector.java:134-141 | one more index of the deletion loop adds exactly one deletion |
| Edits.TranspositionsNext | src/spell/SpellCorrector.java:149-157 | one more index of the transposition loop adds exactly one swap |
| Edits.AlterationsNext | src/spell/SpellCorrector.java:167-172 | one more letter of the alteration loop adds exactly one substitution |
| Edits.AlterationsWrap | src/spell/SpellCorrector.java:164-173 | finishing the letters of one index is starting the next index at 'a' |
| Edits.InsertionsNext | src/spell/SpellCorrector.java:182-189 | one more letter of the insertion loop adds exactly one insertion |
| Edits.InsertionsWrap | src/spell/SpellCorrector.java:180-190 | finishing the letters of one position is starting the next position at 'a' |
| Edits.ExpandStep | src/spell/SpellCorrector.java:79-80 | expanding one more round-1 candidate adds exactly its one-edit candidates |
| Edits.ExpandWords | src/spell/SpellCorrector.java:77-81 | the candidates of both rounds are lower-case when the round-1 candidates are |
| Edits.AddStep | src/spell/SpellCorrector.java:137 | adding to the set that holds the candidates so far gives the set of the next step |
| Generators.DeletionDistance | src/spell/SpellCorrector.java:129-142 | the set grows by exactly { w[..i] + w[i+1..] : 0 <= i < n }, n the length of w, and nothing is removed |
| Generators.TranspositionDistance | src/spell/SpellCorrector.java:145-158 | the set grows by exactly the strings with positions i and i+1 of w swapped, for 0 <= i < n - 1 (n the length of w), with every swap made on a fresh copy of w |
| Generators.AlterationDistance | src/spell/SpellCorrector.java:161-174 | the set grows by exactly { w[i := ch] : 0 <= i < n, ch in 'a'..'z' }, n the length of w |
| Generators.InsertionDistance | src/spell/SpellCorrector.java:177-191 | the set grows by exactly { w[..i] + ch + w[i..] : 0 <= i <= n, ch in 'a'..'z' }, n the length of w |
| Generators.CallFourEditDistances | src/spell/SpellCorrector.java:122-127 | the set grows by exactly the strings one edit away from w |
| Generators.ExpandCandidates | src/spell/SpellCorrector.java:78-80 | looping over a copy of the set adds exactly the one-edit candidates of every member of the copy |
| Ranking.Matches | src/spell/SpellCorrector.java:110-120 | the candidates that are stored words, each with its frequency |
| Ranking.Ties | src/spell/SpellCorrector.java:89-99 | the entries of largest value |
| Ranking.MatchesStep | src/spell/SpellCorrector.java:111-118 | visiting one more candidate puts it with its frequency exactly when it is stored |
| Ranking.MaxExists | src/spell/SpellCorrector.java:89-92 | every non-empty map has a key of largest value |
| Ranking.LeastExists | src/spell/SpellCorrector.java:101-102 | every non-empty set of strings has a least member |
| Ranking.BestExists | src/spell/SpellCorrector.java:86-103 | every non-empty map has a most frequent key that is the least among the equally frequent |
| Ranking.BestUnique | src/spell/SpellCorrector.java:86-103 | that key is unique |
| Ranking.Best | src/spell/SpellCorrector.java:86-103 | the chosen key has the largest frequency and is the least among the keys of that frequency |
| Ranking.LeastTieIsBest | src/spell/SpellCorrector.java:101-102 | the least key among the ties is the chosen key |
| Ranking.TiedAmong | src/spell/SpellCorrector.java:93-99 | what the put loop has stored: the visited keys of value highest |
| Ranking.TiedAmongStep | src/spell/SpellCorrector.java:94-95 | visiting one more key puts it exactly when its value is highest |
| Ranking.TiesOfMax | src/spell/SpellCorrector.java:87-99 | once highest is the largest value, the put loop stores exactly the ties, and a non-empty map has some |
| Ranking.OverridePut | src/spell/SpellCorrector.java:114 | putting into an overridden map is putting into its overriding part |
| Spell.SuggestionSound | src/spell/SpellCorrector.java:50-75 | a stored word is answered with itself; any answer is a stored word; for another word it is within two edits |
| Spell.SuggestionNone | src/spell/SpellCorrector.java:64-68 | the answer is null exactly when neither w nor any string within two edits of it is stored |
| Spell.SuggestionPrefersOneEdit | src/spell/SpellCorrector.java:59-65 | when a stored word s is one edit away, the answer is one edit away, at least as frequent as s, and not after s when equally frequent |
| Spell.SuggestionSecondRound | src/spell/SpellCorrector.java:63-65 | without a stored word one edit away, the answer is at least as frequent as any stored word two edits away, and not after it when equally frequent |
| Spell.SpellCorrector.constructor | src/spell/SpellCorrector.java:16-21 | a new corrector has an empty trie and empty collections |
| Spell.SpellCorrector.UseDictionary | src/spell/SpellCorrector.java:30-41 | every line is added in order; frequencies count the occurrences, every prefix gets a node, wordCount grows by the number of lines, and nodeCount is the number of distinct prefixes |
| Spell.SpellCorrector.SuggestSimilarWord | src/spell/SpellCorrector.java:50-75 | the answer is Suggestion(words, w), and the three collections are left as Collections(words, w) describes |
| Spell.Suggest | src/spell/SpellCorrector.java:51-71 | from cleared collections: a stored word returns its lower-case form with no candidates; otherwise round 1 and, only when it finds nothing, round 2 give Suggestion's answer |
| Spell.RoundOne | src/spell/SpellCorrector.java:59-61 | round 1's answer is the final answer when it exists; otherwise no candidate one edit away is stored and the maps are empty |
| Spell.RoundTwo | src/spell/SpellCorrector.java:64-65 | round 2's answer, found or null, is the final answer |
| Spell.EditDistanceTwo | src/spell/SpellCorrector.java:77-84 | the set gains every candidate's one-edit candidates, the map gains every stored candidate, and the answer is the ranking of the map |
| Spell.AddEditedWordsToNewMap | src/spell/SpellCorrector.java:110-120 | the map gains exactly the candidates that find locates, each with its frequency, and keeps the rest |
| Spell.FindWordWithHighestFrequency | src/spell/SpellCorrector.java:86-108 | null exactly when the map is empty; otherwise the ties are put and their least key is returned, which is the most frequent key and the least among the equally frequent |
| Spell.HighestFrequency | src/spell/SpellCorrector.java:87-92 | highest is at least every value and is 0 or an attained value |
| Spell.PutTies | src/spell/SpellCorrector.java:93-99 | suggestedWord gains exactly the entries whose value is highest |

Specification functions without contracts of their own:

- `Edits.Delete`, `Swap`, `Substitute` and `Insert` are the elementary edits: deleting the character at i, exchanging the characters at i and i + 1, replacing the character at i, and inserting a character before position i.
- `Edits.Deletions`, `Transpositions`, `Alterations`, `Insertions`, `Edits1` and `Expand` are the candidate sets, built from those edits.
- `Tries.Tally`, `PrefixesOf` and `AllPrefixes` describe what a sequence of adds does.
- `TrieListing.Listing` and `Render` describe what `toString` writes.
- `TrieEquality.RecursiveHelper` and `SlotsMatch` model `recursiveHelper` itself (src/spell/Trie.java:154-178).
- `Nodes.Node.GetValue` is `getValue`.
- `Spell.Suggestion`, `Candidates` and `Collections` state the corrector's answer and state.

## Left out

- Names and references: `Trie` and `Node` are stored as an arena of node records, and a child reference is an index. `Trie.add` rewrites the affected records (`TrieWalk.Link`, `TrieWalk.Bump`) and stores the new arena in the `Trie` object. Object identity of nodes and aliasing of `Node` objects are not modelled.
- Tries.Trie.Find: returns a copy of the end node record, not a reference into the trie.
- Tries.AddWalk: add's walk is a value method on the arena. `Trie.add` calls it and then stores the arena and both counters together. `nodeCount` is therefore raised once by the number of nodes allocated, not once per node.
- Tries.Trie.GetWordCount: states that `wordCount` bounds the number of distinct words and is 0 exactly for the empty trie. It does not state that `wordCount` equals the sum of all frequencies.
- Word count: the comment at src/spell/Trie.java:181-185 calls `wordCount` the number of unique words. `add` raises it on every call (src/spell/Trie.java:41), and the model follows the code.
- The empty word: `add("")` marks the root as an end and counts it, as the code does. `find("")` then finds it.
- Characters outside the letters: `charToAscii` lower-cases a character before subtracting 97 (src/spell/Trie.java:47-48). An upper-case letter 'A'..'Z', and the few other characters that `Character.toLowerCase` maps into 'a'..'z' (such as U+212A, the Kelvin sign, which becomes 'k'), therefore land in a valid slot. Any other character gives an index outside the child array, and Java throws. The model requires a lower-case word ('a'..'z' only) of every trie and corrector operation. In the code, upper-case letters given to `suggestSimilarWord` would pass through the candidates unchanged.
- Tries.Trie.Add, Tries.Trie.Find: `add` and `find` fold case in the source, so `add("Cat")` stores "cat" and `find("CAT")` finds it. The model's `Add` and `Find` require `IsWord` (lower-case 'a'..'z') instead, and so do not capture the case folding. `Alphabet.CharToAscii` alone models the folding for ASCII 'A'..'Z'.
- Alphabet.ToLower: `Character.toLowerCase` and `String.toLowerCase` are modelled for ASCII only.
- Alphabet.AsciiToChar: does not model the 16-bit truncation of the cast `(char) i`. Its precondition asks for a code point below the surrogate range instead.
- Tries.Trie.HashCode: does not model Java's 32-bit `int` wrap-around of `wordCount * nodeCount + 1`. All counters are unbounded naturals.
- Tries.Trie.Equals: the case of an object of a different class is not modelled, because the argument is typed as a trie or null.
- The suggester's collections: Java's generator methods, `addEditedWordsToNewMap`, `findWordWithHighestFrequency` and `editDistanceTwo` update the corrector's fields in place. The model writes them as methods that take the collections and return the new ones (modules `Generators` and `Spell`), and `SpellCorrector.SuggestSimilarWord` stores the results in its fields. These Java methods are public, but the model does not provide them as separate methods of the class.
- Iteration order: the `HashSet` and `TreeMap` loops visit their elements in an arbitrary order. The order changes no result.
- Dictionary reading: `useDictionary`'s `Scanner` over a file is replaced by the sequence of its lines. Opening the file, `IOException` and the `inFile` field are not modelled.
- `ITrie`, `ITrie.INode` and `ISpellCorrector` are not part of this model. Only their use as return types matters, and the concrete types stand in for them.
- Commented-out debugging output is not modelled.
