/**
 * spell.Trie: a 26-ary prefix tree with a node count, a word count and a frequency
 * per word.  The nodes live in an arena (`pool`, the root at index 0); the ghost
 * field `Paths` names the path of every node, and the ghost functions built on it
 * give the trie's meaning: `Words()` maps each stored word to its frequency and
 * `Prefixes()` is the set of paths that have a node.
 */
module Tries {
  import opened Wrappers
  import opened Alphabet
  import opened Nodes
  import opened Lex
  import opened Text
  import opened TrieWalk
  import opened TrieListing
  import opened TrieEquality
  import opened TrieView

  /** The word map after one occurrence of each of ws, in order. */
  function Tally(m: map<string, nat>, ws: seq<string>): map<string, nat>
    decreases |ws|
  {
    if ws == [] then m else AddOccurrence(Tally(m, ws[..|ws| - 1]), ws[|ws| - 1])
  }

  /** The frequencies after a sequence of insertions depend only on how often each word occurs in it. */
  lemma {:induction false} TallyCounts(m: map<string, nat>, ws: seq<string>, w: string)
    ensures Get(Tally(m, ws), w) == Get(m, w) + multiset(ws)[w]
    decreases |ws|
  {
    if ws != [] {
      var ws', x := ws[..|ws| - 1], ws[|ws| - 1];
      assert ws == ws' + [x];
      assert multiset(ws) == multiset(ws') + multiset{x};
      TallyCounts(m, ws', w);
    }
  }

  /** All prefixes of w, from the empty string to w itself. */
  function PrefixesOf(w: string): set<string>
    decreases |w|
  {
    if w == [] then {[]} else PrefixesOf(w[..|w| - 1]) + {w}
  }

  /** The members of PrefixesOf(w) are exactly the strings w starts with. */
  lemma {:induction false} PrefixesOfMember(w: string, p: string)
    ensures p in PrefixesOf(w) <==> IsPrefix(p, w)
    decreases |w|
  {
    if w != [] {
      var u := w[..|w| - 1];
      PrefixesOfMember(u, p);
      if IsPrefix(p, w) && p != w {
        assert |p| < |w|;
        assert u[..|p|] == w[..|p|];
      }
      if IsPrefix(p, u) {
        assert w[..|p|] == u[..|p|];
      }
    }
  }

  /** All prefixes of the words of ws. */
  function AllPrefixes(ws: seq<string>): set<string>
    decreases |ws|
  {
    if ws == [] then {} else AllPrefixes(ws[..|ws| - 1]) + PrefixesOf(ws[|ws| - 1])
  }

  /** Adding one more line of a dictionary extends the tally and the prefixes by that line. */
  lemma TallyStep(m0: map<string, nat>, p0: set<string>, ws: seq<string>, i: nat,
                  m: map<string, nat>, p: set<string>)
    requires i < |ws|
    requires m == AddOccurrence(Tally(m0, ws[..i]), ws[i])
    requires p == (p0 + AllPrefixes(ws[..i])) + PrefixesOf(ws[i])
    ensures m == Tally(m0, ws[..i + 1]) && p == p0 + AllPrefixes(ws[..i + 1])
  {
    assert ws[..i + 1][..i] == ws[..i];
  }

  /** One more character of a lowercase word gives a lowercase prefix. */
  lemma PrefixStep(w: string, i: nat)
    requires i < |w|
    ensures w[..i + 1] == w[..i] + [w[i]]
    ensures IsWord(w) ==> IsWord(w[..i + 1])
  {
  }

  lemma PrefixesOfSnoc(w: string, i: nat)
    requires i < |w|
    ensures PrefixesOf(w[..i + 1]) == PrefixesOf(w[..i]) + {w[..i + 1]}
    ensures w[..i + 1] !in PrefixesOf(w[..i])
  {
    assert w[..i + 1][..i] == w[..i];
    PrefixesOfMember(w[..i], w[..i + 1]);
  }

  /** Walking one more character of w keeps `stored` = `before` + the prefixes walked so far. */
  lemma PrefixesGrow(before: set<string>, stored: set<string>, w: string, i: nat)
    requires i < |w| && stored == before + PrefixesOf(w[..i])
    ensures stored + {w[..i + 1]} == before + PrefixesOf(w[..i + 1])
  {
    PrefixesOfSnoc(w, i);
  }

  /** The nodes allocated by add number the prefixes of the word that were not stored before. */
  lemma CountNew(before: set<string>, after: set<string>, w: string)
    requires after == before + PrefixesOf(w)
    ensures |after| == |before| + |PrefixesOf(w) - before|
  {
    assert after == before + (PrefixesOf(w) - before);
  }

  lemma Positive(a: nat, b: nat)
    requires b >= 1
    ensures a * b >= a
    ensures a == 0 ==> a * b == 0
  {
  }

  /**
   * The state of add's walk after i characters of `word`: the arena still represents
   * the same words, it has gained the prefixes walked so far, and n is the node of
   * word[..i].
   */
  ghost predicate Walking(pool0: seq<Node>, paths0: seq<string>, word: string, i: nat,
                          pool: seq<Node>, paths: seq<string>, n: nat)
  {
    i <= |word| && Arena(pool0, paths0) && Arena(pool, paths) &&
    PathSet(paths) == PathSet(paths0) + PrefixesOf(word[..i]) &&
    WordMap(pool, paths) == WordMap(pool0, paths0) &&
    n < |pool| && paths[n] == word[..i]
  }

  lemma WalkingStart(pool0: seq<Node>, paths0: seq<string>, word: string)
    requires Arena(pool0, paths0)
    ensures Walking(pool0, paths0, word, 0, pool0, paths0, 0)
  {
    assert word[..0] == [];
    PathAt(pool0, paths0, []);
  }

  /**
   * One character of the walk: an empty slot gets a fresh node whose path is the next
   * prefix; a full slot is followed.  Either way the walk is one character further.
   */
  lemma WalkingStep(pool0: seq<Node>, paths0: seq<string>, word: string, i: nat,
                    pool: seq<Node>, paths: seq<string>, n: nat)
    requires IsWord(word) && i < |word| && Walking(pool0, paths0, word, i, pool, paths, n)
    ensures CharToAscii(word[i]) < AlphabetSize
    ensures pool[n].nodes[CharToAscii(word[i])].None? ==>
              Walking(pool0, paths0, word, i + 1, Link(pool, n, CharToAscii(word[i])), paths + [word[..i + 1]], |pool|)
    ensures pool[n].nodes[CharToAscii(word[i])].Some? ==>
              Walking(pool0, paths0, word, i + 1, pool, paths, pool[n].nodes[CharToAscii(word[i])].value)
  {
    var c := CharToAscii(word[i]);
    LetterRoundTrip(word[i]);
    PrefixStep(word, i);
    PrefixesGrow(PathSet(paths0), PathSet(paths), word, i);
    DescendStep(pool, paths, n, word[i]);
    if pool[n].nodes[c] == None {
      assert NewPath(paths, n, c) == word[..i + 1];
      LinkStep(pool, paths, n, c);
      LinkWords(pool, paths, n, c);
    }
  }

  /** The end of the walk: bumping the last node adds the word once and nothing else. */
  lemma WalkingDone(pool0: seq<Node>, paths0: seq<string>, word: string,
                    pool: seq<Node>, paths: seq<string>, n: nat)
    requires Walking(pool0, paths0, word, |word|, pool, paths, n)
    ensures Arena(Bump(pool, n), paths)
    ensures PathSet(paths) == PathSet(paths0) + PrefixesOf(word)
    ensures |pool| == |pool0| + |PrefixesOf(word) - PathSet(paths0)|
    ensures WordMap(Bump(pool, n), paths) == AddOccurrence(WordMap(pool0, paths0), word)
  {
    assert word[..|word|] == word;
    CountNew(PathSet(paths0), PathSet(paths), word);
    BumpStep(pool, paths, n);
  }

  /**
   * The walk of add on the arena: follow the word from the root, linking a fresh node
   * into every empty slot met on the way, then mark the last node as an end and count
   * one more occurrence of it.  `added` is the number of nodes linked.
   */
  method AddWalk(pool0: seq<Node>, ghost paths0: seq<string>, word: string)
    returns (pool: seq<Node>, ghost paths: seq<string>, added: nat)
    requires Arena(pool0, paths0) && IsWord(word)
    ensures Arena(pool, paths) && |pool| == |pool0| + added
    ensures PathSet(paths) == PathSet(paths0) + PrefixesOf(word)
    ensures added == |PrefixesOf(word) - PathSet(paths0)|
    ensures WordMap(pool, paths) == AddOccurrence(WordMap(pool0, paths0), word)
  {
    pool, paths, added := pool0, paths0, 0;
    var n: nat := 0;
    WalkingStart(pool0, paths0, word);
    for i := 0 to |word|
      invariant Walking(pool0, paths0, word, i, pool, paths, n) && |pool| == |pool0| + added
    {
      var indexInArray := CharToAscii(word[i]);
      WalkingStep(pool0, paths0, word, i, pool, paths, n);
      if pool[n].nodes[indexInArray] == None {
        added := added + 1;
        var temp := |pool|;
        pool := Link(pool, n, indexInArray);
        paths := paths + [word[..i + 1]];
        n := temp;
      } else {
        n := pool[n].nodes[indexInArray].value;
      }
    }
    WalkingDone(pool0, paths0, word, pool, paths, n);
    pool := Bump(pool, n);
  }

  lemma AppendAssoc<T>(a: seq<T>, b: seq<T>, c: seq<T>)
    ensures (a + b) + c == a + (b + c)
  {
  }

  /** Arenas with the same paths and frequencies have the same path sets. */
  lemma SamePathSets(p1: seq<Node>, paths1: seq<string>, p2: seq<Node>, paths2: seq<string>)
    requires TrieInv(p1, paths1) && TrieInv(p2, paths2) && SameContent(p1, p2)
    ensures PathSet(paths1) == PathSet(paths2)
  {
    forall s
      ensures s in PathSet(paths1) <==> s in PathSet(paths2)
    {
      PathAt(p1, paths1, s);
      PathAt(p2, paths2, s);
    }
  }

  /** Arenas with the same paths and frequencies have the same word maps. */
  lemma SameWordMaps(p1: seq<Node>, paths1: seq<string>, p2: seq<Node>, paths2: seq<string>)
    requires TrieInv(p1, paths1) && TrieInv(p2, paths2) && SameContent(p1, p2)
    ensures WordMap(p1, paths1) == WordMap(p2, paths2)
  {
    forall s
      ensures s in WordMap(p1, paths1) <==> s in WordMap(p2, paths2)
      ensures s in WordMap(p1, paths1) ==> WordMap(p1, paths1)[s] == WordMap(p2, paths2)[s]
    {
      WordAt(p1, paths1, s);
      WordAt(p2, paths2, s);
    }
  }

  /**
   * The invariant of a Trie: an arena with its paths, nodeCount its number of nodes and
   * wordCount at least the number of distinct words, zero exactly when there are none.
   */
  ghost predicate Counted(pool: seq<Node>, paths: seq<string>, nodeCount: nat, wordCount: nat) {
    Arena(pool, paths) && nodeCount == |pool| &&
    |WordMap(pool, paths)| <= wordCount && (wordCount == 0 <==> WordMap(pool, paths) == map[])
  }

  /** add keeps the invariant: one more occurrence, and the nodes AddWalk allocated. */
  lemma AddCounted(pool0: seq<Node>, paths0: seq<string>, nodeCount: nat, wordCount: nat, word: string,
                   pool: seq<Node>, paths: seq<string>, added: nat)
    requires Counted(pool0, paths0, nodeCount, wordCount)
    requires Arena(pool, paths) && |pool| == |pool0| + added
    requires WordMap(pool, paths) == AddOccurrence(WordMap(pool0, paths0), word)
    ensures Counted(pool, paths, nodeCount + added, wordCount + 1)
  {
  }

  class Trie {
    var pool: seq<Node>
    var nodeCount: nat
    var wordCount: nat
    ghost var Paths: seq<string>

    ghost predicate Valid()
      reads this
    {
      Counted(pool, Paths, nodeCount, wordCount)
    }

    /** The stored words with their frequencies. */
    ghost function Words(): map<string, nat>
      reads this
      requires WF(pool)
    {
      WordMap(pool, Paths)
    }

    /** The paths that have a node. */
    ghost function Prefixes(): set<string>
      reads this
    {
      PathSet(Paths)
    }

    /** new Trie(): a root without children, one node, no words. */
    constructor ()
      ensures Valid()
      ensures pool == [NewNode()] && nodeCount == 1 && wordCount == 0
      ensures Words() == map[] && Prefixes() == {[]}
    {
      pool := [NewNode()];
      nodeCount := 1;
      wordCount := 0;
      Paths := [[]];
      InitialView();
    }

    /**
     * add: walk the word, allocating a node for every empty slot on the way, then mark
     * the last node as an end and count one more occurrence of the word.
     */
    method Add(word: string)
      requires Valid() && IsWord(word)
      modifies this
      ensures Valid()
      ensures wordCount == old(wordCount) + 1
      ensures Words() == AddOccurrence(old(Words()), word)
      ensures Prefixes() == old(Prefixes()) + PrefixesOf(word)
      ensures nodeCount == old(nodeCount) + |PrefixesOf(word) - old(Prefixes())|
    {
      var nodes, added;
      ghost var paths;
      nodes, paths, added := AddWalk(pool, Paths, word);
      AddCounted(pool, Paths, nodeCount, wordCount, word, nodes, paths, added);
      pool, Paths, nodeCount, wordCount := nodes, paths, nodeCount + added, wordCount + 1;
    }

    /**
     * find: the node of a stored word, or None when the walk meets an empty slot or
     * ends at a node that is not an end of word.
     */
    method Find(word: string) returns (r: Option<Node>)
      requires Valid() && IsWord(word)
      ensures r.Some? <==> word in Words()
      ensures r.Some? ==> r.value.isEnd && r.value.GetValue() == Words()[word]
    {
      var temp: nat := 0;
      assert word[..0] == [];
      for i := 0 to |word|
        invariant temp < |pool| && Walk(pool, word[..i]) == Some(temp)
      {
        var indexInArray := CharToAscii(word[i]);
        LetterRoundTrip(word[i]);
        assert word[..i + 1][..i] == word[..i];
        if pool[temp].nodes[indexInArray] != None {
          temp := pool[temp].nodes[indexInArray].value;
        } else {
          WalkNoneExtends(pool, word[..i + 1], word);
          return None;
        }
      }
      assert word[..|word|] == word;
      WordAt(pool, Paths, word);
      if pool[temp].isEnd {
        return Some(pool[temp]);
      }
      return None;
    }

    /** getNodeCount: one node per stored path, the root's empty path included. */
    function GetNodeCount(): (count: nat)
      reads this
      requires Valid()
      ensures count == |Prefixes()| && [] in Prefixes()
    {
      PathAt(pool, Paths, []);
      nodeCount
    }

    /** getWordCount: the number of insertions, so at least the number of distinct words. */
    function GetWordCount(): (count: nat)
      reads this
      requires Valid()
      ensures count >= |Words()|
      ensures count == 0 <==> Words() == map[]
    {
      wordCount
    }

    /** hashCode: wordCount * nodeCount + 1 (unbounded, without Java's int wrap-around). */
    function HashCode(): (h: nat)
      reads this
      requires Valid()
      ensures h >= 1
      ensures h == 1 <==> Words() == map[]
    {
      PathAt(pool, Paths, []);
      assert nodeCount >= 1;
      Positive(wordCount, nodeCount);
      wordCount * nodeCount + 1
    }

    /** The stored paths are exactly the lowercase strings whose walk reaches a node. */
    lemma PrefixesAreWalks()
      requires Valid()
      ensures forall s :: s in Prefixes() <==> IsWord(s) && Walk(pool, s).Some?
    {
      forall s
        ensures s in Prefixes() <==> IsWord(s) && Walk(pool, s).Some?
      {
        PathAt(pool, Paths, s);
      }
    }

    /** The stored words are exactly the lowercase strings whose node has a positive frequency. */
    lemma WordsAreEnds()
      requires Valid()
      ensures forall s :: s in Words() <==> IsWord(s) && Freq(pool, s) > 0
      ensures forall s | s in Words() :: Words()[s] == Freq(pool, s)
    {
      forall s
        ensures s in Words() <==> IsWord(s) && Freq(pool, s) > 0
        ensures s in Words() ==> Words()[s] == Freq(pool, s)
      {
        WordAt(pool, Paths, s);
      }
    }

    /** Every prefix of a stored word has a node, so adding the word again allocates none. */
    lemma StoredWordPrefixes(word: string)
      requires Valid() && word in Words()
      ensures PrefixesOf(word) <= Prefixes()
      ensures |PrefixesOf(word) - Prefixes()| == 0
    {
      WordAt(pool, Paths, word);
      forall p | p in PrefixesOf(word)
        ensures p in Prefixes()
      {
        PrefixesOfMember(word, p);
        WalkPrefix(pool, word, |p|);
        assert IsWord(p);
        PathAt(pool, Paths, p);
      }
      assert PrefixesOf(word) - Prefixes() == {};
    }

    /** Equal paths and frequencies (the meaning of recursiveHelper) are equal ghost contents. */
    lemma SameContentIff(other: Trie)
      requires Valid() && other.Valid()
      ensures SameContent(pool, other.pool) <==> Prefixes() == other.Prefixes() && Words() == other.Words()
    {
      if SameContent(pool, other.pool) {
        SameContentGivesViews(other);
      }
      if Prefixes() == other.Prefixes() && Words() == other.Words() {
        ViewsGiveSameContent(other);
      }
    }

    lemma SameContentGivesViews(other: Trie)
      requires Valid() && other.Valid() && SameContent(pool, other.pool)
      ensures Prefixes() == other.Prefixes() && Words() == other.Words()
    {
      SamePathSets(pool, Paths, other.pool, other.Paths);
      SameWordMaps(pool, Paths, other.pool, other.Paths);
    }

    lemma ViewsGiveSameContent(other: Trie)
      requires Valid() && other.Valid() && Prefixes() == other.Prefixes() && Words() == other.Words()
      ensures SameContent(pool, other.pool)
    {
      forall s | IsWord(s)
        ensures (Walk(pool, s).Some? <==> Walk(other.pool, s).Some?) && Freq(pool, s) == Freq(other.pool, s)
      {
        PathAt(pool, Paths, s);
        PathAt(other.pool, other.Paths, s);
        WordAt(pool, Paths, s);
        WordAt(other.pool, other.Paths, s);
      }
    }

    /**
     * equals: false for null, true for the same object, otherwise equal counters and a
     * successful recursiveHelper; that is, equal counters and equal contents.
     */
    predicate Equals(other: Trie?)
      reads this, other
      requires Valid() && (other != null ==> other.Valid())
      ensures Equals(other) <==>
                other != null && nodeCount == other.nodeCount && wordCount == other.wordCount &&
                Prefixes() == other.Prefixes() && Words() == other.Words()
      ensures Equals(other) ==> HashCode() == other.HashCode()
    {
      if other == null then false
      else if other == this then true
      else if other.GetNodeCount() == GetNodeCount() && other.GetWordCount() == GetWordCount() then
        HelperIffSameContent(other.pool, pool);
        other.SameContentIff(this);
        RecursiveHelper(other.pool, 0, pool, 0)
      else false
    }

    /**
     * toString: every stored word followed by "\n", in ascending lexicographic order,
     * each exactly once.
     */
    method ToString() returns (s: string)
      requires Valid()
      ensures s == Render(Listing(pool, 0, []))
      ensures Sorted(Listing(pool, 0, []))
      ensures forall w :: w in Listing(pool, 0, []) <==> w in Words()
    {
      var currentWord := new StringBuilder();
      var output := new StringBuilder();
      ToStringHelper(0, currentWord, output);
      s := output.ToString();
      ListingIsWords(pool, Paths);
      WordsAreEnds();
    }

    /**
     * toStringHelper: emit the word in the buffer if this node's frequency is positive,
     * then for each child in slot order append its letter, recurse, and remove the
     * letter again, so the buffer is as it was when the call returns.
     */
    method ToStringHelper(curNode: nat, currentWord: StringBuilder, output: StringBuilder)
      requires WF(pool) && curNode < |pool| && currentWord != output
      modifies currentWord, output
      ensures currentWord.chars == old(currentWord.chars)
      ensures output.chars == old(output.chars) + Render(Listing(pool, curNode, old(currentWord.chars)))
      decreases |pool| - curNode
    {
      ghost var p, start := currentWord.chars, output.chars;
      if pool[curNode].GetValue() > 0 {
        var w := currentWord.ToString();
        output.Append(w + "\n");
      }
      EmittedStart(pool, curNode, p);
      for i := 0 to AlphabetSize
        invariant currentWord.chars == p
        invariant output.chars == start + Emitted(pool, curNode, i, p)
      {
        var ourChild := pool[curNode].nodes[i];
        if ourChild.Some? {
          EmittedChild(pool, curNode, i, p, ourChild.value);
          currentWord.Append([AsciiToChar(i)]);
          ToStringHelper(ourChild.value, currentWord, output);
          currentWord.DeleteCharAt(|currentWord.chars| - 1);
          assert currentWord.chars == (p + [AsciiToChar(i)])[..|p|];
          AppendAssoc(start, Emitted(pool, curNode, i, p), Render(Listing(pool, ourChild.value, p + [AsciiToChar(i)])));
        } else {
          EmittedSkip(pool, curNode, i, p);
        }
      }
    }
  }
}
