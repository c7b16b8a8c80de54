/**
 * The abstract view of a trie arena: the set of paths that have a node and the map
 * from each stored word to its frequency, with how `add`'s two steps change them.
 */
module TrieView {
  import opened Wrappers
  import opened Alphabet
  import opened Nodes
  import opened TrieWalk

  /** The frequency a word map records for w, 0 when w is absent. */
  function Get(m: map<string, nat>, w: string): nat {
    if w in m then m[w] else 0
  }

  /** The word map after one more occurrence of w. */
  function AddOccurrence(m: map<string, nat>, w: string): (r: map<string, nat>)
    ensures Get(r, w) == Get(m, w) + 1
    ensures forall v | v != w :: Get(r, v) == Get(m, v)
    ensures r.Keys == m.Keys + {w}
    ensures |r| <= |m| + 1 && r != map[]
  {
    m[w := Get(m, w) + 1]
  }

  /** The paths that have a node. */
  ghost function PathSet(paths: seq<string>): set<string>
    decreases |paths|
  {
    if paths == [] then {} else PathSet(paths[..|paths| - 1]) + {paths[|paths| - 1]}
  }

  lemma {:induction false} PathSetIndex(paths: seq<string>, k: nat)
    requires k < |paths|
    ensures paths[k] in PathSet(paths)
    decreases |paths|
  {
    if k < |paths| - 1 {
      PathSetIndex(paths[..|paths| - 1], k);
    }
  }

  lemma {:induction false} PathSetWitness(paths: seq<string>, s: string) returns (k: nat)
    requires s in PathSet(paths)
    ensures k < |paths| && paths[k] == s
    decreases |paths|
  {
    if s == paths[|paths| - 1] {
      k := |paths| - 1;
    } else {
      k := PathSetWitness(paths[..|paths| - 1], s);
    }
  }

  /** Each stored word (a path whose node has a positive frequency) with its frequency. */
  ghost function WordMap(pool: seq<Node>, paths: seq<string>): map<string, nat>
    requires WF(pool)
  {
    map s | s in PathSet(paths) && Freq(pool, s) > 0 :: Freq(pool, s)
  }

  /** A well-formed arena with its node paths, one node per distinct path. */
  ghost predicate Arena(pool: seq<Node>, paths: seq<string>) {
    TrieInv(pool, paths) && |PathSet(paths)| == |pool|
  }

  /** A string has a node exactly when it is lowercase and its walk succeeds. */
  lemma PathAt(pool: seq<Node>, paths: seq<string>, s: string)
    requires TrieInv(pool, paths)
    ensures s in PathSet(paths) <==> IsWord(s) && Walk(pool, s).Some?
  {
    if IsWord(s) && Walk(pool, s).Some? {
      var k := Walk(pool, s).value;
      assert paths[k] == s;
      PathSetIndex(paths, k);
    }
    if s in PathSet(paths) {
      var k := PathSetWitness(paths, s);
    }
  }

  /** A string is stored exactly when it is lowercase and the node it reaches has a positive frequency. */
  lemma WordAt(pool: seq<Node>, paths: seq<string>, s: string)
    requires TrieInv(pool, paths)
    ensures s in WordMap(pool, paths) <==> IsWord(s) && Freq(pool, s) > 0
    ensures s in WordMap(pool, paths) ==> WordMap(pool, paths)[s] == Freq(pool, s)
  {
    PathAt(pool, paths, s);
  }

  lemma InitialView()
    ensures TrieInv([NewNode()], [[]])
    ensures PathSet([[]]) == {[]}
    ensures WordMap([NewNode()], [[]]) == map[]
  {
    InitialInv();
    var root: seq<string> := [[]];
    assert root[..0] == [];
    forall s | s in WordMap([NewNode()], [[]])
      ensures false
    {
    }
  }

  /** Following the slot of ch from the node of paths[n] reaches the node of paths[n] + [ch], if any. */
  lemma DescendStep(pool: seq<Node>, paths: seq<string>, n: nat, ch: char)
    requires TrieInv(pool, paths) && n < |pool| && 'a' <= ch <= 'z'
    ensures CharToAscii(ch) < AlphabetSize
    ensures pool[n].nodes[CharToAscii(ch)].Some? ==>
              paths[pool[n].nodes[CharToAscii(ch)].value] == paths[n] + [ch]
    ensures paths[n] + [ch] in PathSet(paths) <==> pool[n].nodes[CharToAscii(ch)].Some?
  {
    var p := paths[n] + [ch];
    assert p[..|p| - 1] == paths[n];
    assert IsWord(p);
    assert Walk(pool, p) == pool[n].nodes[CharToAscii(ch)];
    PathAt(pool, paths, p);
  }

  /** Allocating the child in an empty slot adds exactly its path and stores no new word. */
  lemma LinkStep(pool: seq<Node>, paths: seq<string>, n: nat, c: nat)
    requires TrieInv(pool, paths) && n < |pool| && c < AlphabetSize && pool[n].nodes[c] == None
    ensures NewPath(paths, n, c) !in PathSet(paths)
    ensures TrieInv(Link(pool, n, c), paths + [NewPath(paths, n, c)])
    ensures PathSet(paths + [NewPath(paths, n, c)]) == PathSet(paths) + {NewPath(paths, n, c)}
    ensures |PathSet(paths + [NewPath(paths, n, c)])| == |PathSet(paths)| + 1
  {
    var path := NewPath(paths, n, c);
    LinkInv(pool, paths, n, c);
    LinkPaths(pool, paths, n, c);
    PathAt(pool, paths, path);
  }

  /** The fresh node has frequency 0, so linking it stores no new word. */
  lemma LinkWords(pool: seq<Node>, paths: seq<string>, n: nat, c: nat)
    requires TrieInv(pool, paths) && n < |pool| && c < AlphabetSize && pool[n].nodes[c] == None
    ensures WordMap(Link(pool, n, c), paths + [NewPath(paths, n, c)]) == WordMap(pool, paths)
  {
    var q, path := Link(pool, n, c), NewPath(paths, n, c);
    var paths' := paths + [path];
    LinkPaths(pool, paths, n, c);
    LinkFreq(pool, paths, n, c);
    assert paths'[..|paths'| - 1] == paths;
    forall s
      ensures s in WordMap(q, paths') <==> s in WordMap(pool, paths)
      ensures s in WordMap(q, paths') ==> WordMap(q, paths')[s] == WordMap(pool, paths)[s]
    {
      PathAt(pool, paths, s);
    }
  }

  /** Marking the node of paths[n] as an end and bumping it counts one more occurrence of paths[n]. */
  lemma BumpStep(pool: seq<Node>, paths: seq<string>, n: nat)
    requires TrieInv(pool, paths) && n < |pool|
    ensures TrieInv(Bump(pool, n), paths)
    ensures WordMap(Bump(pool, n), paths) == AddOccurrence(WordMap(pool, paths), paths[n])
  {
    var q, w := Bump(pool, n), paths[n];
    var m, m' := WordMap(pool, paths), WordMap(q, paths);
    BumpInv(pool, paths, n);
    WordAt(pool, paths, w);
    forall s
      ensures s in m' <==> s in AddOccurrence(m, w)
      ensures s in m' ==> m'[s] == AddOccurrence(m, w)[s]
    {
      WordAt(q, paths, s);
      WordAt(pool, paths, s);
    }
  }
}
