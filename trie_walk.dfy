/**
 * The trie's node arena as a value: well-formedness, the walk that Trie.add and
 * Trie.find perform from the root, and the invariant that ties every node to the
 * one path that reaches it.
 */
module TrieWalk {
  import opened Wrappers
  import opened Alphabet
  import opened Nodes

  /** A root at index 0, 26 slots per node, and every child stored after its parent. */
  ghost predicate WF(pool: seq<Node>) {
    |pool| >= 1 &&
    (forall k | 0 <= k < |pool| :: |pool[k].nodes| == AlphabetSize) &&
    (forall k, c | 0 <= k < |pool| && 0 <= c < |pool[k].nodes| && pool[k].nodes[c].Some? ::
       k < pool[k].nodes[c].value < |pool|)
  }

  /** One step of the walk: the slot of `ch` in node `k`; a character without a slot has no child. */
  ghost function Child(pool: seq<Node>, k: nat, ch: char): (r: Option<nat>)
    requires WF(pool) && k < |pool|
    ensures r.Some? ==> k < r.value < |pool|
  {
    var i := CharToAscii(ch);
    if 0 <= i < AlphabetSize then pool[k].nodes[i] else None
  }

  /** The node reached from the root along `s`, or None where a slot is empty. */
  ghost function Walk(pool: seq<Node>, s: string): (r: Option<nat>)
    requires WF(pool)
    ensures r.Some? ==> r.value < |pool|
    decreases |s|
  {
    if s == [] then Some(0)
    else match Walk(pool, s[..|s| - 1])
      case None => None
      case Some(k) => Child(pool, k, s[|s| - 1])
  }

  /** The frequency stored for `s`: that of the node it reaches, 0 when it reaches none. */
  ghost function Freq(pool: seq<Node>, s: string): nat
    requires WF(pool)
  {
    match Walk(pool, s)
    case None => 0
    case Some(k) => pool[k].frequencyCount
  }

  /**
   * The arena invariant.  `paths[k]` is the path of node k: the walk along it reaches k,
   * and k is reached by no other lower-case string.  A node is an end of word exactly
   * when its frequency is positive (add sets both together).
   */
  ghost predicate TrieInv(pool: seq<Node>, paths: seq<string>) {
    WF(pool) && |paths| == |pool| && paths[0] == [] &&
    (forall k | 0 <= k < |pool| :: pool[k].isEnd <==> pool[k].frequencyCount > 0) &&
    (forall k {:trigger paths[k]} | 0 <= k < |paths| :: IsWord(paths[k]) && Walk(pool, paths[k]) == Some(k)) &&
    (forall s | IsWord(s) && Walk(pool, s).Some? :: paths[Walk(pool, s).value] == s)
  }

  /** The arena after `n.nodes[c] = new Node()`: the new node is appended at index |pool|. */
  function Link(pool: seq<Node>, n: nat, c: nat): (r: seq<Node>)
    requires WF(pool) && n < |pool| && c < AlphabetSize
    ensures WF(r) && |r| == |pool| + 1
  {
    pool[n := pool[n].(nodes := pool[n].nodes[c := Some(|pool|)])] + [NewNode()]
  }

  /** The arena after the last node of a word is marked as an end and its frequency bumped. */
  function Bump(pool: seq<Node>, n: nat): (r: seq<Node>)
    requires WF(pool) && n < |pool|
    ensures WF(r) && |r| == |pool|
  {
    pool[n := pool[n].(isEnd := true, frequencyCount := pool[n].frequencyCount + 1)]
  }

  lemma {:induction false} WalkPrefix(pool: seq<Node>, s: string, n: nat)
    requires WF(pool) && n <= |s| && Walk(pool, s).Some?
    ensures Walk(pool, s[..n]).Some?
    decreases |s|
  {
    if n < |s| {
      assert s[..|s| - 1][..n] == s[..n];
      WalkPrefix(pool, s[..|s| - 1], n);
    } else {
      assert s[..n] == s;
    }
  }

  /** Once the walk falls off the trie, no extension of the string is found either. */
  lemma {:induction false} WalkNoneExtends(pool: seq<Node>, p: string, s: string)
    requires WF(pool) && |p| <= |s| && s[..|p|] == p && Walk(pool, p) == None
    ensures Walk(pool, s) == None
  {
    if Walk(pool, s).Some? {
      WalkPrefix(pool, s, |p|);
    }
  }

  /** In the fresh trie (just a root) only the empty string reaches a node. */
  lemma {:induction false} WalkSingleRoot(s: string)
    ensures WF([NewNode()])
    ensures Walk([NewNode()], s) == if s == [] then Some(0) else None
    decreases |s|
  {
    if s != [] {
      WalkSingleRoot(s[..|s| - 1]);
    }
  }

  lemma InitialInv()
    ensures TrieInv([NewNode()], [[]])
  {
    forall s | IsWord(s)
      ensures Walk([NewNode()], s) == if s == [] then Some(0) else None
    {
      WalkSingleRoot(s);
    }
  }

  /** Linking a new node into the empty slot c of node n creates exactly one new path. */
  lemma {:induction false} LinkWalk(pool: seq<Node>, paths: seq<string>, n: nat, c: nat, s: string)
    requires TrieInv(pool, paths) && n < |pool| && c < AlphabetSize && pool[n].nodes[c] == None
    requires IsWord(s)
    ensures Walk(Link(pool, n, c), s) ==
            if s == NewPath(paths, n, c) then Some(|pool|) else Walk(pool, s)
    decreases |s|
  {
    var q := Link(pool, n, c);
    var path := NewPath(paths, n, c);
    SlotRoundTrip(c);
    assert path[..|path| - 1] == paths[n];
    assert Walk(pool, path) == None;
    if s != [] {
      var s', x := s[..|s| - 1], s[|s| - 1];
      assert s == s' + [x];
      assert IsWord(s');
      LinkWalk(pool, paths, n, c, s');
      LetterRoundTrip(x);
      if s' != path && Walk(pool, s').Some? {
        var k := Walk(pool, s').value;
        assert paths[k] == s';
        if k == n && CharToAscii(x) == c {
          assert x == AsciiToChar(c);
        } else {
          assert Child(q, k, x) == Child(pool, k, x);
        }
      }
    }
  }

  /** The child in slot c of node k has k's path followed by the letter of slot c. */
  lemma ChildPath(pool: seq<Node>, paths: seq<string>, k: nat, c: nat)
    requires TrieInv(pool, paths) && k < |pool| && c < AlphabetSize && pool[k].nodes[c].Some?
    ensures IsWord(paths[k] + [AsciiToChar(c)])
    ensures paths[pool[k].nodes[c].value] == paths[k] + [AsciiToChar(c)]
  {
    var q := paths[k] + [AsciiToChar(c)];
    SlotRoundTrip(c);
    assert q[..|q| - 1] == paths[k];
    assert Walk(pool, q) == pool[k].nodes[c];
  }

  /** The path the new node gets: that of n, then the letter of slot c. */
  ghost function NewPath(paths: seq<string>, n: nat, c: nat): string
    requires n < |paths| && c < AlphabetSize
  {
    paths[n] + [AsciiToChar(c)]
  }

  lemma LinkPaths(pool: seq<Node>, paths: seq<string>, n: nat, c: nat)
    requires TrieInv(pool, paths) && n < |pool| && c < AlphabetSize && pool[n].nodes[c] == None
    ensures IsWord(NewPath(paths, n, c)) && Walk(pool, NewPath(paths, n, c)) == None
    ensures forall s | IsWord(s) :: Walk(Link(pool, n, c), s) ==
              if s == NewPath(paths, n, c) then Some(|pool|) else Walk(pool, s)
  {
    var path := NewPath(paths, n, c);
    SlotRoundTrip(c);
    assert path[..|path| - 1] == paths[n];
    forall s | IsWord(s)
      ensures Walk(Link(pool, n, c), s) == if s == path then Some(|pool|) else Walk(pool, s)
    {
      LinkWalk(pool, paths, n, c, s);
    }
  }

  lemma LinkFreq(pool: seq<Node>, paths: seq<string>, n: nat, c: nat)
    requires TrieInv(pool, paths) && n < |pool| && c < AlphabetSize && pool[n].nodes[c] == None
    ensures forall s | IsWord(s) :: Freq(Link(pool, n, c), s) ==
              if s == NewPath(paths, n, c) then 0 else Freq(pool, s)
  {
    var q := Link(pool, n, c);
    LinkPaths(pool, paths, n, c);
    forall s | IsWord(s)
      ensures Freq(q, s) == if s == NewPath(paths, n, c) then 0 else Freq(pool, s)
    {
      if s != NewPath(paths, n, c) && Walk(pool, s).Some? {
        assert q[Walk(pool, s).value].frequencyCount == pool[Walk(pool, s).value].frequencyCount;
      }
    }
  }

  lemma LinkInv(pool: seq<Node>, paths: seq<string>, n: nat, c: nat)
    requires TrieInv(pool, paths) && n < |pool| && c < AlphabetSize && pool[n].nodes[c] == None
    ensures TrieInv(Link(pool, n, c), paths + [NewPath(paths, n, c)])
  {
    var q := Link(pool, n, c);
    var path := NewPath(paths, n, c);
    var paths' := paths + [path];
    LinkPaths(pool, paths, n, c);
    forall k | 0 <= k < |q|
      ensures q[k].isEnd <==> q[k].frequencyCount > 0
    {
      if k < |pool| {
        assert q[k].isEnd == pool[k].isEnd && q[k].frequencyCount == pool[k].frequencyCount;
      }
    }
    forall k | 0 <= k < |paths'|
      ensures IsWord(paths'[k]) && Walk(q, paths'[k]) == Some(k)
    {
      if k < |paths| {
        assert paths'[k] == paths[k] != path;
      }
    }
    forall s | IsWord(s) && Walk(q, s).Some?
      ensures paths'[Walk(q, s).value] == s
    {
      if s != path {
        assert Walk(q, s) == Walk(pool, s);
      }
    }
  }

  lemma {:induction false} WalkSameShape(pool: seq<Node>, q: seq<Node>, s: string)
    requires WF(pool) && WF(q) && |q| == |pool|
    requires forall k | 0 <= k < |pool| :: q[k].nodes == pool[k].nodes
    ensures Walk(q, s) == Walk(pool, s)
    decreases |s|
  {
    if s != [] {
      WalkSameShape(pool, q, s[..|s| - 1]);
    }
  }

  /** Bumping node n adds one to the frequency of its path and of nothing else. */
  lemma BumpInv(pool: seq<Node>, paths: seq<string>, n: nat)
    requires TrieInv(pool, paths) && n < |pool|
    ensures forall s | IsWord(s) :: Walk(Bump(pool, n), s) == Walk(pool, s)
    ensures forall s | IsWord(s) :: Freq(Bump(pool, n), s) ==
              if s == paths[n] then Freq(pool, s) + 1 else Freq(pool, s)
    ensures TrieInv(Bump(pool, n), paths)
  {
    var q := Bump(pool, n);
    forall s
      ensures Walk(q, s) == Walk(pool, s)
    {
      WalkSameShape(pool, q, s);
    }
  }

  /** The walk from node k along t, taking the first character first (recursiveHelper's order). */
  ghost function Sub(pool: seq<Node>, k: nat, t: string): (r: Option<nat>)
    requires WF(pool) && k < |pool|
    ensures r.Some? ==> r.value < |pool|
    decreases |t|
  {
    if t == [] then Some(k)
    else match Child(pool, k, t[0])
      case None => None
      case Some(j) => Sub(pool, j, t[1..])
  }

  /** The frequency at the end of Sub, 0 when it falls off. */
  ghost function SubFreq(pool: seq<Node>, k: nat, t: string): nat
    requires WF(pool) && k < |pool|
  {
    match Sub(pool, k, t)
    case None => 0
    case Some(m) => pool[m].frequencyCount
  }

  lemma {:induction false} SubSnoc(pool: seq<Node>, k: nat, t: string, x: char)
    requires WF(pool) && k < |pool|
    ensures Sub(pool, k, t + [x]) ==
            match Sub(pool, k, t)
            case None => None
            case Some(m) => Child(pool, m, x)
    decreases |t|
  {
    if t == [] {
      assert [] + [x] == [x] && [x][1..] == [];
    } else {
      assert (t + [x])[0] == t[0] && (t + [x])[1..] == t[1..] + [x];
      match Child(pool, k, t[0])
      case None =>
      case Some(j) => SubSnoc(pool, j, t[1..], x);
    }
  }

  /** Walking from the root in either direction reaches the same node. */
  lemma {:induction false} WalkIsSub(pool: seq<Node>, s: string)
    requires WF(pool)
    ensures Walk(pool, s) == Sub(pool, 0, s)
    decreases |s|
  {
    if s != [] {
      var s' := s[..|s| - 1];
      WalkIsSub(pool, s');
      SubSnoc(pool, 0, s', s[|s| - 1]);
      assert s' + [s[|s| - 1]] == s;
    }
  }
}
