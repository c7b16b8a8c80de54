/**
 * What Trie.toString emits: the depth-first, a-to-z listing of the words whose
 * frequency is positive, each followed by a newline.
 */
module TrieListing {
  import opened Wrappers
  import opened Alphabet
  import opened Nodes
  import opened Lex
  import opened TrieWalk

  /** The words of `ws`, each followed by "\n". */
  ghost function Render(ws: seq<string>): string {
    if ws == [] then [] else ws[0] + "\n" + Render(ws[1..])
  }

  lemma {:induction false} RenderAppend(a: seq<string>, b: seq<string>)
    ensures Render(a + b) == Render(a) + Render(b)
    decreases |a|
  {
    if a == [] {
      assert a + b == b;
    } else {
      assert (a + b)[0] == a[0] && (a + b)[1..] == a[1..] + b;
      RenderAppend(a[1..], b);
    }
  }

  /**
   * The words below node k, when the path buffer holds `p` on entry to k: `p` itself if
   * k's frequency is positive, then the listings of the children in slot order.
   */
  ghost function Listing(pool: seq<Node>, k: nat, p: string): seq<string>
    requires WF(pool) && k < |pool|
    decreases |pool| - k, AlphabetSize + 1
  {
    (if pool[k].frequencyCount > 0 then [p] else []) + ChildListings(pool, k, AlphabetSize, p)
  }

  /** The listings of the children of k in slots 0..i-1. */
  ghost function ChildListings(pool: seq<Node>, k: nat, i: nat, p: string): seq<string>
    requires WF(pool) && k < |pool| && i <= AlphabetSize
    decreases |pool| - k, i
  {
    if i == 0 then []
    else ChildListings(pool, k, i - 1, p) +
         match pool[k].nodes[i - 1]
         case None => []
         case Some(j) => Listing(pool, j, p + [AsciiToChar(i - 1)])
  }

  /**
   * What toStringHelper has written for node k once the children in slots 0..i-1 are
   * done: k's own word if its frequency is positive, then those children's listings.
   */
  ghost function Emitted(pool: seq<Node>, k: nat, i: nat, p: string): string
    requires WF(pool) && k < |pool| && i <= AlphabetSize
  {
    Render((if pool[k].frequencyCount > 0 then [p] else []) + ChildListings(pool, k, i, p))
  }

  /** Before any child: the buffer's word and a newline, or nothing. */
  lemma EmittedStart(pool: seq<Node>, k: nat, p: string)
    requires WF(pool) && k < |pool|
    ensures Emitted(pool, k, 0, p) == if pool[k].frequencyCount > 0 then p + "\n" else []
  {
    var own: seq<string> := if pool[k].frequencyCount > 0 then [p] else [];
    assert own + [] == own;
    if own != [] {
      assert own[1..] == [];
      assert Render(own) == p + "\n" + [];
    }
  }

  /** An empty slot i adds nothing to what was written before it. */
  lemma EmittedSkip(pool: seq<Node>, k: nat, i: nat, p: string)
    requires WF(pool) && k < |pool| && i < AlphabetSize && pool[k].nodes[i].None?
    ensures Emitted(pool, k, i + 1, p) == Emitted(pool, k, i, p)
  {
    var own: seq<string> := if pool[k].frequencyCount > 0 then [p] else [];
    assert own + ChildListings(pool, k, i + 1, p) == own + ChildListings(pool, k, i, p);
  }

  /** Slot i holding child j adds the listing of j, entered with the letter of slot i. */
  lemma EmittedChild(pool: seq<Node>, k: nat, i: nat, p: string, j: nat)
    requires WF(pool) && k < |pool| && i < AlphabetSize && pool[k].nodes[i] == Some(j)
    ensures j < |pool|
    ensures Emitted(pool, k, i + 1, p) == Emitted(pool, k, i, p) + Render(Listing(pool, j, p + [AsciiToChar(i)]))
  {
    var own: seq<string> := if pool[k].frequencyCount > 0 then [p] else [];
    var done := own + ChildListings(pool, k, i, p);
    var part := Listing(pool, j, p + [AsciiToChar(i)]);
    assert own + ChildListings(pool, k, i + 1, p) == done + part;
    RenderAppend(done, part);
  }

  /** Every listed word extends the buffer, and the listing ascends strictly. */
  lemma {:induction false} ListingOrdered(pool: seq<Node>, k: nat, p: string)
    requires WF(pool) && k < |pool|
    ensures Sorted(Listing(pool, k, p))
    ensures forall s | s in Listing(pool, k, p) :: IsPrefix(p, s)
    decreases |pool| - k, AlphabetSize + 1
  {
    var own := if pool[k].frequencyCount > 0 then [p] else [];
    var rest := ChildListings(pool, k, AlphabetSize, p);
    ChildListingsOrdered(pool, k, AlphabetSize, p);
    forall x, y | x in own && y in rest
      ensures Less(x, y)
    {
      PrefixLess(x, y);
    }
    SortedAppend(own, rest);
    assert p[..|p|] == p;
  }

  lemma {:induction false} ChildListingsOrdered(pool: seq<Node>, k: nat, i: nat, p: string)
    requires WF(pool) && k < |pool| && i <= AlphabetSize
    ensures Sorted(ChildListings(pool, k, i, p))
    ensures forall s | s in ChildListings(pool, k, i, p) ::
              IsPrefix(p, s) && |s| > |p| && s[|p|] as int < 'a' as int + i
    decreases |pool| - k, i
  {
    if i > 0 {
      var before := ChildListings(pool, k, i - 1, p);
      ChildListingsOrdered(pool, k, i - 1, p);
      if pool[k].nodes[i - 1].Some? {
        var j := pool[k].nodes[i - 1].value;
        var part := Listing(pool, j, p + [AsciiToChar(i - 1)]);
        ListingOrdered(pool, j, p + [AsciiToChar(i - 1)]);
        AppendChildOrdered(p, i - 1, before, part);
        assert ChildListings(pool, k, i, p) == before + part;
      } else {
        assert ChildListings(pool, k, i, p) == before + [];
      }
    }
  }

  /**
   * The listings of slots below c, followed by the listing of a child entered with the
   * letter of slot c, still ascend and stay below slot c + 1.
   */
  lemma AppendChildOrdered(p: string, c: nat, before: seq<string>, part: seq<string>)
    requires c < AlphabetSize
    requires Sorted(before) && forall s | s in before :: IsPrefix(p, s) && |s| > |p| && s[|p|] as int < 'a' as int + c
    requires Sorted(part) && forall s | s in part :: IsPrefix(p + [AsciiToChar(c)], s)
    ensures Sorted(before + part)
    ensures forall s | s in before + part :: IsPrefix(p, s) && |s| > |p| && s[|p|] as int < 'a' as int + c + 1
  {
    var q := p + [AsciiToChar(c)];
    forall s | s in part
      ensures IsPrefix(p, s) && |s| > |p| && s[|p|] == AsciiToChar(c)
    {
      assert s[..|q|][..|p|] == s[..|p|];
      assert q[..|p|] == p;
    }
    forall x, y | x in before && y in part
      ensures Less(x, y)
    {
      DivergeLess(p, x, y);
    }
    SortedAppend(before, part);
  }

  /** A word listed under the children comes from one child. */
  lemma {:induction false} ChildListingsMember(pool: seq<Node>, k: nat, i: nat, p: string, s: string)
    returns (c: nat, j: nat)
    requires WF(pool) && k < |pool| && i <= AlphabetSize
    requires s in ChildListings(pool, k, i, p)
    ensures c < i && pool[k].nodes[c] == Some(j) && j < |pool|
    ensures s in Listing(pool, j, p + [AsciiToChar(c)])
    decreases i
  {
    if s in ChildListings(pool, k, i - 1, p) {
      c, j := ChildListingsMember(pool, k, i - 1, p, s);
    } else {
      c, j := i - 1, pool[k].nodes[i - 1].value;
    }
  }

  /** Every word listed under a child is listed under its parent. */
  lemma {:induction false} ChildListingsInclude(pool: seq<Node>, k: nat, i: nat, p: string, c: nat, j: nat, s: string)
    requires WF(pool) && k < |pool| && i <= AlphabetSize
    requires c < i && pool[k].nodes[c] == Some(j)
    requires s in Listing(pool, j, p + [AsciiToChar(c)])
    ensures s in ChildListings(pool, k, i, p)
    decreases i
  {
    if c < i - 1 {
      ChildListingsInclude(pool, k, i - 1, p, c, j, s);
    }
  }

  /** The listing below node k holds only stored words that extend k's path. */
  lemma {:induction false} ListingSound(pool: seq<Node>, paths: seq<string>, k: nat, s: string)
    requires TrieInv(pool, paths) && k < |pool|
    requires s in Listing(pool, k, paths[k])
    ensures IsWord(s) && Freq(pool, s) > 0 && IsPrefix(paths[k], s)
    decreases |pool| - k
  {
    if s in ChildListings(pool, k, AlphabetSize, paths[k]) {
      var c, j := ChildListingsMember(pool, k, AlphabetSize, paths[k], s);
      var q := paths[k] + [AsciiToChar(c)];
      ChildPath(pool, paths, k, c);
      ListingSound(pool, paths, j, s);
      assert s[..|q|][..|paths[k]|] == s[..|paths[k]|];
    } else {
      assert s == paths[k];
    }
  }

  /** Every stored word that extends k's path is in the listing below k. */
  lemma {:induction false} ListingComplete(pool: seq<Node>, paths: seq<string>, k: nat, s: string)
    requires TrieInv(pool, paths) && k < |pool|
    requires IsWord(s) && Freq(pool, s) > 0 && IsPrefix(paths[k], s)
    ensures s in Listing(pool, k, paths[k])
    decreases |pool| - k
  {
    var p := paths[k];
    if |s| == |p| {
      assert s == p;
    } else {
      var u := s[..|p| + 1];
      var x := s[|p|];
      assert u == p + [x] && u[..|u| - 1] == p;
      WalkPrefix(pool, s, |p| + 1);
      LetterRoundTrip(x);
      var c := CharToAscii(x);
      assert Walk(pool, p) == Some(k);
      assert Walk(pool, u) == Child(pool, k, x) == pool[k].nodes[c];
      var j := pool[k].nodes[c].value;
      assert IsWord(u);
      assert paths[j] == u;
      assert s[..|u|] == u;
      ListingComplete(pool, paths, j, s);
      ChildListingsInclude(pool, k, AlphabetSize, p, c, j, s);
    }
  }

  /**
   * The whole listing ascends strictly (so no word appears twice) and holds exactly
   * the lower-case words with a positive frequency.
   */
  lemma ListingIsWords(pool: seq<Node>, paths: seq<string>)
    requires TrieInv(pool, paths)
    ensures Sorted(Listing(pool, 0, []))
    ensures forall s :: s in Listing(pool, 0, []) <==> IsWord(s) && Freq(pool, s) > 0
  {
    ListingOrdered(pool, 0, []);
    forall s
      ensures s in Listing(pool, 0, []) <==> IsWord(s) && Freq(pool, s) > 0
    {
      if s in Listing(pool, 0, []) {
        ListingSound(pool, paths, 0, s);
      }
      if IsWord(s) && Freq(pool, s) > 0 {
        assert IsPrefix([], s);
        ListingComplete(pool, paths, 0, s);
      }
    }
  }
}
