/**
 * Trie.recursiveHelper: the position-by-position comparison of two node trees that
 * Trie.equals runs after comparing the counters.
 */
module TrieEquality {
  import opened Wrappers
  import opened Alphabet
  import opened Nodes
  import opened TrieWalk

  /** recursiveHelper(r1, r2): equal frequencies, and slot by slot the same children. */
  function RecursiveHelper(p1: seq<Node>, k1: nat, p2: seq<Node>, k2: nat): bool
    requires WF(p1) && WF(p2) && k1 < |p1| && k2 < |p2|
    decreases |p1| - k1, AlphabetSize + 1
  {
    p1[k1].GetValue() == p2[k2].GetValue() && SlotsMatch(p1, k1, p2, k2, 0)
  }

  /** The helper's loop over the slots i..25, stopping at the first mismatch. */
  function SlotsMatch(p1: seq<Node>, k1: nat, p2: seq<Node>, k2: nat, i: nat): bool
    requires WF(p1) && WF(p2) && k1 < |p1| && k2 < |p2| && i <= AlphabetSize
    decreases |p1| - k1, AlphabetSize - i
  {
    if i == AlphabetSize then true
    else
      var childOne, childTwo := p1[k1].nodes[i], p2[k2].nodes[i];
      if (childOne.Some? || childTwo.Some?) && (childOne.None? || childTwo.None?) then false
      else if childOne.Some? && childTwo.Some? &&
              !RecursiveHelper(p1, childOne.value, p2, childTwo.value) then false
      else SlotsMatch(p1, k1, p2, k2, i + 1)
  }

  /** Below k1 and k2 the same lower-case strings lead to nodes, with the same frequencies. */
  ghost predicate SameFrom(p1: seq<Node>, k1: nat, p2: seq<Node>, k2: nat)
    requires WF(p1) && WF(p2) && k1 < |p1| && k2 < |p2|
  {
    forall t | IsWord(t) ::
      (Sub(p1, k1, t).Some? <==> Sub(p2, k2, t).Some?) && SubFreq(p1, k1, t) == SubFreq(p2, k2, t)
  }

  /** What a successful slot loop says about one slot c at or after i. */
  lemma {:induction false} SlotAt(p1: seq<Node>, k1: nat, p2: seq<Node>, k2: nat, i: nat, c: nat)
    requires WF(p1) && WF(p2) && k1 < |p1| && k2 < |p2| && i <= c < AlphabetSize
    requires SlotsMatch(p1, k1, p2, k2, i)
    ensures p1[k1].nodes[c].Some? <==> p2[k2].nodes[c].Some?
    ensures p1[k1].nodes[c].Some? ==>
              RecursiveHelper(p1, p1[k1].nodes[c].value, p2, p2[k2].nodes[c].value)
    decreases c - i
  {
    if i < c {
      SlotAt(p1, k1, p2, k2, i + 1, c);
    }
  }

  /** The helper fails when two corresponding nodes differ in frequency or in one child slot. */
  lemma HelperShortCircuits(p1: seq<Node>, k1: nat, p2: seq<Node>, k2: nat)
    requires WF(p1) && WF(p2) && k1 < |p1| && k2 < |p2|
    requires RecursiveHelper(p1, k1, p2, k2)
    ensures p1[k1].frequencyCount == p2[k2].frequencyCount
    ensures forall c | 0 <= c < AlphabetSize :: p1[k1].nodes[c].Some? <==> p2[k2].nodes[c].Some?
  {
    forall c | 0 <= c < AlphabetSize
      ensures p1[k1].nodes[c].Some? <==> p2[k2].nodes[c].Some?
    {
      SlotAt(p1, k1, p2, k2, 0, c);
    }
  }

  lemma {:induction false} HelperSoundAt(p1: seq<Node>, k1: nat, p2: seq<Node>, k2: nat, t: string)
    requires WF(p1) && WF(p2) && k1 < |p1| && k2 < |p2|
    requires RecursiveHelper(p1, k1, p2, k2) && IsWord(t)
    ensures Sub(p1, k1, t).Some? <==> Sub(p2, k2, t).Some?
    ensures SubFreq(p1, k1, t) == SubFreq(p2, k2, t)
    decreases |t|
  {
    if t != [] {
      var c := CharToAscii(t[0]);
      LetterRoundTrip(t[0]);
      SlotAt(p1, k1, p2, k2, 0, c);
      assert IsWord(t[1..]);
      if p1[k1].nodes[c].Some? {
        HelperSoundAt(p1, p1[k1].nodes[c].value, p2, p2[k2].nodes[c].value, t[1..]);
      }
    }
  }

  lemma HelperSound(p1: seq<Node>, k1: nat, p2: seq<Node>, k2: nat)
    requires WF(p1) && WF(p2) && k1 < |p1| && k2 < |p2|
    requires RecursiveHelper(p1, k1, p2, k2)
    ensures SameFrom(p1, k1, p2, k2)
  {
    forall t | IsWord(t)
      ensures (Sub(p1, k1, t).Some? <==> Sub(p2, k2, t).Some?) && SubFreq(p1, k1, t) == SubFreq(p2, k2, t)
    {
      HelperSoundAt(p1, k1, p2, k2, t);
    }
  }

  lemma {:induction false} HelperComplete(p1: seq<Node>, k1: nat, p2: seq<Node>, k2: nat)
    requires WF(p1) && WF(p2) && k1 < |p1| && k2 < |p2|
    requires SameFrom(p1, k1, p2, k2)
    ensures RecursiveHelper(p1, k1, p2, k2)
    decreases |p1| - k1, AlphabetSize + 1
  {
    assert IsWord([]) && SubFreq(p1, k1, []) == SubFreq(p2, k2, []);
    SlotsComplete(p1, k1, p2, k2, 0);
  }

  lemma {:induction false} SlotsComplete(p1: seq<Node>, k1: nat, p2: seq<Node>, k2: nat, i: nat)
    requires WF(p1) && WF(p2) && k1 < |p1| && k2 < |p2| && i <= AlphabetSize
    requires SameFrom(p1, k1, p2, k2)
    ensures SlotsMatch(p1, k1, p2, k2, i)
    decreases |p1| - k1, AlphabetSize - i
  {
    if i < AlphabetSize {
      var x := AsciiToChar(i);
      SlotRoundTrip(i);
      assert IsWord([x]) && [x][0] == x && [x][1..] == [];
      var childOne, childTwo := p1[k1].nodes[i], p2[k2].nodes[i];
      assert Child(p1, k1, x) == childOne && Child(p2, k2, x) == childTwo;
      assert Sub(p1, k1, [x]).Some? <==> childOne.Some?;
      assert Sub(p2, k2, [x]).Some? <==> childTwo.Some?;
      assert childOne.Some? <==> childTwo.Some?;
      if childOne.Some? && childTwo.Some? {
        var a, b := childOne.value, childTwo.value;
        forall t | IsWord(t)
          ensures (Sub(p1, a, t).Some? <==> Sub(p2, b, t).Some?) && SubFreq(p1, a, t) == SubFreq(p2, b, t)
        {
          var xt := [x] + t;
          assert IsWord(xt) && xt[0] == x && xt[1..] == t;
          assert Sub(p1, k1, xt) == Sub(p1, a, t);
          assert Sub(p2, k2, xt) == Sub(p2, b, t);
        }
        HelperComplete(p1, a, p2, b);
      }
      SlotsComplete(p1, k1, p2, k2, i + 1);
    }
  }

  lemma HelperReflexive(p: seq<Node>, k: nat)
    requires WF(p) && k < |p|
    ensures RecursiveHelper(p, k, p, k)
  {
    HelperComplete(p, k, p, k);
  }

  lemma HelperSymmetric(p1: seq<Node>, k1: nat, p2: seq<Node>, k2: nat)
    requires WF(p1) && WF(p2) && k1 < |p1| && k2 < |p2|
    ensures RecursiveHelper(p1, k1, p2, k2) == RecursiveHelper(p2, k2, p1, k1)
  {
    if RecursiveHelper(p1, k1, p2, k2) {
      HelperSound(p1, k1, p2, k2);
      HelperComplete(p2, k2, p1, k1);
    }
    if RecursiveHelper(p2, k2, p1, k1) {
      HelperSound(p2, k2, p1, k1);
      HelperComplete(p1, k1, p2, k2);
    }
  }

  /** Two arenas with the same lower-case paths and frequencies. */
  ghost predicate SameContent(p1: seq<Node>, p2: seq<Node>)
    requires WF(p1) && WF(p2)
  {
    forall s | IsWord(s) :: (Walk(p1, s).Some? <==> Walk(p2, s).Some?) && Freq(p1, s) == Freq(p2, s)
  }

  /** From the roots, the helper holds exactly when both tries store the same paths and frequencies. */
  lemma HelperIffSameContent(p1: seq<Node>, p2: seq<Node>)
    requires WF(p1) && WF(p2)
    ensures RecursiveHelper(p1, 0, p2, 0) <==> SameContent(p1, p2)
  {
    forall s | IsWord(s)
      ensures Walk(p1, s) == Sub(p1, 0, s) && Walk(p2, s) == Sub(p2, 0, s)
      ensures Freq(p1, s) == SubFreq(p1, 0, s) && Freq(p2, s) == SubFreq(p2, 0, s)
    {
      WalkIsSub(p1, s);
      WalkIsSub(p2, s);
    }
    if RecursiveHelper(p1, 0, p2, 0) {
      HelperSound(p1, 0, p2, 0);
    }
    if SameContent(p1, p2) {
      HelperComplete(p1, 0, p2, 0);
    }
  }
}
