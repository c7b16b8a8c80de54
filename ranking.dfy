/**
 * How the suggester ranks the dictionary words among its candidates: the highest
 * frequency wins, and among equally frequent words the first key of a TreeMap, that is
 * the lexicographically least one, is returned.
 */
module Ranking {
  import opened Lex

  /** The candidates of S that are dictionary words, with their frequencies. */
  ghost function Matches(S: set<string>, words: map<string, nat>): (m: map<string, nat>)
    ensures m.Keys == S * words.Keys
    ensures forall s | s in m :: m[s] == words[s]
  {
    map s | s in S && s in words :: words[s]
  }

  /** The entries of m with the largest value: what the two loops of findWordWithHighestFrequency put. */
  ghost function Ties(m: map<string, nat>): (t: map<string, nat>)
    ensures t.Keys <= m.Keys
    ensures forall k | k in t :: t[k] == m[k] && forall k' | k' in m :: m[k'] <= m[k]
  {
    map k | k in m && (forall k' | k' in m :: m[k'] <= m[k]) :: m[k]
  }

  /** `k` is the answer for m: a most frequent key, and the least such key. */
  ghost predicate IsBest(m: map<string, nat>, k: string) {
    k in m &&
    (forall k' | k' in m :: m[k'] <= m[k]) &&
    (forall k' | k' in m && m[k'] == m[k] :: LessEq(k, k'))
  }

  /** The candidates of D plus one more candidate s. */
  lemma MatchesStep(D: set<string>, s: string, words: map<string, nat>)
    ensures Matches(D + {s}, words) ==
            if s in words then Matches(D, words)[s := words[s]] else Matches(D, words)
  {
  }

  /** Every non-empty map has a key of largest value. */
  lemma {:induction false} MaxExists(m: map<string, nat>)
    requires m != map[]
    ensures exists k | k in m :: forall k' | k' in m :: m[k'] <= m[k]
    decreases m.Keys
  {
    var k :| k in m;
    var rest := m - {k};
    assert forall k' | k' in m :: k' == k || k' in rest;
    if rest == map[] {
      assert forall k' | k' in m :: m[k'] <= m[k];
    } else {
      MaxExists(rest);
      var j :| j in rest && forall k' | k' in rest :: rest[k'] <= rest[j];
      assert forall k' | k' in rest :: m[k'] == rest[k'];
      var top := if m[k] <= m[j] then j else k;
      assert top in m && forall k' | k' in m :: m[k'] <= m[top];
    }
  }

  /** Every non-empty set of strings has a lexicographically least member. */
  lemma {:induction false} LeastExists(S: set<string>)
    requires S != {}
    ensures exists k | k in S :: forall k' | k' in S :: LessEq(k, k')
    decreases S
  {
    var k :| k in S;
    var rest := S - {k};
    assert forall k' | k' in S :: k' == k || k' in rest;
    if rest == {} {
      assert forall k' | k' in S :: LessEq(k, k');
    } else {
      LeastExists(rest);
      var j :| j in rest && forall k' | k' in rest :: LessEq(j, k');
      Total(k, j);
      if Less(k, j) {
        forall k' | k' in rest
          ensures LessEq(k, k')
        {
          if j != k' {
            Transitive(k, j, k');
          }
        }
        assert forall k' | k' in S :: LessEq(k, k');
      } else {
        assert forall k' | k' in S :: LessEq(j, k');
      }
    }
  }

  /** Every non-empty map has an answer. */
  lemma BestExists(m: map<string, nat>)
    requires m != map[]
    ensures exists k :: IsBest(m, k)
  {
    MaxExists(m);
    var top :| top in m && forall k' | k' in m :: m[k'] <= m[top];
    var tied := set k' | k' in m && m[k'] == m[top];
    assert top in tied;
    LeastExists(tied);
    var k :| k in tied && forall k' | k' in tied :: LessEq(k, k');
    assert IsBest(m, k);
  }

  /** The answer is unique. */
  lemma BestUnique(m: map<string, nat>, k1: string, k2: string)
    requires IsBest(m, k1) && IsBest(m, k2)
    ensures k1 == k2
  {
    if k1 != k2 {
      assert Less(k1, k2) && Less(k2, k1);
      Asymmetric(k1, k2);
    }
  }

  /** The answer for a non-empty map. */
  ghost function Best(m: map<string, nat>): (k: string)
    requires m != map[]
    ensures IsBest(m, k)
  {
    BestExists(m);
    var k :| IsBest(m, k); k
  }

  /** The least key of the ties is the answer: what returning the TreeMap's first key achieves. */
  lemma LeastTieIsBest(m: map<string, nat>, k: string)
    requires k in Ties(m)
    requires forall k' | k' in Ties(m) :: LessEq(k, k')
    ensures IsBest(m, k) && k == Best(m)
  {
    forall k' | k' in m && m[k'] == m[k]
      ensures LessEq(k, k')
    {
      assert k' in Ties(m);
    }
    BestUnique(m, k, Best(m));
  }

  /** The entries of m among D whose value is h: what the put loop has stored after visiting D. */
  ghost function TiedAmong(m: map<string, nat>, D: set<string>, h: nat): (t: map<string, nat>)
    ensures t.Keys <= D * m.Keys
    ensures forall k | k in t :: t[k] == h
  {
    map k | k in D && k in m && m[k] == h :: h
  }

  /** Visiting one more key s of the put loop. */
  lemma TiedAmongStep(m: map<string, nat>, D: set<string>, s: string, h: nat)
    requires s in m
    ensures TiedAmong(m, {}, h) == map[]
    ensures TiedAmong(m, D + {s}, h) ==
            if m[s] == h then TiedAmong(m, D, h)[s := h] else TiedAmong(m, D, h)
  {
  }

  /**
   * When h bounds every value of m and is attained, or is 0 (the initial highest of
   * findWordWithHighestFrequency), the entries of value h are exactly the ties.
   */
  lemma TiesOfMax(m: map<string, nat>, h: nat)
    requires forall k | k in m :: m[k] <= h
    requires h == 0 || exists k | k in m :: m[k] == h
    ensures TiedAmong(m, m.Keys, h) == Ties(m)
    ensures m != map[] ==> Ties(m) != map[]
  {
    if m != map[] {
      var k :| k in m;
      if h == 0 {
        assert k in Ties(m);
      } else {
        var top :| top in m && m[top] == h;
        assert top in Ties(m);
      }
    }
  }

  /** Putting k into an overridden map is putting it into the overriding part. */
  lemma OverridePut(a: map<string, nat>, b: map<string, nat>, k: string, v: nat)
    ensures (a + b)[k := v] == a + b[k := v]
  {
    var lhs, rhs := (a + b)[k := v], a + b[k := v];
    assert lhs.Keys == rhs.Keys;
    forall j | j in lhs
      ensures lhs[j] == rhs[j]
    {
    }
  }

  /** Overriding the empty map changes nothing; the empty map has no ties. */
  lemma EmptyOverride(m: map<string, nat>)
    ensures map[] + m == m
    ensures Ties(map[]) == map[]
  {
  }
}
