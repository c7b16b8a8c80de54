/**
 * Lexicographic order on strings, as Java's String.compareTo defines it: the first
 * position where the strings differ decides, and a proper prefix comes first.  This
 * is the key order of the TreeMap the suggester ranks its matches in.
 */
module Lex {

  /** `Less(a, b)` holds iff `a.compareTo(b) < 0`. */
  predicate Less(a: string, b: string)
    decreases |a|
  {
    if |a| == 0 then |b| > 0
    else if |b| == 0 then false
    else if a[0] != b[0] then a[0] < b[0]
    else Less(a[1..], b[1..])
  }

  predicate LessEq(a: string, b: string) {
    a == b || Less(a, b)
  }

  /** `p` is a prefix of `s`. */
  predicate IsPrefix(p: string, s: string) {
    |p| <= |s| && s[..|p|] == p
  }

  /** A sequence of strings in strictly ascending order (so also without duplicates). */
  predicate Sorted(xs: seq<string>) {
    forall i, j | 0 <= i < j < |xs| :: Less(xs[i], xs[j])
  }

  lemma {:induction false} Irreflexive(a: string)
    ensures !Less(a, a)
    decreases |a|
  {
    if |a| > 0 {
      Irreflexive(a[1..]);
    }
  }

  lemma {:induction false} Transitive(a: string, b: string, c: string)
    requires Less(a, b) && Less(b, c)
    ensures Less(a, c)
    decreases |a|
  {
    if |a| > 0 && a[0] == b[0] && b[0] == c[0] {
      Transitive(a[1..], b[1..], c[1..]);
    }
  }

  lemma {:induction false} Total(a: string, b: string)
    ensures a == b || Less(a, b) || Less(b, a)
    decreases |a|
  {
    if |a| > 0 && |b| > 0 && a[0] == b[0] {
      Total(a[1..], b[1..]);
      if a[1..] == b[1..] {
        assert a == [a[0]] + a[1..] && b == [b[0]] + b[1..];
      }
    }
  }

  lemma {:induction false} Asymmetric(a: string, b: string)
    requires Less(a, b)
    ensures !Less(b, a)
  {
    if Less(b, a) {
      Transitive(a, b, a);
      Irreflexive(a);
    }
  }

  /** A proper prefix comes before every extension of it. */
  lemma {:induction false} PrefixLess(p: string, s: string)
    requires IsPrefix(p, s) && |p| < |s|
    ensures Less(p, s)
    decreases |p|
  {
    if |p| > 0 {
      assert s[1..][..|p| - 1] == p[1..];
      PrefixLess(p[1..], s[1..]);
    }
  }

  /** Two strings that share the prefix `p` are ordered by their characters just after it. */
  lemma {:induction false} DivergeLess(p: string, a: string, b: string)
    requires IsPrefix(p, a) && IsPrefix(p, b) && |p| < |a| && |p| < |b|
    requires a[|p|] < b[|p|]
    ensures Less(a, b)
    decreases |p|
  {
    if |p| > 0 {
      assert a[0] == p[0] == b[0];
      assert a[1..][..|p| - 1] == p[1..] && b[1..][..|p| - 1] == p[1..];
      DivergeLess(p[1..], a[1..], b[1..]);
    }
  }

  /** Concatenating two sorted runs, every element of the first below every element of the second. */
  lemma SortedAppend(xs: seq<string>, ys: seq<string>)
    requires Sorted(xs) && Sorted(ys)
    requires forall x, y | x in xs && y in ys :: Less(x, y)
    ensures Sorted(xs + ys)
  {
    forall i, j | 0 <= i < j < |xs + ys|
      ensures Less((xs + ys)[i], (xs + ys)[j])
    {
      if j < |xs| {
        assert (xs + ys)[i] == xs[i] && (xs + ys)[j] == xs[j];
      } else if i >= |xs| {
        assert (xs + ys)[i] == ys[i - |xs|] && (xs + ys)[j] == ys[j - |xs|];
      } else {
        assert (xs + ys)[i] in xs && (xs + ys)[j] in ys;
      }
    }
  }

  /**
   * The first key of a non-empty TreeMap<String, Integer>: the least key in the
   * lexicographic order.
   */
  method FirstKey(m: map<string, nat>) returns (k: string)
    requires |m| > 0
    ensures k in m
    ensures forall k' | k' in m :: LessEq(k, k')
  {
    var rest := m.Keys;
    k :| k in rest;
    rest := rest - {k};
    while rest != {}
      invariant k in m && rest <= m.Keys
      invariant forall k' | k' in m.Keys - rest :: LessEq(k, k')
      decreases rest
    {
      var x :| x in rest;
      if Less(x, k) {
        forall k' | k' in m.Keys - rest
          ensures LessEq(x, k')
        {
          if k != k' {
            Transitive(x, k, k');
          }
        }
        k := x;
      } else {
        Total(k, x);
      }
      rest := rest - {x};
    }
  }
}
