// Facts about rearranged sequences.
module Permutations {

  predicate Distinct<T(==)>(s: seq<T>) {
    forall m, n | 0 <= m < n < |s| :: s[m] != s[n]
  }

  lemma {:induction false} DistinctOnce<T>(s: seq<T>, x: T)
    requires Distinct(s)
    ensures multiset(s)[x] <= 1
  {
    if s != [] {
      var init := s[..|s|-1];
      assert s == init + [s[|s|-1]];
      DistinctOnce(init, x);
      if x == s[|s|-1] {
        assert x !in init;
        assert multiset(init)[x] == 0;
      }
    }
  }

  lemma TwiceCounted<T>(s: seq<T>, m: nat, n: nat)
    requires m < n < |s| && s[m] == s[n]
    ensures multiset(s)[s[m]] >= 2
  {
    var a, b := s[..n], s[n..];
    assert s == a + b;
    assert a[m] in multiset(a) && b[0] in multiset(b);
  }

  /** A rearrangement of distinct elements has distinct elements. */
  lemma RearrangedDistinct<T>(s: seq<T>, t: seq<T>)
    requires multiset(s) == multiset(t) && Distinct(s)
    ensures Distinct(t)
  {
    forall m, n | 0 <= m < n < |t| ensures t[m] != t[n] {
      if t[m] == t[n] {
        TwiceCounted(t, m, n);
        DistinctOnce(s, t[m]);
      }
    }
  }

  /** Two lists of distinct elements with the same members are rearrangements of each other. */
  lemma SameElements<T>(s: seq<T>, t: seq<T>)
    requires Distinct(s) && Distinct(t) && forall x | x in s :: x in t
    requires forall x | x in t :: x in s
    ensures multiset(s) == multiset(t)
  {
    forall x | x in multiset(s) || x in multiset(t) ensures multiset(s)[x] == multiset(t)[x] {
      DistinctOnce(s, x);
      DistinctOnce(t, x);
      assert x in s && x in t;
      assert x in multiset(s) && x in multiset(t);
    }
  }

  lemma SameMembers<T>(s: seq<T>, t: seq<T>)
    requires multiset(s) == multiset(t)
    ensures forall x | x in s :: x in t
    ensures forall x | x in t :: x in s
  {
    forall x | x in s ensures x in t { assert x in multiset(t); }
    forall x | x in t ensures x in s { assert x in multiset(s); }
  }

  lemma DistinctParts<T>(s: seq<T>, t: seq<T>)
    requires Distinct(s + t)
    ensures Distinct(s) && Distinct(t) && forall x | x in t :: x !in s
  {
    var all := s + t;
    assert forall m | 0 <= m < |s| :: all[m] == s[m];
    assert forall n | 0 <= n < |t| :: all[|s|+n] == t[n];
  }

  lemma SameLength<T>(s: seq<T>, t: seq<T>)
    requires multiset(s) == multiset(t)
    ensures |s| == |t|
  {
    assert |multiset(s)| == |s| && |multiset(t)| == |t|;
  }

  /** Rearranging a sequence with a common end rearranges its beginning. */
  lemma RearrangedPrefix<T>(s: seq<T>, t: seq<T>, n: nat)
    requires n <= |s| == |t| && multiset(s) == multiset(t) && s[n..] == t[n..]
    ensures multiset(s[..n]) == multiset(t[..n])
  {
    assert s == s[..n] + s[n..] && t == t[..n] + t[n..];
    assert multiset(s) == multiset(s[..n]) + multiset(s[n..]);
    assert multiset(t) == multiset(t[..n]) + multiset(t[n..]);
    assert multiset(s[..n]) == multiset(s) - multiset(s[n..]);
    assert multiset(t[..n]) == multiset(t) - multiset(t[n..]);
  }
}
