/** Sequence vocabulary shared by the three screens: order-preserving
    subsequences, the `Array.prototype.filter` every list view is built on,
    and the first-occurrence de-duplication behind `Array.from(new Set(xs))`. */
module Seqs {

  /** `r` is obtained from `s` by deleting elements, keeping the order of the rest. */
  ghost predicate IsSubsequence<T>(r: seq<T>, s: seq<T>)
    decreases |s|
  {
    && |r| <= |s|
    && (|r| == 0
        || (r[0] == s[0] && IsSubsequence(r[1..], s[1..]))
        || IsSubsequence(r, s[1..]))
  }

  lemma {:induction false} SubsequenceRefl<T>(s: seq<T>)
    ensures IsSubsequence(s, s)
    decreases |s|
  {
    if |s| > 0 {
      SubsequenceRefl(s[1..]);
    }
  }

  /** A subsequence never holds an element more often than the sequence it came from. */
  lemma {:induction false} SubsequenceMultiset<T>(r: seq<T>, s: seq<T>)
    requires IsSubsequence(r, s)
    ensures multiset(r) <= multiset(s)
    decreases |s|
  {
    if |r| == 0 {
    } else if r[0] == s[0] && IsSubsequence(r[1..], s[1..]) {
      SubsequenceMultiset(r[1..], s[1..]);
      assert r == [r[0]] + r[1..];
      assert s == [s[0]] + s[1..];
    } else {
      SubsequenceMultiset(r, s[1..]);
      assert s == [s[0]] + s[1..];
    }
  }

  lemma {:induction false} SubsequenceTrans<T>(a: seq<T>, b: seq<T>, c: seq<T>)
    requires IsSubsequence(a, b) && IsSubsequence(b, c)
    ensures IsSubsequence(a, c)
    decreases |c|
  {
    if |a| == 0 {
    } else if b[0] == c[0] && IsSubsequence(b[1..], c[1..]) {
      if a[0] == b[0] && IsSubsequence(a[1..], b[1..]) {
        SubsequenceTrans(a[1..], b[1..], c[1..]);
      } else {
        SubsequenceTrans(a, b[1..], c[1..]);
      }
    } else {
      SubsequenceTrans(a, b, c[1..]);
    }
  }

  /** The elements of `s` that satisfy `p`, in their original order (JavaScript's `filter`). */
  function Filter<T>(p: T -> bool, s: seq<T>): (r: seq<T>)
    ensures forall x | x in r :: x in s && p(x)
    ensures forall x | x in s && p(x) :: x in r
    ensures IsSubsequence(r, s)
    ensures forall x | x in s && p(x) :: multiset(r)[x] == multiset(s)[x]
    decreases |s|
  {
    if |s| == 0 then []
    else
      var rest := Filter(p, s[1..]);
      assert s == [s[0]] + s[1..];
      if p(s[0]) then [s[0]] + rest else rest
  }

  /** The contract of `Filter` pins its result down completely: any order-preserving
      subsequence of `s` that keeps only `p`-elements, and keeps each of them as often as
      `s` holds it, is `Filter(p, s)`. */
  lemma {:induction false} FilterUnique<T>(p: T -> bool, s: seq<T>, r: seq<T>)
    requires IsSubsequence(r, s)
    requires forall x | x in r :: p(x)
    requires forall x | x in s && p(x) :: multiset(r)[x] == multiset(s)[x]
    ensures r == Filter(p, s)
    decreases |s|
  {
    if |s| == 0 {
      return;
    }
    var h, t := s[0], s[1..];
    assert s == [h] + t;
    if p(h) {
      assert multiset(r)[h] == multiset(s)[h] > multiset(t)[h];
      assert h in multiset(r);
      if r[0] == h && IsSubsequence(r[1..], t) {
        assert r == [h] + r[1..];
        forall x | x in t && p(x) ensures multiset(r[1..])[x] == multiset(t)[x] {
          assert multiset(r)[x] == multiset(r[1..])[x] + (if x == h then 1 else 0);
        }
        FilterUnique(p, t, r[1..]);
      } else {
        assert IsSubsequence(r, t);
        SubsequenceMultiset(r, t);
        assert false;
      }
    } else {
      if |r| > 0 {
        assert p(r[0]);
      }
      assert IsSubsequence(r, t);
      forall x | x in t && p(x) ensures multiset(r)[x] == multiset(t)[x] {
        assert x != h;
      }
      FilterUnique(p, t, r);
    }
  }

  /** A predicate that holds of every element keeps the whole sequence. */
  lemma {:induction false} FilterKeepsAll<T>(p: T -> bool, s: seq<T>)
    requires forall i :: 0 <= i < |s| ==> p(s[i])
    ensures Filter(p, s) == s
    decreases |s|
  {
    if |s| > 0 {
      FilterKeepsAll(p, s[1..]);
    }
  }

  /** Filtering by a stronger predicate yields a subsequence of filtering by a weaker one. */
  lemma {:induction false} FilterMonotone<T>(p: T -> bool, q: T -> bool, s: seq<T>)
    requires forall x :: p(x) ==> q(x)
    ensures IsSubsequence(Filter(p, s), Filter(q, s))
    decreases |s|
  {
    if |s| > 0 {
      FilterMonotone(p, q, s[1..]);
    }
  }

  /** Predicates that agree on every element of `s` filter it alike. */
  lemma {:induction false} FilterAgree<T>(p: T -> bool, q: T -> bool, s: seq<T>)
    requires forall i :: 0 <= i < |s| ==> p(s[i]) == q(s[i])
    ensures Filter(p, s) == Filter(q, s)
    decreases |s|
  {
    if |s| > 0 {
      FilterAgree(p, q, s[1..]);
    }
  }

  /** Independent criteria may be applied in one pass or one after the other. */
  lemma {:induction false} FilterConjunction<T>(p: T -> bool, q: T -> bool, both: T -> bool, s: seq<T>)
    requires forall x :: both(x) == (p(x) && q(x))
    ensures Filter(both, s) == Filter(p, Filter(q, s))
    decreases |s|
  {
    if |s| > 0 {
      FilterConjunction(p, q, both, s[1..]);
      assert s == [s[0]] + s[1..];
    }
  }

  predicate NoDuplicates<T(==)>(s: seq<T>)
  {
    forall i, j :: 0 <= i < j < |s| ==> s[i] != s[j]
  }

  /** Index of the first occurrence of `x` in `s`. */
  function FirstIndex<T(==)>(s: seq<T>, x: T): (k: nat)
    requires x in s
    ensures k < |s| && s[k] == x && x !in s[..k]
    decreases |s|
  {
    if s[0] == x then 0
    else
      var k := 1 + FirstIndex(s[1..], x);
      assert s[..k] == [s[0]] + s[1..][..k - 1];
      k
  }

  /** Each distinct element of `s` once, in order of first appearance -- what
      `Array.from(new Set(s))` yields, since a JavaScript `Set` iterates in
      insertion order. */
  method DistinctInOrder<T(==)>(s: seq<T>) returns (d: seq<T>)
    ensures forall x :: x in d <==> x in s
    ensures NoDuplicates(d)
    ensures forall i, j :: 0 <= i < j < |d| ==> FirstIndex(s, d[i]) < FirstIndex(s, d[j])
  {
    d := [];
    var n := 0;
    while n < |s|
      invariant 0 <= n <= |s|
      invariant forall x :: x in d <==> x in s[..n]
      invariant NoDuplicates(d)
      invariant forall k :: 0 <= k < |d| ==> d[k] in s
      invariant forall k :: 0 <= k < |d| ==> FirstIndex(s, d[k]) < n
      invariant forall i, j :: 0 <= i < j < |d| ==> FirstIndex(s, d[i]) < FirstIndex(s, d[j])
    {
      assert s[..n + 1] == s[..n] + [s[n]];
      if s[n] !in d {
        assert s[n] in s[..n + 1];
        assert FirstIndex(s, s[n]) == n;
        d := d + [s[n]];
      }
      n := n + 1;
    }
    assert s[..n] == s;
  }
}
