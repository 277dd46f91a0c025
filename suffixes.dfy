/** The meaning of a suffix array and an LCP array, independent of any
    algorithm: lexicographic order on strings, longest common prefixes,
    bounded prefixes of suffixes, and permutations of 0..n-1. */
module Suffixes {

  /** Strict lexicographic order; a proper prefix sorts before the longer
      string. */
  predicate LexLess(a: string, b: string)
    decreases |a|
  {
    |b| > 0 && (|a| == 0 || a[0] < b[0] || (a[0] == b[0] && LexLess(a[1..], b[1..])))
  }

  /** `a` is a prefix of `b`. */
  predicate IsPrefix(a: string, b: string) {
    |a| <= |b| && b[..|a|] == a
  }

  /** Length of the longest common prefix of `a` and `b`. */
  function Lcp(a: string, b: string): (r: nat)
    ensures r <= |a| && r <= |b|
    ensures forall t :: 0 <= t < r ==> a[t] == b[t]
    ensures r < |a| && r < |b| ==> a[r] != b[r]
    decreases |a|
  {
    if |a| > 0 && |b| > 0 && a[0] == b[0] then
      var rest := Lcp(a[1..], b[1..]);
      assert forall t :: 1 <= t < 1 + rest ==> a[t] == a[1..][t - 1] && b[t] == b[1..][t - 1];
      1 + rest
    else
      0
  }

  function Min(x: int, y: int): int {
    if x <= y then x else y
  }

  /** The first `k` symbols of the suffix at `i` (fewer when the suffix is
      shorter than `k`). */
  function Pre(s: string, i: nat, k: nat): (p: string)
    requires i <= |s|
    ensures |p| == Min(k, |s| - i)
    ensures IsPrefix(p, s[i..])
  {
    s[i..Min(i + k, |s|)]
  }

  /** The identity arrangement 0, 1, ..., n-1. */
  function Range(n: nat): (r: seq<int>)
    ensures |r| == n && forall k :: 0 <= k < n ==> r[k] == k
  {
    seq(n, k => k)
  }

  /** `sa` lists every position 0..n-1 exactly once. */
  predicate IsPermutation(sa: seq<int>, n: nat) {
    && |sa| == n
    && (forall k :: 0 <= k < n ==> 0 <= sa[k] < n)
    && (forall k, l :: 0 <= k < l < n ==> sa[k] != sa[l])
    && (forall i :: 0 <= i < n ==> i in sa)
  }

  /** The suffixes starting at the positions in `a` appear in strictly
      increasing lexicographic order. */
  predicate SuffixesAscending(s: string, a: seq<int>) {
    && (forall k :: 0 <= k < |a| ==> 0 <= a[k] <= |s|)
    && (forall k, l :: 0 <= k < l < |a| ==> LexLess(s[a[k]..], s[a[l]..]))
  }

  /** `sa` is the suffix array of `s`. */
  predicate IsSuffixArray(s: string, sa: seq<int>) {
    IsPermutation(sa, |s|) && SuffixesAscending(s, sa)
  }

  /** `rank` is the inverse permutation of `sa`. */
  predicate IsRankOf(sa: seq<int>, rank: seq<int>) {
    && |rank| == |sa|
    && (forall k :: 0 <= k < |sa| ==> 0 <= sa[k] < |rank| && rank[sa[k]] == k)
    && (forall i :: 0 <= i < |rank| ==> 0 <= rank[i] < |sa| && sa[rank[i]] == i)
  }

  /** `lcp` is the LCP array belonging to the suffix array `sa` of `s`. */
  predicate IsLcpArray(s: string, sa: seq<int>, lcp: seq<int>)
    requires IsSuffixArray(s, sa)
  {
    && |lcp| == |sa|
    && (|lcp| > 0 ==> lcp[0] == 0)
    && (forall k :: 1 <= k < |sa| ==> lcp[k] == Lcp(s[sa[k - 1]..], s[sa[k]..]))
  }

  // ---------------------------------------------------------------------
  // LexLess is a strict total order.

  lemma {:induction false} LexLessIrreflexive(a: string)
    ensures !LexLess(a, a)
    decreases |a|
  {
    if |a| > 0 {
      LexLessIrreflexive(a[1..]);
    }
  }

  lemma {:induction false} LexLessTransitive(a: string, b: string, c: string)
    requires LexLess(a, b) && LexLess(b, c)
    ensures LexLess(a, c)
    decreases |a|
  {
    if |a| > 0 && a[0] == b[0] && b[0] == c[0] {
      LexLessTransitive(a[1..], b[1..], c[1..]);
    }
  }

  lemma {:induction false} LexLessTotal(a: string, b: string)
    ensures a == b || LexLess(a, b) || LexLess(b, a)
    decreases |a|
  {
    if |a| > 0 && |b| > 0 && a[0] == b[0] {
      LexLessTotal(a[1..], b[1..]);
      if a[1..] == b[1..] {
        assert a == [a[0]] + a[1..] && b == [b[0]] + b[1..];
      }
    }
  }

  lemma LexLessAsymmetric(a: string, b: string)
    requires LexLess(a, b)
    ensures !LexLess(b, a)
  {
    if LexLess(b, a) {
      LexLessTransitive(a, b, a);
      LexLessIrreflexive(a);
    }
  }

  /** Exactly one of a < b, a == b, b < a. */
  lemma LexTrichotomy(a: string, b: string)
    ensures LexLess(a, b) <==> (a != b && !LexLess(b, a))
  {
    LexLessTotal(a, b);
    LexLessIrreflexive(a);
    if LexLess(a, b) {
      LexLessAsymmetric(a, b);
    }
  }

  /** Two strings that are not equal keep their relative order when each is
      extended, provided a string that is a proper prefix of the other is not
      extended. */
  lemma {:induction false} LexLessExtend(a: string, a2: string, b: string, b2: string)
    requires IsPrefix(a, a2) && IsPrefix(b, b2) && a != b
    requires IsPrefix(a, b) ==> a2 == a
    requires IsPrefix(b, a) ==> b2 == b
    ensures LexLess(a2, b2) <==> LexLess(a, b)
    decreases |a|
  {
    if |a| == 0 {
      assert IsPrefix(a, b);
    } else if |b| == 0 {
      assert IsPrefix(b, a);
    } else {
      assert a2[0] == a[0] && b2[0] == b[0];
      if a[0] == b[0] {
        var a', b' := a[1..], b[1..];
        assert a == [a[0]] + a' && b == [b[0]] + b';
        assert a2[1..][..|a'|] == a2[..|a|][1..] && b2[1..][..|b'|] == b2[..|b|][1..];
        assert IsPrefix(a', a2[1..]) && IsPrefix(b', b2[1..]);
        if IsPrefix(a', b') {
          assert IsPrefix(a, b);
          assert a2[1..] == a';
        }
        if IsPrefix(b', a') {
          assert IsPrefix(b, a);
          assert b2[1..] == b';
        }
        LexLessExtend(a', a2[1..], b', b2[1..]);
      }
    }
  }

  /** A shared head does not change the order. */
  lemma {:induction false} LexLessCommonPrefix(p: string, x: string, y: string)
    ensures LexLess(p + x, p + y) <==> LexLess(x, y)
    decreases |p|
  {
    if |p| > 0 {
      assert (p + x)[1..] == p[1..] + x && (p + y)[1..] == p[1..] + y;
      LexLessCommonPrefix(p[1..], x, y);
    } else {
      assert p + x == x && p + y == y;
    }
  }

  // ---------------------------------------------------------------------
  // Longest common prefixes.

  /** The three facts in the contract of `Lcp` determine it: a length that
      both strings share and at which they differ (or one ends) is their
      longest common prefix. */
  lemma LcpUnique(a: string, b: string, m: nat)
    requires m <= |a| && m <= |b|
    requires forall t :: 0 <= t < m ==> a[t] == b[t]
    requires m < |a| && m < |b| ==> a[m] != b[m]
    ensures Lcp(a, b) == m
  {
  }

  lemma {:induction false} LcpSymmetric(a: string, b: string)
    ensures Lcp(a, b) == Lcp(b, a)
    decreases |a|
  {
    if |a| > 0 && |b| > 0 && a[0] == b[0] {
      LcpSymmetric(a[1..], b[1..]);
    }
  }

  /** Among strings that sort between `a` and `c`, every one shares with `c`
      at least as long a prefix as `a` does. */
  lemma {:induction false} LcpSandwich(a: string, b: string, c: string)
    requires a == b || LexLess(a, b)
    requires LexLess(b, c)
    ensures Lcp(c, a) <= Lcp(c, b)
    decreases |a|
  {
    if a != b && Lcp(c, a) > 0 {
      assert a[0] == c[0] && b[0] == a[0];
      LcpSandwich(a[1..], b[1..], c[1..]);
    }
  }

  // ---------------------------------------------------------------------
  // Bounded prefixes of suffixes.

  /** The first `2*g` symbols of a suffix are its first `g` symbols followed
      by the first `g` symbols of the suffix `g` positions further on. */
  lemma PreSplit(s: string, i: nat, g: nat)
    requires i + g <= |s|
    ensures Pre(s, i, 2 * g) == Pre(s, i, g) + Pre(s, i + g, g)
  {
    var e := Min(i + 2 * g, |s|);
    assert s[i..e] == s[i..i + g] + s[i + g..e];
  }

  /** Once two bounded prefixes differ, a longer bound keeps them different
      and keeps their order. */
  lemma PreOrderStable(s: string, i: nat, j: nat, k: nat, k2: nat)
    requires i <= |s| && j <= |s| && k <= k2
    requires Pre(s, i, k) != Pre(s, j, k)
    ensures Pre(s, i, k2) != Pre(s, j, k2)
    ensures LexLess(Pre(s, i, k2), Pre(s, j, k2)) <==> LexLess(Pre(s, i, k), Pre(s, j, k))
  {
    var a, b := Pre(s, i, k), Pre(s, j, k);
    var a2, b2 := Pre(s, i, k2), Pre(s, j, k2);
    assert a == s[i..][..|a|] && a2 == s[i..][..|a2|];
    assert b == s[j..][..|b|] && b2 == s[j..][..|b2|];
    assert IsPrefix(a, a2) by { assert a2[..|a|] == s[i..][..|a|]; }
    assert IsPrefix(b, b2) by { assert b2[..|b|] == s[j..][..|b|]; }
    LexLessExtend(a, a2, b, b2);
  }

  /** A bound at least the text length gives the whole suffix. */
  lemma PreWhole(s: string, i: nat, k: nat)
    requires i <= |s| && |s| <= k
    ensures Pre(s, i, k) == s[i..]
  {
  }

  // ---------------------------------------------------------------------
  // Permutations.

  lemma {:induction false} RangeCount(n: nat, x: int)
    ensures multiset(Range(n))[x] == if 0 <= x < n then 1 else 0
  {
    if n > 0 {
      assert Range(n) == Range(n - 1) + [n - 1];
      RangeCount(n - 1, x);
    } else {
      assert Range(n) == [];
    }
  }

  /** A sequence with the same elements, counted with multiplicity, as
      0..n-1 is a permutation of 0..n-1. */
  lemma PermutationFromMultiset(sa: seq<int>, n: nat)
    requires multiset(sa) == multiset(Range(n))
    ensures IsPermutation(sa, n)
  {
    calc {
      |sa|;
      |multiset(sa)|;
      |multiset(Range(n))|;
      n;
    }
    forall k | 0 <= k < n
      ensures 0 <= sa[k] < n
    {
      assert sa[k] in multiset(sa);
      RangeCount(n, sa[k]);
    }
    forall k, l | 0 <= k < l < n
      ensures sa[k] != sa[l]
    {
      if sa[k] == sa[l] {
        var x := sa[k];
        assert sa == sa[..l] + sa[l..];
        assert multiset(sa) == multiset(sa[..l]) + multiset(sa[l..]);
        assert x in sa[..l] && x == sa[l..][0];
        assert multiset(sa)[x] >= 2;
        RangeCount(n, x);
        assert false;
      }
    }
    forall i | 0 <= i < n
      ensures i in sa
    {
      RangeCount(n, i);
      assert i in multiset(sa);
    }
  }

  // ---------------------------------------------------------------------
  // A suffix array is unique.

  /** Two strictly ascending arrangements of the same set of suffixes are
      equal. */
  lemma {:induction false} AscendingUnique(s: string, a: seq<int>, b: seq<int>)
    requires SuffixesAscending(s, a) && SuffixesAscending(s, b)
    requires |a| == |b|
    requires forall x :: x in a <==> x in b
    ensures a == b
    decreases |a|
  {
    if |a| > 0 {
      if a[0] != b[0] {
        assert b[0] in a && a[0] in b;
        var m :| 0 <= m < |a| && a[m] == b[0];
        var m' :| 0 <= m' < |b| && b[m'] == a[0];
        assert LexLess(s[a[0]..], s[b[0]..]);
        assert LexLess(s[b[0]..], s[a[0]..]);
        LexLessAsymmetric(s[a[0]..], s[b[0]..]);
        assert false;
      }
      forall x
        ensures x in a[1..] <==> x in b[1..]
      {
        if x in a[1..] {
          var m :| 1 <= m < |a| && a[m] == x;
          assert LexLess(s[a[0]..], s[a[m]..]);
          LexLessIrreflexive(s[a[0]..]);
          assert x in b && x != b[0];
        }
        if x in b[1..] {
          var m :| 1 <= m < |b| && b[m] == x;
          assert LexLess(s[b[0]..], s[b[m]..]);
          LexLessIrreflexive(s[b[0]..]);
          assert x in a && x != a[0];
        }
      }
      AscendingUnique(s, a[1..], b[1..]);
      assert a == [a[0]] + a[1..] && b == [b[0]] + b[1..];
    }
  }

  /** A text has exactly one suffix array. */
  lemma SuffixArrayUnique(s: string, sa1: seq<int>, sa2: seq<int>)
    requires IsSuffixArray(s, sa1) && IsSuffixArray(s, sa2)
    ensures sa1 == sa2
  {
    forall x
      ensures x in sa1 <==> x in sa2
    {
      if x in sa1 {
        var k :| 0 <= k < |sa1| && sa1[k] == x;
        assert x in sa2;
      }
      if x in sa2 {
        var k :| 0 <= k < |sa2| && sa2[k] == x;
        assert x in sa1;
      }
    }
    AscendingUnique(s, sa1, sa2);
  }

  /** Adjacent order suffices for a strictly ascending arrangement. */
  lemma {:induction false} AscendingFromAdjacent(s: string, a: seq<int>)
    requires forall k :: 0 <= k < |a| ==> 0 <= a[k] <= |s|
    requires forall k :: 1 <= k < |a| ==> LexLess(s[a[k - 1]..], s[a[k]..])
    ensures SuffixesAscending(s, a)
    decreases |a|
  {
    if |a| > 1 {
      var a' := a[..|a| - 1];
      AscendingFromAdjacent(s, a');
      forall k | 0 <= k < |a| - 1
        ensures LexLess(s[a[k]..], s[a[|a| - 1]..])
      {
        if k < |a| - 2 {
          assert LexLess(s[a'[k]..], s[a'[|a| - 2]..]);
          LexLessTransitive(s[a[k]..], s[a[|a| - 2]..], s[a[|a| - 1]..]);
        }
      }
    }
  }

  /** The rank table is determined by the suffix array: recomputing it from
      `sa` gives back the same table. */
  lemma RankOfUnique(sa: seq<int>, r1: seq<int>, r2: seq<int>)
    requires IsRankOf(sa, r1) && IsRankOf(sa, r2)
    ensures r1 == r2
  {
    forall i | 0 <= i < |r1|
      ensures r1[i] == r2[i]
    {
      assert sa[r2[i]] == i;
    }
  }

  /** The LCP array is determined by the suffix array. */
  lemma LcpArrayUnique(s: string, sa: seq<int>, l1: seq<int>, l2: seq<int>)
    requires IsSuffixArray(s, sa) && IsLcpArray(s, sa, l1) && IsLcpArray(s, sa, l2)
    ensures l1 == l2
  {
    forall k | 0 <= k < |l1|
      ensures l1[k] == l2[k]
    {
      if k > 0 {
        assert l1[k] == Lcp(s[sa[k - 1]..], s[sa[k]..]);
      }
    }
  }
}
