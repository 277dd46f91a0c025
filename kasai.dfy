/** Stage two: Kasai's construction of the LCP array from a finished suffix
    array and its rank table (suffix_array.cc, lines 69-86). */
module Kasai {
  import opened Suffixes

  /** The common-prefix length of the suffix at `i` with the suffix just
      before it in sorted order, or 0 when it is sorted first. */
  ghost function PrevLcp(s: string, sa: seq<int>, rank: seq<int>, i: int): nat
    requires IsSuffixArray(s, sa) && IsRankOf(sa, rank)
    requires 0 <= i < |s|
  {
    if rank[i] > 0 then Lcp(s[i..], s[sa[rank[i] - 1]..]) else 0
  }

  /** Dropping the first symbol of two suffixes that share it shortens their
      common prefix by one and keeps their order. */
  lemma DropFirst(s: string, i: int, j: int)
    requires 0 <= i < |s| && 0 <= j < |s|
    requires Lcp(s[i..], s[j..]) > 0
    ensures Lcp(s[i + 1..], s[j + 1..]) == Lcp(s[i..], s[j..]) - 1
    ensures LexLess(s[j..], s[i..]) ==> LexLess(s[j + 1..], s[i + 1..])
  {
    assert s[j..][1..] == s[j + 1..] && s[i..][1..] == s[i + 1..];
  }

  /** In a suffix array, rank order is suffix order. */
  lemma RankFollowsOrder(s: string, sa: seq<int>, rank: seq<int>, x: int, y: int)
    requires IsSuffixArray(s, sa) && IsRankOf(sa, rank)
    requires 0 <= x < |s| && 0 <= y < |s|
    ensures rank[x] < rank[y] <==> LexLess(s[x..], s[y..])
  {
    var rx, ry := rank[x], rank[y];
    assert sa[rx] == x && sa[ry] == y;
    if rx < ry {
      assert LexLess(s[sa[rx]..], s[sa[ry]..]);
    } else if rx == ry {
      LexLessIrreflexive(s[x..]);
    } else {
      assert LexLess(s[sa[ry]..], s[sa[rx]..]);
      LexLessAsymmetric(s[y..], s[x..]);
    }
  }

  /** If the suffix at `j+1` sorts before the suffix at `i+1`, then the
      latter has a predecessor, and the suffix at `j+1` sorts no later than
      that predecessor. */
  lemma PredecessorBetween(s: string, sa: seq<int>, rank: seq<int>, i: int, j: int)
    requires IsSuffixArray(s, sa) && IsRankOf(sa, rank)
    requires 0 <= i < |s| && 0 <= j < |s|
    requires LexLess(s[j..], s[i..])
    ensures rank[i] > 0
    ensures var p := sa[rank[i] - 1];
            && LexLess(s[p..], s[i..])
            && (s[j..] == s[p..] || LexLess(s[j..], s[p..]))
  {
    RankFollowsOrder(s, sa, rank, j, i);
    var p := sa[rank[i] - 1];
    assert rank[p] == rank[i] - 1;
    RankFollowsOrder(s, sa, rank, p, i);
    if rank[j] < rank[p] {
      RankFollowsOrder(s, sa, rank, j, p);
    } else {
      assert sa[rank[j]] == j && sa[rank[p]] == p;
    }
  }

  /** Kasai's invariant: dropping the first symbol of the suffix at `i` and of
      its predecessor leaves two suffixes whose common prefix is one shorter,
      and the predecessor of the suffix at `i+1` shares at least that much
      with it. Hence the running length, lowered by one (never below 0), is
      still a lower bound at position `i+1`. */
  lemma KasaiCarry(s: string, sa: seq<int>, rank: seq<int>, i: int)
    requires IsSuffixArray(s, sa) && IsRankOf(sa, rank)
    requires 0 <= i && i + 1 < |s| && rank[i] > 0
    ensures var h := PrevLcp(s, sa, rank, i);
            (if h > 0 then h - 1 else 0) <= PrevLcp(s, sa, rank, i + 1)
  {
    var j := sa[rank[i] - 1];
    var h := Lcp(s[i..], s[j..]);
    if h >= 2 {
      assert rank[j] == rank[i] - 1;
      RankFollowsOrder(s, sa, rank, j, i);
      DropFirst(s, i, j);
      PredecessorBetween(s, sa, rank, i + 1, j + 1);
      LcpSandwich(s[j + 1..], s[sa[rank[i + 1] - 1]..], s[i + 1..]);
    }
  }

  /** Entries of `a` whose suffix starts before `i` hold the common-prefix
      length with the preceding suffix; the rest are still 0. */
  ghost predicate FilledBelow(s: string, sa: seq<int>, a: seq<int>, i: int)
    requires IsPermutation(sa, |s|)
  {
    && |a| == |sa|
    && (forall k :: 0 < k < |sa| && sa[k] < i ==> a[k] == Lcp(s[sa[k - 1]..], s[sa[k]..]))
    && (forall k :: 0 <= k < |sa| && !(0 < k && sa[k] < i) ==> a[k] == 0)
  }

  /** Storing the match length of position `i` at index `rank[i]` extends the
      filled part by position `i` (line 80). */
  lemma FillStep(s: string, sa: seq<int>, rank: seq<int>, a: seq<int>, i: int)
    requires IsPermutation(sa, |s|) && IsRankOf(sa, rank)
    requires 0 <= i < |s| && FilledBelow(s, sa, a, i)
    ensures rank[i] == 0 ==> FilledBelow(s, sa, a, i + 1)
    ensures rank[i] > 0 ==>
              FilledBelow(s, sa, a[rank[i] := Lcp(s[sa[rank[i] - 1]..], s[i..])], i + 1)
  {
    assert sa[rank[i]] == i;
  }

  /** The match loop of lines 77-79: starting from a length `h` known to be
      common, compare symbol by symbol, never reading past the end of the
      text, until the longest common prefix is reached. */
  method ExtendMatch(text: string, i: int, prev: int, h: nat) returns (h': nat)
    requires 0 <= i < |text| && 0 <= prev < |text|
    requires h <= Lcp(text[i..], text[prev..])
    ensures h' == Lcp(text[i..], text[prev..])
  {
    h' := h;
    while i + h' < |text| && prev + h' < |text| && text[i + h'] == text[prev + h']
      invariant h' <= Lcp(text[i..], text[prev..])
    {
      h' := h' + 1;
    }
  }

  /** Kasai's LCP pass (lines 70-86): for every position `i` with a
      predecessor in sorted order, extend the running match length `h`
      against that predecessor, store it at `lcp[rank[i]]`, and lower it by
      one. */
  method BuildLcp(text: string, sa: seq<int>, rank: seq<int>) returns (lcp: seq<int>)
    requires IsSuffixArray(text, sa) && IsRankOf(sa, rank)
    ensures IsLcpArray(text, sa, lcp)
  {
    var n := |text|;
    var a := new int[n](_ => 0);
    var h: nat := 0;
    var i := 0;
    while i < n
      invariant 0 <= i <= n
      invariant i < n ==> h <= PrevLcp(text, sa, rank, i)
      invariant FilledBelow(text, sa, a[..], i)
    {
      FillStep(text, sa, rank, a[..], i);
      if rank[i] > 0 {
        var prev := sa[rank[i] - 1];
        h := ExtendMatch(text, i, prev, h);
        LcpSymmetric(text[i..], text[prev..]);
        a[rank[i]] := h;
        if i + 1 < n {
          KasaiCarry(text, sa, rank, i);
        }
        if h > 0 {
          h := h - 1;
        }
      }
      i := i + 1;
    }
    lcp := a[..];
    FilledIsLcp(text, sa, lcp);
  }

  /** Once every position is filled, the array is the LCP array. */
  lemma FilledIsLcp(s: string, sa: seq<int>, a: seq<int>)
    requires IsSuffixArray(s, sa) && FilledBelow(s, sa, a, |s|)
    ensures IsLcpArray(s, sa, a)
  {
  }
}
