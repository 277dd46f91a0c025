/** Stage one: the prefix-doubling construction of the suffix array
    (suffix_array.cc, lines 32-67). */
module Doubling {
  import opened Suffixes

  /** The rank `gap` positions further on, or -1 when that position lies past
      the end of the text. */
  function Next(r: seq<int>, gap: nat, i: int): int
    requires 0 <= i < |r|
  {
    if i + gap < |r| then r[i + gap] else -1
  }

  /** The comparator of one round: suffix `i` sorts before suffix `j` when its
      pair (rank[i], rank[i+gap]) is lexicographically smaller. */
  predicate PairLess(r: seq<int>, gap: nat, i: int, j: int)
    requires 0 <= i < |r| && 0 <= j < |r|
  {
    if r[i] != r[j] then r[i] < r[j] else Next(r, gap, i) < Next(r, gap, j)
  }

  /** Every entry of `sa` is a position of a text of length `n`. */
  predicate InBounds(sa: seq<int>, n: nat) {
    forall k :: 0 <= k < |sa| ==> 0 <= sa[k] < n
  }

  /** `sa` is in non-decreasing order of the round's comparator. */
  predicate SortedByPair(sa: seq<int>, r: seq<int>, gap: nat)
    requires InBounds(sa, |r|)
  {
    forall k, l :: 0 <= k < l < |sa| ==> !PairLess(r, gap, sa[l], sa[k])
  }

  /** The ranks `t` were assigned along `sa`: the first suffix gets 0 and each
      further one the rank of its predecessor, plus one exactly when the
      comparator puts the predecessor strictly first. */
  predicate Reranked(sa: seq<int>, r: seq<int>, gap: nat, t: seq<int>)
    requires InBounds(sa, |r|) && InBounds(sa, |t|)
  {
    && |sa| > 0
    && t[sa[0]] == 0
    && forall k :: 1 <= k < |sa| ==>
         t[sa[k]] == t[sa[k - 1]] + (if PairLess(r, gap, sa[k - 1], sa[k]) then 1 else 0)
  }

  /** The ranks `r` order the positions of `s` exactly as the first `k`
      symbols of their suffixes are ordered, and tie exactly the positions
      whose first `k` symbols agree. */
  ghost predicate Represents(s: string, r: seq<int>, k: nat) {
    && |r| == |s|
    && (forall i :: 0 <= i < |r| ==> r[i] >= 0)
    && (forall i, j :: 0 <= i < |s| && 0 <= j < |s| ==>
          && (r[i] < r[j] <==> LexLess(Pre(s, i, k), Pre(s, j, k)))
          && (r[i] == r[j] <==> Pre(s, i, k) == Pre(s, j, k)))
  }

  // ---------------------------------------------------------------------
  // Lemmas about one round.

  /** Symbol ordinals rank the one-symbol prefixes. */
  lemma RepresentsInitial(s: string, r: seq<int>)
    requires |r| == |s|
    requires forall i :: 0 <= i < |s| ==> r[i] == s[i] as int
    ensures Represents(s, r, 1)
  {
    forall i, j | 0 <= i < |s| && 0 <= j < |s|
      ensures (r[i] < r[j] <==> LexLess(Pre(s, i, 1), Pre(s, j, 1)))
      ensures (r[i] == r[j] <==> Pre(s, i, 1) == Pre(s, j, 1))
    {
      assert Pre(s, i, 1) == [s[i]] && Pre(s, j, 1) == [s[j]];
      assert [s[i]][1..] == [] && [s[j]][1..] == [];
    }
  }

  /** The comparator on rank pairs of `g`-prefixes is the lexicographic order
      of the `2*g`-prefixes; the sentinel -1 makes a suffix that ends first
      sort first. */
  lemma PairLessDoubles(s: string, r: seq<int>, g: nat, i: int, j: int)
    requires Represents(s, r, g)
    requires 0 <= i < |s| && 0 <= j < |s|
    ensures PairLess(r, g, i, j) <==> LexLess(Pre(s, i, 2 * g), Pre(s, j, 2 * g))
  {
    if r[i] != r[j] {
      PreOrderStable(s, i, j, g, 2 * g);
    } else if i + g <= |s| {
      PairLessTie(s, r, g, i, j);
    }
  }

  /** Equal ranks on two full `g`-prefixes: the second halves decide. */
  lemma PairLessTie(s: string, r: seq<int>, g: nat, i: int, j: int)
    requires Represents(s, r, g)
    requires 0 <= i < |s| && 0 <= j < |s| && i + g <= |s| && r[i] == r[j]
    ensures PairLess(r, g, i, j) <==> LexLess(Pre(s, i, 2 * g), Pre(s, j, 2 * g))
  {
    var a := Pre(s, i, g);
    assert Pre(s, j, g) == a && |a| == g;
    PreSplit(s, i, g);
    PreSplit(s, j, g);
    LexLessCommonPrefix(a, Pre(s, i + g, g), Pre(s, j + g, g));
    NextOrder(s, r, g, i, j);
  }

  /** The second components of the comparator order the second halves. */
  lemma NextOrder(s: string, r: seq<int>, g: nat, i: int, j: int)
    requires Represents(s, r, g)
    requires 0 <= i < |s| && 0 <= j < |s| && i + g <= |s| && j + g <= |s|
    ensures Next(r, g, i) < Next(r, g, j) <==> LexLess(Pre(s, i + g, g), Pre(s, j + g, g))
  {
    var n := |s|;
    if i + g == n {
      assert Pre(s, i + g, g) == [];
    }
    if j + g == n {
      assert Pre(s, j + g, g) == [];
    }
  }

  /** Along a sorted `sa`, the new ranks never decrease, and they rise between
      two entries exactly when the comparator separates them. */
  lemma {:induction false} RerankMonotone(sa: seq<int>, r: seq<int>, g: nat, t: seq<int>, p: int, q: int)
    requires InBounds(sa, |r|) && InBounds(sa, |t|)
    requires SortedByPair(sa, r, g) && Reranked(sa, r, g, t)
    requires 0 <= p <= q < |sa|
    ensures t[sa[p]] <= t[sa[q]]
    ensures t[sa[p]] < t[sa[q]] <==> PairLess(r, g, sa[p], sa[q])
    decreases q - p
  {
    if p < q {
      RerankMonotone(sa, r, g, t, p, q - 1);
    }
  }

  /** The ranks assigned along a sorted permutation order and tie the
      positions exactly as the comparator does. */
  lemma RerankOrder(sa: seq<int>, r: seq<int>, g: nat, t: seq<int>, i: int, j: int)
    requires IsPermutation(sa, |r|) && |t| == |r|
    requires SortedByPair(sa, r, g) && Reranked(sa, r, g, t)
    requires 0 <= i < |r| && 0 <= j < |r|
    ensures t[i] < t[j] <==> PairLess(r, g, i, j)
    ensures t[i] == t[j] <==> !PairLess(r, g, i, j) && !PairLess(r, g, j, i)
  {
    assert i in sa && j in sa;
    var p :| 0 <= p < |sa| && sa[p] == i;
    var q :| 0 <= q < |sa| && sa[q] == j;
    if p <= q {
      RerankMonotone(sa, r, g, t, p, q);
    } else {
      RerankMonotone(sa, r, g, t, q, p);
    }
  }

  /** One round turns ranks of `g`-prefixes into ranks of `2*g`-prefixes. */
  lemma RoundRepresents(s: string, sa: seq<int>, r: seq<int>, g: nat, t: seq<int>)
    requires Represents(s, r, g) && IsPermutation(sa, |s|) && |t| == |s|
    requires SortedByPair(sa, r, g) && Reranked(sa, r, g, t)
    ensures Represents(s, t, 2 * g)
  {
    forall i | 0 <= i < |t|
      ensures t[i] >= 0
    {
      assert i in sa;
      RerankMonotone(sa, r, g, t, 0, RankPosition(sa, i));
    }
    forall i, j | 0 <= i < |s| && 0 <= j < |s|
      ensures t[i] < t[j] <==> LexLess(Pre(s, i, 2 * g), Pre(s, j, 2 * g))
      ensures t[i] == t[j] <==> Pre(s, i, 2 * g) == Pre(s, j, 2 * g)
    {
      RerankOrder(sa, r, g, t, i, j);
      PairLessDoubles(s, r, g, i, j);
      PairLessDoubles(s, r, g, j, i);
      LexTrichotomy(Pre(s, i, 2 * g), Pre(s, j, 2 * g));
    }
  }

  /** The index at which a permutation holds `i`. */
  ghost function RankPosition(sa: seq<int>, i: int): (p: int)
    requires exists p :: 0 <= p < |sa| && sa[p] == i
    ensures 0 <= p < |sa| && sa[p] == i
  {
    var p :| 0 <= p < |sa| && sa[p] == i; p
  }

  /** Ranks assigned along `sa` are at most the index, and the last one
      exceeds the one at index `k` by at most the distance. */
  lemma {:induction false} RerankBounds(sa: seq<int>, r: seq<int>, g: nat, t: seq<int>, k: int)
    requires InBounds(sa, |r|) && InBounds(sa, |t|) && Reranked(sa, r, g, t)
    requires 0 <= k < |sa|
    ensures t[sa[k]] <= k
    ensures t[sa[|sa| - 1]] - t[sa[k]] <= |sa| - 1 - k
    decreases |sa| - k
  {
    if k > 0 {
      RerankBounds0(sa, r, g, t, k);
    }
    if k < |sa| - 1 {
      RerankBounds(sa, r, g, t, k + 1);
    }
  }

  lemma {:induction false} RerankBounds0(sa: seq<int>, r: seq<int>, g: nat, t: seq<int>, k: int)
    requires InBounds(sa, |r|) && InBounds(sa, |t|) && Reranked(sa, r, g, t)
    requires 0 <= k < |sa|
    ensures t[sa[k]] <= k
    decreases k
  {
    if k > 0 {
      RerankBounds0(sa, r, g, t, k - 1);
    }
  }

  /** The round's stopping test: the last suffix in `sa` has rank n-1 exactly
      when all ranks are distinct, and then `t` inverts `sa`. */
  lemma FinishedIffDistinct(sa: seq<int>, r: seq<int>, g: nat, t: seq<int>)
    requires InBounds(sa, |r|) && InBounds(sa, |t|) && Reranked(sa, r, g, t)
    ensures t[sa[|sa| - 1]] == |sa| - 1 <==>
              (forall k, l :: 0 <= k < l < |sa| ==> t[sa[k]] != t[sa[l]])
    ensures t[sa[|sa| - 1]] == |sa| - 1 ==> forall k :: 0 <= k < |sa| ==> t[sa[k]] == k
  {
    var n := |sa|;
    if t[sa[n - 1]] == n - 1 {
      forall k | 0 <= k < n
        ensures t[sa[k]] == k
      {
        RerankBounds(sa, r, g, t, k);
      }
    } else if forall k, l :: 0 <= k < l < n ==> t[sa[k]] != t[sa[l]] {
      DistinctStepsUp(sa, r, g, t, n - 1);
    }
  }

  lemma {:induction false} DistinctStepsUp(sa: seq<int>, r: seq<int>, g: nat, t: seq<int>, k: int)
    requires InBounds(sa, |r|) && InBounds(sa, |t|) && Reranked(sa, r, g, t)
    requires forall k, l :: 0 <= k < l < |sa| ==> t[sa[k]] != t[sa[l]]
    requires 0 <= k < |sa|
    ensures t[sa[k]] == k
    decreases k
  {
    if k > 0 {
      DistinctStepsUp(sa, r, g, t, k - 1);
      assert t[sa[k - 1]] != t[sa[k]];
    }
  }

  /** Once the compared prefixes cover the whole text, all ranks differ. */
  lemma WideRoundDistinct(s: string, t: seq<int>, k: nat, i: int, j: int)
    requires Represents(s, t, k) && |s| <= k
    requires 0 <= i < |s| && 0 <= j < |s| && i != j
    ensures t[i] != t[j]
  {
    PreWhole(s, i, k);
    PreWhole(s, j, k);
  }

  /** Distinct ranks of long enough prefixes give the suffix order itself. */
  lemma FinalOrder(s: string, sa: seq<int>, r: seq<int>, k: nat)
    requires Represents(s, r, k) && IsPermutation(sa, |s|)
    requires forall m :: 0 <= m < |sa| ==> r[sa[m]] == m
    ensures IsSuffixArray(s, sa)
    ensures IsRankOf(sa, r)
  {
    var K := k + |s|;
    forall m, l | 0 <= m < l < |sa|
      ensures LexLess(s[sa[m]..], s[sa[l]..])
    {
      assert r[sa[m]] < r[sa[l]];
      PreOrderStable(s, sa[m], sa[l], k, K);
      PreWhole(s, sa[m], K);
      PreWhole(s, sa[l], K);
    }
    forall i | 0 <= i < |r|
      ensures 0 <= r[i] < |sa| && sa[r[i]] == i
    {
      assert i in sa;
      var p := RankPosition(sa, i);
    }
  }

  // ---------------------------------------------------------------------
  // The stage's operations.

  /** Sorts `sa` by the round's comparator (std::sort at line 52; the model
      uses an insertion sort, and callers rely only on this contract). */
  method SortByRankPair(sa: array<int>, rank: array<int>, gap: nat)
    requires sa != rank
    requires InBounds(sa[..], rank.Length)
    modifies sa
    ensures multiset(sa[..]) == multiset(old(sa[..]))
    ensures InBounds(sa[..], rank.Length)
    ensures SortedByPair(sa[..], rank[..], gap)
  {
    var i := 0;
    while i < sa.Length
      invariant 0 <= i <= sa.Length
      invariant multiset(sa[..]) == multiset(old(sa[..]))
      invariant InBounds(sa[..], rank.Length)
      invariant SortedBelow(sa[..], rank[..], gap, i)
    {
      InsertNext(sa, rank, gap, i);
      i := i + 1;
    }
  }

  /** The first `m` entries of `sa` are in comparator order. */
  predicate SortedBelow(sa: seq<int>, r: seq<int>, gap: nat, m: int)
    requires InBounds(sa, |r|) && m <= |sa|
  {
    forall k, l :: 0 <= k < l < m ==> !PairLess(r, gap, sa[l], sa[k])
  }

  /** While `sa[..i+1]` is being sorted by moving one entry down: that entry
      is at `j`, the others are in order, and it sorts strictly before every
      entry after it. */
  predicate Sinking(sa: seq<int>, r: seq<int>, gap: nat, i: int, j: int)
    requires InBounds(sa, |r|) && 0 <= j <= i < |sa|
  {
    && (forall k, l :: 0 <= k < l <= i && k != j && l != j ==> !PairLess(r, gap, sa[l], sa[k]))
    && (forall l :: j < l <= i ==> PairLess(r, gap, sa[j], sa[l]))
  }

  lemma SinkStart(sa: seq<int>, r: seq<int>, gap: nat, i: int)
    requires InBounds(sa, |r|) && 0 <= i < |sa| && SortedBelow(sa, r, gap, i)
    ensures Sinking(sa, r, gap, i, i)
  {
  }

  /** Swapping the moving entry with a predecessor it sorts before keeps the
      arrangement sinking. */
  lemma SinkStep(sa: seq<int>, r: seq<int>, gap: nat, i: int, j: int)
    requires InBounds(sa, |r|) && 0 < j <= i < |sa| && Sinking(sa, r, gap, i, j)
    requires PairLess(r, gap, sa[j], sa[j - 1])
    ensures InBounds(sa[j - 1 := sa[j]][j := sa[j - 1]], |r|)
    ensures Sinking(sa[j - 1 := sa[j]][j := sa[j - 1]], r, gap, i, j - 1)
  {
    var s' := sa[j - 1 := sa[j]][j := sa[j - 1]];
    forall k, l | 0 <= k < l <= i && k != j - 1 && l != j - 1
      ensures !PairLess(r, gap, s'[l], s'[k])
    {
      var k0 := if k == j then j - 1 else k;
      var l0 := if l == j then j - 1 else l;
      assert s'[k] == sa[k0] && s'[l] == sa[l0];
    }
  }

  /** The moving entry has stopped: the first `i+1` entries are sorted. */
  lemma SinkDone(sa: seq<int>, r: seq<int>, gap: nat, i: int, j: int)
    requires InBounds(sa, |r|) && 0 <= j <= i < |sa| && Sinking(sa, r, gap, i, j)
    requires j == 0 || !PairLess(r, gap, sa[j], sa[j - 1])
    ensures SortedBelow(sa, r, gap, i + 1)
  {
    forall k, l | 0 <= k < l <= i
      ensures !PairLess(r, gap, sa[l], sa[k])
    {
      if l == j && k < j - 1 {
        assert !PairLess(r, gap, sa[j - 1], sa[k]);
      }
    }
  }

  /** Exchanging two neighbours keeps the multiset of entries. */
  lemma SwapKeepsMultiset(s: seq<int>, j: int)
    requires 0 < j < |s|
    ensures multiset(s[j - 1 := s[j]][j := s[j - 1]]) == multiset(s)
  {
    var s' := s[j - 1 := s[j]][j := s[j - 1]];
    assert s == s[..j - 1] + [s[j - 1], s[j]] + s[j + 1..];
    assert s' == s[..j - 1] + [s[j], s[j - 1]] + s[j + 1..];
  }

  /** Moves `sa[i]` down into the sorted entries before it. */
  method InsertNext(sa: array<int>, rank: array<int>, gap: nat, i: int)
    requires sa != rank
    requires InBounds(sa[..], rank.Length)
    requires 0 <= i < sa.Length && SortedBelow(sa[..], rank[..], gap, i)
    modifies sa
    ensures multiset(sa[..]) == multiset(old(sa[..]))
    ensures InBounds(sa[..], rank.Length)
    ensures SortedBelow(sa[..], rank[..], gap, i + 1)
    ensures sa[i + 1..] == old(sa[i + 1..])
  {
    ghost var r := rank[..];
    SinkStart(sa[..], r, gap, i);
    var j := i;
    while j > 0 && PairLess(rank[..], gap, sa[j], sa[j - 1])
      invariant 0 <= j <= i
      invariant multiset(sa[..]) == multiset(old(sa[..]))
      invariant InBounds(sa[..], |r|)
      invariant Sinking(sa[..], r, gap, i, j)
      invariant sa[i + 1..] == old(sa[i + 1..])
    {
      ghost var s := sa[..];
      sa[j - 1], sa[j] := sa[j], sa[j - 1];
      assert sa[..] == s[j - 1 := s[j]][j := s[j - 1]];
      SwapKeepsMultiset(s, j);
      SinkStep(s, r, gap, i, j);
      j := j - 1;
    }
    SinkDone(sa[..], r, gap, i, j);
  }

  /** Assigns the round's new ranks along `sa` into `temp` (lines 54-58). */
  method Rerank(sa: array<int>, rank: array<int>, gap: nat, temp: array<int>)
    requires temp != sa && temp != rank
    requires sa.Length == rank.Length == temp.Length > 0
    requires IsPermutation(sa[..], sa.Length)
    modifies temp
    ensures Reranked(sa[..], rank[..], gap, temp[..])
  {
    var n := sa.Length;
    temp[sa[0]] := 0;
    var i := 1;
    while i < n
      invariant 1 <= i <= n
      invariant temp[sa[0]] == 0
      invariant forall k :: 1 <= k < i ==>
                  temp[sa[k]] == temp[sa[k - 1]] + (if PairLess(rank[..], gap, sa[k - 1], sa[k]) then 1 else 0)
    {
      temp[sa[i]] := temp[sa[i - 1]] + (if PairLess(rank[..], gap, sa[i - 1], sa[i]) then 1 else 0);
      i := i + 1;
    }
  }

  /** What one round achieves, stated on the values: the re-ranked table
      describes `2*g`-prefixes, the stopping test holds exactly when the new
      ranks along `sa` are 0, 1, ..., n-1, and it always holds once `2*g`
      reaches the text length. */
  lemma RoundOutcome(s: string, sa: seq<int>, r: seq<int>, g: nat, t: seq<int>)
    requires Represents(s, r, g) && IsPermutation(sa, |s|) && |t| == |s| > 0
    requires SortedByPair(sa, r, g) && Reranked(sa, r, g, t)
    ensures Represents(s, t, 2 * g)
    ensures t[sa[|s| - 1]] == |s| - 1 ==> forall k :: 0 <= k < |s| ==> t[sa[k]] == k
    ensures t[sa[|s| - 1]] != |s| - 1 ==> 2 * g < |s|
  {
    RoundRepresents(s, sa, r, g, t);
    FinishedIffDistinct(sa, r, g, t);
    if 2 * g >= |s| {
      forall k, l | 0 <= k < l < |s|
        ensures t[sa[k]] != t[sa[l]]
      {
        WideRoundDistinct(s, t, 2 * g, sa[k], sa[l]);
      }
    }
  }

  /** The copy-back loop of lines 60-62. */
  method CopyBack(rank: array<int>, temp: array<int>)
    requires rank != temp && rank.Length == temp.Length
    modifies rank
    ensures rank[..] == temp[..]
  {
    for i := 0 to rank.Length
      invariant forall k :: 0 <= k < i ==> rank[k] == temp[k]
    {
      rank[i] := temp[i];
    }
  }

  /** One round of the doubling loop for a given `gap` (lines 43-62): sort
      by rank pairs, re-rank along the sorted order, copy the new ranks back.
      Afterwards the ranks describe prefixes of length `2*gap`, and the
      stopping test of line 64 holds exactly when they are all distinct. */
  method DoublingRound(text: string, sa: array<int>, rank: array<int>, temp: array<int>, gap: nat)
    requires sa != rank && sa != temp && rank != temp
    requires sa.Length == rank.Length == temp.Length == |text| > 0
    requires multiset(sa[..]) == multiset(Range(|text|))
    requires Represents(text, rank[..], gap)
    modifies sa, rank, temp
    ensures multiset(sa[..]) == multiset(Range(|text|))
    ensures IsPermutation(sa[..], |text|)
    ensures Represents(text, rank[..], 2 * gap)
    ensures rank[sa[|text| - 1]] == |text| - 1 ==> forall k :: 0 <= k < |text| ==> rank[sa[k]] == k
    ensures rank[sa[|text| - 1]] != |text| - 1 ==> 2 * gap < |text|
    ensures SortedByPair(sa[..], old(rank[..]), gap)
    ensures Reranked(sa[..], old(rank[..]), gap, rank[..])
  {
    var n := |text|;
    PermutationFromMultiset(sa[..], n);
    SortByRankPair(sa, rank, gap);
    PermutationFromMultiset(sa[..], n);
    Rerank(sa, rank, gap, temp);
    RoundOutcome(text, sa[..], rank[..], gap, temp[..]);
    CopyBack(rank, temp);
  }

  /** The prefix-doubling construction: `sa` is the suffix array of `text`
      and `rank` its inverse (lines 26-67). */
  method BuildSuffixArray(text: string) returns (sa: seq<int>, rank: seq<int>)
    requires |text| > 0
    ensures IsSuffixArray(text, sa)
    ensures IsRankOf(sa, rank)
  {
    var n := |text|;
    var saA := new int[n];
    var rankA := new int[n];
    var temp := new int[n];
    for i := 0 to n
      invariant forall k :: 0 <= k < i ==> saA[k] == k && rankA[k] == text[k] as int
    {
      saA[i] := i;
      rankA[i] := text[i] as int;
    }
    assert saA[..] == Range(n);
    RepresentsInitial(text, rankA[..]);
    var gap := 1;
    while true
      invariant 1 <= gap <= n
      invariant multiset(saA[..]) == multiset(Range(n))
      invariant Represents(text, rankA[..], gap)
      decreases n - gap
    {
      DoublingRound(text, saA, rankA, temp, gap);
      if rankA[saA[n - 1]] == n - 1 {
        break;
      }
      gap := 2 * gap;
    }
    sa, rank := saA[..], rankA[..];
    PermutationFromMultiset(sa, n);
    FinalOrder(text, sa, rank, 2 * gap);
  }
}
