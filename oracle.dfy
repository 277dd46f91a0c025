/** The expected outputs of the construction on the sample texts of
    suffix_array.cc (lines 91-145). Each lemma shows that the listed arrays
    meet the contract of `BuildSuffixArrayAndLCP`; by uniqueness they are then
    the only result the construction can return. */
module Oracle {
  import opened Suffixes
  import opened SuffixArray

  /** Entry `k` of `sa` follows entry `k-1` in suffix order, and entry `k`
      of `lcp` is the common-prefix length of those two suffixes. */
  ghost predicate NeighbourAt(s: string, sa: seq<int>, lcp: seq<int>, k: int)
    requires 1 <= k < |sa| == |lcp|
    requires forall k :: 0 <= k < |sa| ==> 0 <= sa[k] <= |s|
  {
    LexLess(s[sa[k - 1]..], s[sa[k]..]) && lcp[k] == Lcp(s[sa[k - 1]..], s[sa[k]..])
  }

  /** Two suffixes that share the head `p` and then continue as `x` and `y`,
      with `x` ending first or holding the smaller next symbol, are in
      increasing order with common-prefix length `|p|`. */
  lemma Neighbours(s: string, i: nat, j: nat, p: string, x: string, y: string)
    requires i <= |s| && j <= |s|
    requires s[i..] == p + x && s[j..] == p + y
    requires |y| > 0 && (|x| == 0 || x[0] < y[0])
    ensures LexLess(s[i..], s[j..]) && Lcp(s[i..], s[j..]) == |p|
  {
    LexLessCommonPrefix(p, x, y);
    LcpUnique(p + x, p + y, |p|);
  }

  /** Arrays that list every position once, in increasing suffix order
      between neighbours, with the neighbours' common-prefix lengths, are the
      result for `s`. */
  lemma ExpectedResult(s: string, sa: seq<int>, lcp: seq<int>, r: SuffixArrayResult)
    requires |sa| == |s| && |lcp| == |s|
    requires forall k :: 0 <= k < |sa| ==> 0 <= sa[k] < |s|
    requires forall i :: 0 <= i < |s| ==> i in sa
    requires forall k :: 1 <= k < |sa| ==> NeighbourAt(s, sa, lcp, k)
    requires |lcp| > 0 ==> lcp[0] == 0
    requires IsSuffixArray(s, r.sa) && IsLcpArray(s, r.sa, r.lcp)
    ensures r == SuffixArrayResult(sa, lcp)
  {
    forall k | 1 <= k < |sa|
      ensures LexLess(s[sa[k - 1]..], s[sa[k]..])
      ensures lcp[k] == Lcp(s[sa[k - 1]..], s[sa[k]..])
    {
      assert NeighbourAt(s, sa, lcp, k);
    }
    AscendingFromAdjacent(s, sa);
    forall k, l | 0 <= k < l < |sa|
      ensures sa[k] != sa[l]
    {
      assert LexLess(s[sa[k]..], s[sa[l]..]);
      if sa[k] == sa[l] {
        LexLessIrreflexive(s[sa[k]..]);
      }
    }
    ResultUnique(s, r, SuffixArrayResult(sa, lcp));
  }

  // ---------------------------------------------------------------------
  // The sample text "banana" (lines 95-100).

  const BananaSa: seq<int> := [5, 3, 1, 0, 4, 2]
  const BananaLcp: seq<int> := [0, 1, 3, 0, 0, 2]

  lemma BananaAt1()
    ensures NeighbourAt("banana", BananaSa, BananaLcp, 1)
  {
    Neighbours("banana", 5, 3, "a", "", "na");
  }

  lemma BananaAt2()
    ensures NeighbourAt("banana", BananaSa, BananaLcp, 2)
  {
    Neighbours("banana", 3, 1, "ana", "", "na");
  }

  lemma BananaAt3()
    ensures NeighbourAt("banana", BananaSa, BananaLcp, 3)
  {
    Neighbours("banana", 1, 0, "", "anana", "banana");
  }

  lemma BananaAt4()
    ensures NeighbourAt("banana", BananaSa, BananaLcp, 4)
  {
    Neighbours("banana", 0, 4, "", "banana", "na");
  }

  lemma BananaAt5()
    ensures NeighbourAt("banana", BananaSa, BananaLcp, 5)
  {
    Neighbours("banana", 4, 2, "na", "", "na");
  }

  /** On "banana" the construction returns exactly the arrays listed at
      lines 95-100. */
  lemma Banana(r: SuffixArrayResult)
    requires IsSuffixArray("banana", r.sa) && IsLcpArray("banana", r.sa, r.lcp)
    ensures r.sa == BananaSa && r.lcp == BananaLcp
  {
    forall i | 0 <= i < 6
      ensures i in BananaSa
    {
      assert BananaSa[3] == 0 && BananaSa[2] == 1 && BananaSa[5] == 2 && BananaSa[1] == 3 && BananaSa[4] == 4 && BananaSa[0] == 5;
    }
    forall k | 1 <= k < 6
      ensures NeighbourAt("banana", BananaSa, BananaLcp, k)
    {
      if k == 1 {
        BananaAt1();
      } else if k == 2 {
        BananaAt2();
      } else if k == 3 {
        BananaAt3();
      } else if k == 4 {
        BananaAt4();
      } else {
        BananaAt5();
      }
    }
    ExpectedResult("banana", BananaSa, BananaLcp, r);
  }

  // ---------------------------------------------------------------------
  // The sample text "ababa" (lines 102-107).

  const AbabaSa: seq<int> := [4, 2, 0, 3, 1]
  const AbabaLcp: seq<int> := [0, 1, 3, 0, 2]

  lemma AbabaAt1()
    ensures NeighbourAt("ababa", AbabaSa, AbabaLcp, 1)
  {
    Neighbours("ababa", 4, 2, "a", "", "ba");
  }

  lemma AbabaAt2()
    ensures NeighbourAt("ababa", AbabaSa, AbabaLcp, 2)
  {
    Neighbours("ababa", 2, 0, "aba", "", "ba");
  }

  lemma AbabaAt3()
    ensures NeighbourAt("ababa", AbabaSa, AbabaLcp, 3)
  {
    Neighbours("ababa", 0, 3, "", "ababa", "ba");
  }

  lemma AbabaAt4()
    ensures NeighbourAt("ababa", AbabaSa, AbabaLcp, 4)
  {
    Neighbours("ababa", 3, 1, "ba", "", "ba");
  }

  /** On "ababa" the construction returns exactly the arrays listed at
      lines 102-107. */
  lemma Ababa(r: SuffixArrayResult)
    requires IsSuffixArray("ababa", r.sa) && IsLcpArray("ababa", r.sa, r.lcp)
    ensures r.sa == AbabaSa && r.lcp == AbabaLcp
  {
    forall i | 0 <= i < 5
      ensures i in AbabaSa
    {
      assert AbabaSa[2] == 0 && AbabaSa[4] == 1 && AbabaSa[1] == 2 && AbabaSa[3] == 3 && AbabaSa[0] == 4;
    }
    forall k | 1 <= k < 5
      ensures NeighbourAt("ababa", AbabaSa, AbabaLcp, k)
    {
      if k == 1 {
        AbabaAt1();
      } else if k == 2 {
        AbabaAt2();
      } else if k == 3 {
        AbabaAt3();
      } else {
        AbabaAt4();
      }
    }
    ExpectedResult("ababa", AbabaSa, AbabaLcp, r);
  }

  // ---------------------------------------------------------------------
  // The sample text "aaaaa" (lines 109-114).

  const AllSameSa: seq<int> := [4, 3, 2, 1, 0]
  const AllSameLcp: seq<int> := [0, 1, 2, 3, 4]

  lemma AllSameAt1()
    ensures NeighbourAt("aaaaa", AllSameSa, AllSameLcp, 1)
  {
    Neighbours("aaaaa", 4, 3, "a", "", "a");
  }

  lemma AllSameAt2()
    ensures NeighbourAt("aaaaa", AllSameSa, AllSameLcp, 2)
  {
    Neighbours("aaaaa", 3, 2, "aa", "", "a");
  }

  lemma AllSameAt3()
    ensures NeighbourAt("aaaaa", AllSameSa, AllSameLcp, 3)
  {
    Neighbours("aaaaa", 2, 1, "aaa", "", "a");
  }

  lemma AllSameAt4()
    ensures NeighbourAt("aaaaa", AllSameSa, AllSameLcp, 4)
  {
    Neighbours("aaaaa", 1, 0, "aaaa", "", "a");
  }

  /** On "aaaaa" the construction returns exactly the arrays listed at
      lines 109-114. */
  lemma AllSame(r: SuffixArrayResult)
    requires IsSuffixArray("aaaaa", r.sa) && IsLcpArray("aaaaa", r.sa, r.lcp)
    ensures r.sa == AllSameSa && r.lcp == AllSameLcp
  {
    forall i | 0 <= i < 5
      ensures i in AllSameSa
    {
      assert AllSameSa[4] == 0 && AllSameSa[3] == 1 && AllSameSa[2] == 2 && AllSameSa[1] == 3 && AllSameSa[0] == 4;
    }
    forall k | 1 <= k < 5
      ensures NeighbourAt("aaaaa", AllSameSa, AllSameLcp, k)
    {
      if k == 1 {
        AllSameAt1();
      } else if k == 2 {
        AllSameAt2();
      } else if k == 3 {
        AllSameAt3();
      } else {
        AllSameAt4();
      }
    }
    ExpectedResult("aaaaa", AllSameSa, AllSameLcp, r);
  }

  // ---------------------------------------------------------------------
  // The sample text "abcde" (lines 116-121).

  const AllDistinctSa: seq<int> := [0, 1, 2, 3, 4]
  const AllDistinctLcp: seq<int> := [0, 0, 0, 0, 0]

  lemma AllDistinctAt1()
    ensures NeighbourAt("abcde", AllDistinctSa, AllDistinctLcp, 1)
  {
    Neighbours("abcde", 0, 1, "", "abcde", "bcde");
  }

  lemma AllDistinctAt2()
    ensures NeighbourAt("abcde", AllDistinctSa, AllDistinctLcp, 2)
  {
    Neighbours("abcde", 1, 2, "", "bcde", "cde");
  }

  lemma AllDistinctAt3()
    ensures NeighbourAt("abcde", AllDistinctSa, AllDistinctLcp, 3)
  {
    Neighbours("abcde", 2, 3, "", "cde", "de");
  }

  lemma AllDistinctAt4()
    ensures NeighbourAt("abcde", AllDistinctSa, AllDistinctLcp, 4)
  {
    Neighbours("abcde", 3, 4, "", "de", "e");
  }

  /** On "abcde" the construction returns exactly the arrays listed at
      lines 116-121. */
  lemma AllDistinct(r: SuffixArrayResult)
    requires IsSuffixArray("abcde", r.sa) && IsLcpArray("abcde", r.sa, r.lcp)
    ensures r.sa == AllDistinctSa && r.lcp == AllDistinctLcp
  {
    forall i | 0 <= i < 5
      ensures i in AllDistinctSa
    {
      assert AllDistinctSa[0] == 0 && AllDistinctSa[1] == 1 && AllDistinctSa[2] == 2 && AllDistinctSa[3] == 3 && AllDistinctSa[4] == 4;
    }
    forall k | 1 <= k < 5
      ensures NeighbourAt("abcde", AllDistinctSa, AllDistinctLcp, k)
    {
      if k == 1 {
        AllDistinctAt1();
      } else if k == 2 {
        AllDistinctAt2();
      } else if k == 3 {
        AllDistinctAt3();
      } else {
        AllDistinctAt4();
      }
    }
    ExpectedResult("abcde", AllDistinctSa, AllDistinctLcp, r);
  }

  // ---------------------------------------------------------------------
  // The sample text "" (lines 123-128).

  const EmptyTextSa: seq<int> := []
  const EmptyTextLcp: seq<int> := []

  /** On "" the construction returns exactly the arrays listed at
      lines 123-128. */
  lemma EmptyText(r: SuffixArrayResult)
    requires IsSuffixArray("", r.sa) && IsLcpArray("", r.sa, r.lcp)
    ensures r.sa == EmptyTextSa && r.lcp == EmptyTextLcp
  {
    ExpectedResult("", EmptyTextSa, EmptyTextLcp, r);
  }

  // ---------------------------------------------------------------------
  // The sample text "a" (lines 130-135).

  const SingleSymbolSa: seq<int> := [0]
  const SingleSymbolLcp: seq<int> := [0]

  /** On "a" the construction returns exactly the arrays listed at
      lines 130-135. */
  lemma SingleSymbol(r: SuffixArrayResult)
    requires IsSuffixArray("a", r.sa) && IsLcpArray("a", r.sa, r.lcp)
    ensures r.sa == SingleSymbolSa && r.lcp == SingleSymbolLcp
  {
    forall i | 0 <= i < 1
      ensures i in SingleSymbolSa
    {
      assert SingleSymbolSa[0] == 0;
    }
    ExpectedResult("a", SingleSymbolSa, SingleSymbolLcp, r);
  }

  // ---------------------------------------------------------------------
  // The sample text "mississippi" (lines 137-142).

  const MississippiSa: seq<int> := [10, 7, 4, 1, 0, 9, 8, 6, 3, 5, 2]
  const MississippiLcp: seq<int> := [0, 1, 1, 4, 0, 0, 1, 0, 2, 1, 3]

  lemma MississippiAt1()
    ensures NeighbourAt("mississippi", MississippiSa, MississippiLcp, 1)
  {
    Neighbours("mississippi", 10, 7, "i", "", "ppi");
  }

  lemma MississippiAt2()
    ensures NeighbourAt("mississippi", MississippiSa, MississippiLcp, 2)
  {
    Neighbours("mississippi", 7, 4, "i", "ppi", "ssippi");
  }

  lemma MississippiAt3()
    ensures NeighbourAt("mississippi", MississippiSa, MississippiLcp, 3)
  {
    Neighbours("mississippi", 4, 1, "issi", "ppi", "ssippi");
  }

  lemma MississippiAt4()
    ensures NeighbourAt("mississippi", MississippiSa, MississippiLcp, 4)
  {
    Neighbours("mississippi", 1, 0, "", "ississippi", "mississippi");
  }

  lemma MississippiAt5()
    ensures NeighbourAt("mississippi", MississippiSa, MississippiLcp, 5)
  {
    Neighbours("mississippi", 0, 9, "", "mississippi", "pi");
  }

  lemma MississippiAt6()
    ensures NeighbourAt("mississippi", MississippiSa, MississippiLcp, 6)
  {
    Neighbours("mississippi", 9, 8, "p", "i", "pi");
  }

  lemma MississippiAt7()
    ensures NeighbourAt("mississippi", MississippiSa, MississippiLcp, 7)
  {
    Neighbours("mississippi", 8, 6, "", "ppi", "sippi");
  }

  lemma MississippiAt8()
    ensures NeighbourAt("mississippi", MississippiSa, MississippiLcp, 8)
  {
    Neighbours("mississippi", 6, 3, "si", "ppi", "ssippi");
  }

  lemma MississippiAt9()
    ensures NeighbourAt("mississippi", MississippiSa, MississippiLcp, 9)
  {
    Neighbours("mississippi", 3, 5, "s", "issippi", "sippi");
  }

  lemma MississippiAt10()
    ensures NeighbourAt("mississippi", MississippiSa, MississippiLcp, 10)
  {
    Neighbours("mississippi", 5, 2, "ssi", "ppi", "ssippi");
  }

  /** On "mississippi" the construction returns exactly the arrays listed at
      lines 137-142. */
  lemma Mississippi(r: SuffixArrayResult)
    requires IsSuffixArray("mississippi", r.sa) && IsLcpArray("mississippi", r.sa, r.lcp)
    ensures r.sa == MississippiSa && r.lcp == MississippiLcp
  {
    forall i | 0 <= i < 11
      ensures i in MississippiSa
    {
      assert MississippiSa[4] == 0 && MississippiSa[3] == 1 && MississippiSa[10] == 2 && MississippiSa[8] == 3 && MississippiSa[2] == 4 && MississippiSa[9] == 5 && MississippiSa[7] == 6 && MississippiSa[1] == 7 && MississippiSa[6] == 8 && MississippiSa[5] == 9 && MississippiSa[0] == 10;
    }
    forall k | 1 <= k < 11
      ensures NeighbourAt("mississippi", MississippiSa, MississippiLcp, k)
    {
      if k == 1 {
        MississippiAt1();
      } else if k == 2 {
        MississippiAt2();
      } else if k == 3 {
        MississippiAt3();
      } else if k == 4 {
        MississippiAt4();
      } else if k == 5 {
        MississippiAt5();
      } else if k == 6 {
        MississippiAt6();
      } else if k == 7 {
        MississippiAt7();
      } else if k == 8 {
        MississippiAt8();
      } else if k == 9 {
        MississippiAt9();
      } else {
        MississippiAt10();
      }
    }
    ExpectedResult("mississippi", MississippiSa, MississippiLcp, r);
  }

  /** The test function of lines 91-145: on every sample text the construction
      returns exactly the expected arrays. */
  method TestBuildSuffixArrayAndLCP()
  {
    var result: SuffixArrayResult;

    result := BuildSuffixArrayAndLCP("banana");
    Banana(result);
    assert result.sa == [5, 3, 1, 0, 4, 2];
    assert result.lcp == [0, 1, 3, 0, 0, 2];

    result := BuildSuffixArrayAndLCP("ababa");
    Ababa(result);
    assert result.sa == [4, 2, 0, 3, 1];
    assert result.lcp == [0, 1, 3, 0, 2];

    result := BuildSuffixArrayAndLCP("aaaaa");
    AllSame(result);
    assert result.sa == [4, 3, 2, 1, 0];
    assert result.lcp == [0, 1, 2, 3, 4];

    result := BuildSuffixArrayAndLCP("abcde");
    AllDistinct(result);
    assert result.sa == [0, 1, 2, 3, 4];
    assert result.lcp == [0, 0, 0, 0, 0];

    result := BuildSuffixArrayAndLCP("");
    EmptyText(result);
    assert result.sa == [];
    assert result.lcp == [];

    result := BuildSuffixArrayAndLCP("a");
    SingleSymbol(result);
    assert result.sa == [0];
    assert result.lcp == [0];

    result := BuildSuffixArrayAndLCP("mississippi");
    Mississippi(result);
    assert result.sa == [10, 7, 4, 1, 0, 9, 8, 6, 3, 5, 2];
    assert result.lcp == [0, 1, 1, 4, 0, 0, 1, 0, 2, 1, 3];
  }
}
