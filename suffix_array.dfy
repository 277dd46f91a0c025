/** The entry point: the suffix array and the LCP array of a text
    (suffix_array.cc, lines 9-89). */
module SuffixArray {
  import opened Suffixes
  import Doubling
  import Kasai

  /** The two arrays returned together (lines 10-13). */
  datatype SuffixArrayResult = SuffixArrayResult(sa: seq<int>, lcp: seq<int>)

  /** Builds both arrays: an empty text gives two empty arrays (lines 28-30);
      otherwise the doubling stage produces `sa` and its rank table, and
      Kasai's pass produces `lcp` from them. */
  method BuildSuffixArrayAndLCP(text: string) returns (result: SuffixArrayResult)
    ensures |result.sa| == |text| && |result.lcp| == |text|
    ensures IsSuffixArray(text, result.sa)
    ensures IsLcpArray(text, result.sa, result.lcp)
  {
    if |text| == 0 {
      return SuffixArrayResult([], []);
    }
    var sa, rank := Doubling.BuildSuffixArray(text);
    var lcp := Kasai.BuildLcp(text, sa, rank);
    result := SuffixArrayResult(sa, lcp);
  }

  /** The result is determined by the text alone: any two arrays meeting the
      contract of `BuildSuffixArrayAndLCP` are equal. */
  lemma ResultUnique(text: string, r1: SuffixArrayResult, r2: SuffixArrayResult)
    requires IsSuffixArray(text, r1.sa) && IsLcpArray(text, r1.sa, r1.lcp)
    requires IsSuffixArray(text, r2.sa) && IsLcpArray(text, r2.sa, r2.lcp)
    ensures r1 == r2
  {
    SuffixArrayUnique(text, r1.sa, r2.sa);
    LcpArrayUnique(text, r1.sa, r1.lcp, r2.lcp);
  }

  /** Re-deriving the rank table from the returned `sa` by `rank'[sa[k]] = k`
      gives back the table of the doubling stage, so re-running Kasai's pass
      on it, whose contract pins its output down, returns the same `lcp`. */
  lemma Rederivation(text: string, result: SuffixArrayResult, rank: seq<int>, rank': seq<int>, lcp': seq<int>)
    requires IsSuffixArray(text, result.sa) && IsLcpArray(text, result.sa, result.lcp)
    requires IsRankOf(result.sa, rank)
    requires |rank'| == |text|
    requires forall k :: 0 <= k < |result.sa| ==> 0 <= result.sa[k] < |rank'| && rank'[result.sa[k]] == k
    ensures IsRankOf(result.sa, rank') && rank' == rank
    ensures IsLcpArray(text, result.sa, lcp') ==> lcp' == result.lcp
  {
    var sa := result.sa;
    forall i | 0 <= i < |rank'|
      ensures 0 <= rank'[i] < |sa| && sa[rank'[i]] == i
    {
      assert i in sa;
      var k :| 0 <= k < |sa| && sa[k] == i;
    }
    RankOfUnique(sa, rank', rank);
    if IsLcpArray(text, sa, lcp') {
      LcpArrayUnique(text, sa, lcp', result.lcp);
    }
  }
}
