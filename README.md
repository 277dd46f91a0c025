# Suffix array and LCP array by prefix doubling and Kasai's algorithm

This project models `buildSuffixArrayAndLCP` from `suffix_array.cc` and proves it correct. The function takes a text and returns two arrays:

- `sa`, the suffix array: the start positions of all suffixes, in strictly increasing lexicographic order;
- `lcp`, the LCP array: `lcp[k]` is the length of the longest common prefix of the suffixes at `sa[k-1]` and `sa[k]`, and `lcp[0] = 0`.

The construction has two stages, and both keep the imperative form they have in the source.

**Prefix doubling** (`Doubling`).
- `sa` and the rank table start as the identity and the symbol ordinals. Both are arrays.
- Each round with gap `g = 1, 2, 4, ...` sorts `sa` in place by the pair (`rank[i]`, `rank[i+g]`), with -1 standing for a position past the end.
- It then assigns new ranks along the sorted order into a temporary array and copies them back.
- The loop stops when the last suffix in `sa` has rank `n-1`.
- The proof rests on one invariant, `Represents(text, rank, k)`: ranks order the positions exactly as the first `k` symbols of their suffixes are ordered. Each round doubles `k`. When the loop stops, the ranks are distinct, so `rank` is the inverse of `sa`. At that point `sa` is the suffix array.

**Kasai's pass** (`Kasai`).
- It visits the positions in text order and extends a running match length `h` against the suffix just before the current one in sorted order.
- It stores `h` at `lcp[rank[i]]` and lowers `h` by one, never below 0.
- The proof shows that the lowered value is still a lower bound for the next position (`KasaiCarry`). So every stored value is the exact common-prefix length.

**Specification** (`Suffixes`). This module defines, independently of both algorithms:
- lexicographic order on strings, in which a proper prefix sorts first;
- the longest common prefix;
- bounded prefixes of suffixes;
- permutations of `0..n-1`;
- what a suffix array, its rank table and its LCP array are.

It proves that order is a strict total order. It also proves that a text has exactly one suffix array, one rank table and one LCP array.

**Entry point and samples** (`SuffixArray`, `Oracle`). The entry point handles the empty text and runs the two stages one after the other. `Oracle` proves, for each sample text of the source's test function, that the arrays the test expects are the only ones meeting the entry point's contract. `Oracle.TestBuildSuffixArrayAndLCP` also calls the entry point on each sample text and asserts the expected arrays statically.

## Model

| member | source | states |
|---|---|---|
| Suffixes.Lcp | suffix_array.cc:12 | the result is a length shared by both strings, at most as long as either, and the strings differ at it unless one has ended |
| Suffixes.LcpUnique | suffix_array.cc:12 | those three facts determine the common-prefix length uniquely |
| Suffixes.LexLessIrreflexive | suffix_array.cc:11 | no suffix sorts before itself |
| Suffixes.LexLessTransitive | suffix_array.cc:11 | the suffix order is transitive |
| Suffixes.LexLessTotal | suffix_array.cc:11 | two different strings are always ordered one way or the other |
| Suffixes.LexLessAsymmetric | suffix_array.cc:11 | two strings are never ordered both ways |
| Suffixes.LexTrichotomy | suffix_array.cc:11 | `a` sorts before `b` exactly when they differ and `b` does not sort before `a` |
| Suffixes.LexLessExtend | suffix_array.cc:44-49 | two different strings keep their order when extended, unless one is a prefix of the other |
| Suffixes.LexLessCommonPrefix | suffix_array.cc:47-49 | a shared head does not change the order of two strings |
| Suffixes.LcpSymmetric | suffix_array.cc:76-77 | the common-prefix length does not depend on argument order |
| Suffixes.LcpSandwich | suffix_array.cc:82-84 | a string sorted between two others shares at least as long a prefix with the larger one as the smaller one does |
| Suffixes.PreSplit | suffix_array.cc:41 | the `2g`-prefix of a suffix is its `g`-prefix followed by the `g`-prefix `g` positions on |
| Suffixes.PreOrderStable | suffix_array.cc:44-45 | two prefixes that already differ keep their order and stay different under a longer bound |
| Suffixes.PreWhole | suffix_array.cc:64 | a bound at least as long as the text gives the whole suffix |
| Suffixes.RangeCount | suffix_array.cc:36-37 | every value below `n` occurs exactly once in `0..n-1` |
| Suffixes.PermutationFromMultiset | suffix_array.cc:32-52 | a sequence with the same multiset as `0..n-1` lists each position exactly once |
| Suffixes.AscendingUnique | suffix_array.cc:11 | two strictly ascending arrangements of the same positions are equal |
| Suffixes.SuffixArrayUnique | suffix_array.cc:11 | a text has exactly one suffix array |
| Suffixes.AscendingFromAdjacent | suffix_array.cc:11 | ascending order between neighbours gives ascending order between all pairs |
| Suffixes.RankOfUnique | suffix_array.cc:33 | two rank tables that invert the same `sa` are equal |
| Suffixes.LcpArrayUnique | suffix_array.cc:12 | the LCP array is determined by `sa`; re-running the LCP stage gives the same array |
| Doubling.Next | suffix_array.cc:47-48 | the rank `gap` positions on, or the sentinel -1 past the end; its meaning is given by `Doubling.NextOrder` and `Doubling.PairLessDoubles` |
| Doubling.PairLess | suffix_array.cc:43-50 | the comparator `compare_suffixes`: first ranks, then the ranks `gap` positions on; `Doubling.PairLessDoubles` proves it is the order of the `2g`-prefixes |
| Doubling.RepresentsInitial | suffix_array.cc:36-39 | symbol ordinals order and tie the positions exactly as their one-symbol prefixes do |
| Doubling.PairLessDoubles | suffix_array.cc:43-50 | the comparator on rank pairs of `g`-prefixes holds exactly when the `2g`-prefix of `i` sorts before that of `j` |
| Doubling.PairLessTie | suffix_array.cc:47-49 | with equal ranks on full `g`-prefixes, the comparator is the order of the second halves |
| Doubling.NextOrder | suffix_array.cc:47-49 | the second components, with -1 past the end, order the second halves, so a suffix that ends first sorts first |
| Doubling.RerankMonotone | suffix_array.cc:54-58 | along the sorted order the new ranks never decrease, and they rise between two entries exactly when the comparator separates them |
| Doubling.RerankOrder | suffix_array.cc:54-58 | new ranks compare as the comparator does, and tie exactly the pairs it leaves unordered |
| Doubling.RoundRepresents | suffix_array.cc:41-62 | after a round with gap `g` the ranks describe the `2g`-prefixes |
| Doubling.RerankBounds | suffix_array.cc:54-58 | the new rank at place `k` along `sa` is at most `k`, and the last rank exceeds it by at most `n-1-k` |
| Doubling.RerankBounds0 | suffix_array.cc:54-58 | the new rank at place `k` along `sa` is at most `k` |
| Doubling.FinishedIffDistinct | suffix_array.cc:64-66 | the stopping test holds exactly when the ranks along `sa` are all distinct, and then `rank[sa[k]] == k` |
| Doubling.DistinctStepsUp | suffix_array.cc:54-58 | distinct new ranks along `sa` are exactly `0, 1, ..., n-1` |
| Doubling.WideRoundDistinct | suffix_array.cc:42-66 | once the prefix length reaches `n`, ranks of different positions differ, so the loop stops |
| Doubling.FinalOrder | suffix_array.cc:64-67 | ranks that describe whole suffixes and invert `sa` make `sa` the suffix array and `rank` its rank table |
| Doubling.SortByRankPair | suffix_array.cc:52 | the sort leaves a rearrangement of its input, ordered by the comparator |
| Doubling.SinkStart | suffix_array.cc:52 | inserting the next entry starts from a sorted prefix |
| Doubling.SinkStep | suffix_array.cc:52 | swapping the moving entry down past a larger neighbour keeps the rest ordered |
| Doubling.SinkDone | suffix_array.cc:52 | when the moving entry stops, one more entry is sorted |
| Doubling.SwapKeepsMultiset | suffix_array.cc:52 | swapping neighbours keeps the entries |
| Doubling.InsertNext | suffix_array.cc:52 | one insertion step extends the sorted prefix by one, keeps the entries and leaves the entries after it untouched |
| Doubling.Rerank | suffix_array.cc:54-58 | the new ranks start at 0 along `sa` and rise by 1 exactly where the comparator puts the previous suffix strictly first, else by 0 |
| Doubling.RoundOutcome | suffix_array.cc:41-66 | a round yields `2g`-prefix ranks; the stopping test holds exactly when they invert `sa`, and it must hold once `2g >= n` |
| Doubling.CopyBack | suffix_array.cc:60-62 | the rank table becomes the temporary table |
| Doubling.DoublingRound | suffix_array.cc:43-66 | one round leaves `sa` a permutation sorted by the round's comparator and `rank` the re-ranking along it (0 first, then +0 or +1 per step); the new ranks describe the `2g`-prefixes; on exit `rank` inverts `sa`, otherwise `2g < n` |
| Doubling.BuildSuffixArray | suffix_array.cc:32-67 | the doubling stage yields the suffix array of the text and its rank table |
| Kasai.DropFirst | suffix_array.cc:82-84 | dropping a shared first symbol shortens the common prefix by one and keeps the order |
| Kasai.RankFollowsOrder | suffix_array.cc:73-74 | in a suffix array, rank order is suffix order |
| Kasai.PredecessorBetween | suffix_array.cc:74 | a suffix sorted below another one is no larger than that suffix's sorted predecessor |
| Kasai.KasaiCarry | suffix_array.cc:82-84 | `h` lowered by one (never below 0) is still a lower bound on the next position's common prefix with its predecessor |
| Kasai.FillStep | suffix_array.cc:80 | storing `h` at `lcp[rank[i]]` extends the filled part by position `i` |
| Kasai.FilledIsLcp | suffix_array.cc:70-86 | with every position filled, the array is the LCP array |
| Kasai.ExtendMatch | suffix_array.cc:77-79 | from a known common length, the match loop reaches the longest common prefix without reading past the text |
| Kasai.BuildLcp | suffix_array.cc:69-86 | Kasai's pass over a suffix array and its rank table yields exactly its LCP array |
| SuffixArray.BuildSuffixArrayAndLCP | suffix_array.cc:25-89 | the result arrays have length `n`; `sa` is the suffix array and `lcp` its LCP array, empty for the empty text |
| SuffixArray.ResultUnique | suffix_array.cc:25-89 | any two results meeting that contract are equal, so the result is determined by the text |
| SuffixArray.Rederivation | suffix_array.cc:33 | re-deriving `rank` from the returned `sa` by `rank[sa[k]] = k` gives the stage-one table back, and any LCP array of `sa`, so the output of a second Kasai pass, equals the returned `lcp` |
| Oracle.Banana | suffix_array.cc:95-100 | on "banana" the result is `[5,3,1,0,4,2]`, `[0,1,3,0,0,2]` |
| Oracle.Ababa | suffix_array.cc:102-107 | on "ababa" the result is `[4,2,0,3,1]`, `[0,1,3,0,2]` |
| Oracle.AllSame | suffix_array.cc:109-114 | on "aaaaa" the result is `[4,3,2,1,0]`, `[0,1,2,3,4]` |
| Oracle.AllDistinct | suffix_array.cc:116-121 | on "abcde" the result is `[0,1,2,3,4]`, `[0,0,0,0,0]` |
| Oracle.EmptyText | suffix_array.cc:123-128 | on "" the result is two empty arrays |
| Oracle.SingleSymbol | suffix_array.cc:130-135 | on "a" the result is `[0]`, `[0]` |
| Oracle.Mississippi | suffix_array.cc:137-142 | on "mississippi" the result is `[10,7,4,1,0,9,8,6,3,5,2]`, `[0,1,1,4,0,0,1,0,2,1,3]` |
| Oracle.ExpectedResult | suffix_array.cc:91-145 | arrays listing every position, ascending between neighbours and with the neighbours' common-prefix lengths, are the result |
| Oracle.Neighbours | suffix_array.cc:91-145 | two suffixes sharing a head `p` and then differing in the right way are ordered, with common prefix `|p|` |

## Left out

- `runBuildSuffixArrayAndLCPSample`, `main` and the console output of the test function (suffix_array.cc:100-176). They are I/O. The test function keeps its calls and asserts in `Oracle.TestBuildSuffixArrayAndLCP`, which therefore has no contract of its own.
- The internals of `std::sort` (line 52). A library call is replaced by a verified insertion sort. `Doubling.SortByRankPair` promises only what the call promises: a rearrangement ordered by the comparator. Nothing downstream relies on the order among tied entries.
- Signed `char` ordinals (line 38). The text is a Dafny `string`, and the initial rank is the non-negative ordinal of each symbol. A negative `char` value could fall below the -1 sentinel; that case is not modelled.
- `int` overflow of `gap *= 2`, of `i + gap` and of `i + h` (lines 42, 47-48, 77). All integers are mathematical. The doubling loop terminates by the measure `n - gap`.
- The complexity claims of the doc comment and the amortised argument for `h` (lines 22-23). They are not functional behaviour.
- The single C++ function is split up. The doubling stage and Kasai's pass are separate methods (`Doubling.BuildSuffixArray`, `Kasai.BuildLcp`), and the loop bodies of a round are methods of their own.
- The result vectors are modelled as `seq<int>`. The stage-one arrays are handed to Kasai's pass as sequences.
- `Doubling.BuildSuffixArray` requires a non-empty text. The empty text is handled by the early return of `SuffixArray.BuildSuffixArrayAndLCP` (lines 28-30), as in the source.
- `Kasai.BuildLcp` requires a suffix array and its rank table. In the source it only ever receives the stage-one output.
