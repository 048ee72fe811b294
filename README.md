# Suffix array with Kasai LCP — a verified model

This project models the `SuffixArray` class of the string-algorithms library
(`src/main/java/com/stringalgo/SuffixArray.java`) in Dafny and proves what
its operations compute:

- **Construction** keeps the input text and appends a `'$'` sentinel unless the
  text already ends in one. `n` is the length of the resulting text.
- **`buildSuffixArray`** sorts the suffix offsets by prefix doubling:
  - offsets start as `0..n-1` and ranks start as character codes;
  - each pass sorts the offsets by the pair (rank, rank `k` further on, or
    `-1` past the end) and re-ranks them densely along the sorted order;
  - passes repeat with `k` doubling until the last rank is `n - 1` or `k`
    reaches `n`.
  
  The model keeps the source's arrays (`suffixArray`, `rank`, `tempRank`) and
  its loops. The library sort is modelled as an in-place sort by the
  comparator's key, proved only to sort by that key and to permute its input.
- **`buildLCP`** is Kasai's algorithm. It inverts the suffix array, then
  visits the offsets in text order. At each offset it extends the common
  prefix with its predecessor in suffix order, starting from the previous
  length minus one.
- **`search`** binary-searches for the first suffix, in sorted order, whose
  first `m` symbols are not below the pattern. It then checks whether those
  symbols are the pattern.
- **`countDistinctSubstrings`** computes `n(n+1)/2 - Σ lcp` and
  **`longestRepeatedSubstring`** takes the prefix at the first largest LCP
  entry. Both build the LCP array first if it is missing.
- **The getters**: `getText`, `getLength`, `getSuffixArray` and `getLCP`.

The text is a `Text`: a sequence of UTF-16 code units, integers in
`[0, 65536)`, which is what a Java `String` holds and what `charAt` returns.
Suffixes are compared as `String.compareTo` compares them, unit by unit
(module `Lexicographic`). Nothing assumes that `'$'` (code unit `0x24`) is
the smallest symbol or that it occurs only once.

Modules:

- `Lexicographic` (`lex.dfy`): the order on strings and the longest common
  prefix.
- `Permutations` (`permutation.dfy`): permutations of `0..n-1` and sums.
- `SuffixOrder` (`suffix_order.dfy`): what a suffix array and an LCP array
  are, and their properties.
- `PrefixDoubling` (`doubling.dfy`): the construction.
- `DistinctSubstrings` (`distinct.dfy`): the counting argument behind
  `n(n+1)/2 - Σ lcp`.
- `SuffixArrays` (`suffix_array.dfy`): the class, Kasai's algorithm and the
  queries.
- `Examples` (`examples.dfy`): the library's "banana" and "abcabc" test
  inputs, stated against the definitions: the values the tests check, and
  for "abcabc" also the suffix and LCP arrays, which that test builds
  without checking.

The specification the methods are proved against:

- `IsSuffixArray(t, sa)`: `sa` is a permutation of `0..n-1` whose suffixes
  are in strictly increasing order.
- `LcpArray(t, sa)`: entry `0` is 0, and entry `r` is the longest common
  prefix of the suffixes ranked `r - 1` and `r`.
- `Substrings(t)`: the set of non-empty substrings.
- `LongestRepeatOf`: what the longest-repeated-substring scan answers. The
  string is repeated and no repeated string is longer. It is empty exactly
  when every LCP entry is 0. Otherwise it is the common prefix at the first
  rank holding the largest entry, occurring at the offsets ranked `r` and
  `r - 1`.

The class invariant `Valid()` ties these together:

- the text ends in `'$'` and has length `n`;
- once the suffix array is built, it satisfies `IsSuffixArray`;
- an LCP array, once present, equals `LcpArray` of the current suffix array.

Rebuilding the suffix array keeps an existing LCP array correct, because
the suffix array of a text is unique (`SuffixOrder.SuffixArrayUnique`).

## Model

| member | source | states |
|---|---|---|
| SuffixArrays.Normalize | src/main/java/com/stringalgo/SuffixArray.java:29-36 | the text ends in `'$'` and starts with the input; it equals the input exactly when the input already ends in `'$'`, and is the input followed by `'$'` otherwise |
| SuffixArrays.EndsWithSentinel | src/main/java/com/stringalgo/SuffixArray.java:31 | `endsWith("$")` holds exactly when the text is non-empty and its last unit is `'$'` |
| SuffixArrays.SuffixArray.constructor | src/main/java/com/stringalgo/SuffixArray.java:29-39 | the text is the normalised input, `n` is its length, the suffix array is fresh and all zeros, no LCP array exists, and the object is valid |
| SuffixArrays.SuffixArray.BuildSuffixArray | src/main/java/com/stringalgo/SuffixArray.java:53-116 | afterwards `suffixArray` is the suffix array of the text and, for `n > 1`, `rank` is its inverse; an LCP array built earlier stays correct |
| PrefixDoubling.DoublingSort | src/main/java/com/stringalgo/SuffixArray.java:53-116 | the doubling loop leaves a permutation of `0..n-1` in strictly increasing suffix order and, for `n > 1`, ranks equal to positions in it |
| PrefixDoubling.DoublingIteration | src/main/java/com/stringalgo/SuffixArray.java:68-114 | one pass turns ranks that order prefixes of length `k` into ranks that order prefixes of length `2k`, dense along `sa`; it stops early exactly when the last rank is `n - 1`, always stops once `2k >= n`, and then `sa` is the suffix array |
| PrefixDoubling.DoublingRound | src/main/java/com/stringalgo/SuffixArray.java:70-109 | the pass sorts the offsets by the (rank, rank `k` on, or -1) key, permuting `0..n-1`, and copies in new ranks that start at 0 and grow by one exactly where the key changes |
| PrefixDoubling.FillIdentity | src/main/java/com/stringalgo/SuffixArray.java:55-57 | the array holds `0, 1, ..., n-1` |
| PrefixDoubling.CharRanks | src/main/java/com/stringalgo/SuffixArray.java:60-62 | character codes are non-negative ranks that order the suffixes by their first symbol |
| PrefixDoubling.FirstSymbol | src/main/java/com/stringalgo/SuffixArray.java:60-62 | equal or smaller first symbols are equal or smaller one-symbol prefixes |
| PrefixDoubling.UpToIsPrefixComparison | src/main/java/com/stringalgo/SuffixArray.java:77-84 | comparing suffixes up to `k` symbols is comparing their `k`-symbol prefixes under the string order |
| PrefixDoubling.SecondKey | src/main/java/com/stringalgo/SuffixArray.java:81-82 | the second key is the rank `gap` further on when that offset is inside the text and -1 otherwise; for non-negative ranks it is non-negative exactly when the offset is inside |
| PrefixDoubling.Compare | src/main/java/com/stringalgo/SuffixArray.java:77-84 | the comparator returns 0 exactly when both ranks and both second keys are equal, and a negative value exactly when the pair (rank, second key) is lexicographically smaller |
| PrefixDoubling.DoublingStep | src/main/java/com/stringalgo/SuffixArray.java:77-84 | given ranks for `k`-prefixes, the comparator returns 0 exactly for equal `2k`-prefixes and a negative value exactly for smaller ones |
| PrefixDoubling.SortByKey | src/main/java/com/stringalgo/SuffixArray.java:77-84 | the sort permutes the offsets and leaves them in non-decreasing comparator order |
| PrefixDoubling.InsertByKey | src/main/java/com/stringalgo/SuffixArray.java:77-84 | inserting one more offset keeps the sorted prefix sorted and the contents a permutation |
| PrefixDoubling.CopyInto | src/main/java/com/stringalgo/SuffixArray.java:109 | the destination becomes a copy of the source |
| PrefixDoubling.AssignRanks | src/main/java/com/stringalgo/SuffixArray.java:92-106 | the first offset gets rank 0 and each next offset gets the previous rank, or one more exactly when the comparator key differs |
| PrefixDoubling.StepRanksByKey | src/main/java/com/stringalgo/SuffixArray.java:92-106 | ranks assigned along a key-sorted arrangement are equal exactly for equal keys and smaller exactly for smaller keys |
| PrefixDoubling.StepRanksAlong | src/main/java/com/stringalgo/SuffixArray.java:92-106 | along the sorted arrangement, later offsets get ranks no smaller, equal exactly when their keys are equal |
| PrefixDoubling.DoubledRanks | src/main/java/com/stringalgo/SuffixArray.java:92-106 | ranks that follow the comparator key order suffixes by their `2k`-prefixes |
| PrefixDoubling.DoublingPass | src/main/java/com/stringalgo/SuffixArray.java:87-109 | after sorting and re-ranking, the new ranks order `2k`-prefixes and run densely from 0 along the arrangement |
| PrefixDoubling.DenseTop | src/main/java/com/stringalgo/SuffixArray.java:111-114 | for dense ranks the last one is `n - 1` exactly when all ranks along the arrangement strictly increase, and then rank equals position |
| PrefixDoubling.TiedInRange | src/main/java/com/stringalgo/SuffixArray.java:78-82 | two distinct offsets with equal `k`-prefix ranks both lie at least `k` before the end, so `a + gap` and `b + gap` stay within the text |
| PrefixDoubling.FullWindowBreaks | src/main/java/com/stringalgo/SuffixArray.java:111-113 | with a window of at least `n` symbols, dense ranks end at `n - 1`, so the early-exit test fires |
| PrefixDoubling.NoTiesAtFullLength | src/main/java/com/stringalgo/SuffixArray.java:68 | once `k` reaches `n`, ranks by `k`-prefixes are pairwise distinct, so leaving the loop there is safe |
| PrefixDoubling.FinishBuild | src/main/java/com/stringalgo/SuffixArray.java:111-115 | when the last rank is `n - 1` or `k` reaches `n`, the arrangement is the suffix array and each rank is its position |
| SuffixOrder.SuffixArrayUnique | src/main/java/com/stringalgo/SuffixArray.java:53-116 | a text has exactly one suffix array |
| SuffixOrder.RankOrder | src/main/java/com/stringalgo/SuffixArray.java:53-116 | in a suffix array, one suffix is below another exactly when its position is earlier |
| SuffixOrder.SortedPairwise | src/main/java/com/stringalgo/SuffixArray.java:53-116 | every earlier suffix in the array is strictly below every later one |
| SuffixOrder.InverseFacts | src/main/java/com/stringalgo/SuffixArray.java:132-135 | the inverse maps each offset to the position holding it |
| SuffixArrays.InverseOf | src/main/java/com/stringalgo/SuffixArray.java:132-135 | the computed array is the inverse of the suffix array |
| SuffixArrays.SuffixArray.BuildLcp | src/main/java/com/stringalgo/SuffixArray.java:128-163 | afterwards `lcp` is a fresh array equal to the LCP array of the suffix array, and nothing else changes |
| SuffixArrays.KasaiTable | src/main/java/com/stringalgo/SuffixArray.java:128-163 | Kasai's algorithm yields exactly the LCP array: 0 at rank 0 and the common prefix with the predecessor elsewhere |
| SuffixArrays.KasaiVisit | src/main/java/com/stringalgo/SuffixArray.java:140-162 | one visit fills the entry of offset `i`, skipping rank 0, and the carried `k` never exceeds the true common prefix of the next offset with its predecessor |
| SuffixArrays.KasaiPartialEnds | src/main/java/com/stringalgo/SuffixArray.java:128-163 | before the loop the table is all zeros, and after visiting every offset it is the LCP array |
| SuffixArrays.KasaiPartialStep | src/main/java/com/stringalgo/SuffixArray.java:142-156 | visiting offset `i` changes only the entry at its rank, writes the common prefix with its predecessor there, and leaves rank 0 at 0 |
| SuffixArrays.MatchLength | src/main/java/com/stringalgo/SuffixArray.java:151-154 | extending from any `k` not above the common prefix ends exactly at the common prefix |
| SuffixArrays.MatchStep | src/main/java/com/stringalgo/SuffixArray.java:151-154 | one more matching symbol is still within the common prefix |
| SuffixOrder.KasaiStep | src/main/java/com/stringalgo/SuffixArray.java:158-161 | the predecessor common prefix of offset `i + 1` is at least that of `i` minus one |
| SuffixOrder.KasaiNext | src/main/java/com/stringalgo/SuffixArray.java:158-161 | a suffix below `t[i..]` sharing `h >= 2` symbols yields a predecessor common prefix of at least `h - 1` for `i + 1` |
| SuffixOrder.ShiftByOne | src/main/java/com/stringalgo/SuffixArray.java:158-161 | dropping a shared first symbol keeps the order and shortens the common prefix by one |
| SuffixOrder.LcpWithin | src/main/java/com/stringalgo/SuffixArray.java:148 | any earlier suffix shares no more with `t[sa[q]..]` than its immediate predecessor does |
| SuffixOrder.LcpArrayBounds | src/main/java/com/stringalgo/SuffixArray.java:156 | each stored entry fits inside both suffixes and is a prefix they share |
| Lexicographic.LessIsCompareTo | src/main/java/com/stringalgo/SuffixArray.java:183 | the order `Less` holds exactly when `compareTo` (first differing unit, else length difference) is negative, and `compareTo` is 0 exactly for equal strings |
| Lexicographic.Prefix | src/main/java/com/stringalgo/SuffixArray.java:180-181 | `substring(0, min(m, length))`: the result is a prefix of the string of length `min(m, length)` |
| SuffixArrays.Min | src/main/java/com/stringalgo/SuffixArray.java:181 | `Math.min` returns one of its arguments, and it is no larger than either |
| Lexicographic.Lcp | src/main/java/com/stringalgo/SuffixArray.java:151-154 | the result is a common prefix length that cannot be extended |
| Lexicographic.Trichotomy | src/main/java/com/stringalgo/SuffixArray.java:183 | exactly one of below, equal, above holds for the string order |
| Lexicographic.LessTransitive | src/main/java/com/stringalgo/SuffixArray.java:183 | the string order is transitive |
| Lexicographic.PrefixCompare | src/main/java/com/stringalgo/SuffixArray.java:180-183 | cutting two strings to `m` symbols gives equal cuts exactly when they share `m` symbols or are equal, and otherwise keeps their order |
| Lexicographic.PrefixMonotone | src/main/java/com/stringalgo/SuffixArray.java:180-183 | cutting to `m` symbols keeps a strict order weakly |
| SuffixArrays.SuffixArray.Search | src/main/java/com/stringalgo/SuffixArray.java:173-202 | returns -1 exactly when the pattern is not a substring; otherwise an offset where it occurs, namely the one whose suffix is least |
| SuffixArrays.FindFirst | src/main/java/com/stringalgo/SuffixArray.java:173-202 | the binary search and final check return -1 exactly for absent patterns and otherwise the occurrence with the least suffix |
| SuffixArrays.LowerBound | src/main/java/com/stringalgo/SuffixArray.java:174-188 | the search converges to a position whose predecessor's cut is below the pattern and whose own cut is not, unless it is the last position |
| SuffixArrays.Probe | src/main/java/com/stringalgo/SuffixArray.java:179-183 | the probe's `compareTo(pattern) < 0` answers whether the suffix at `mid`, cut to `m` symbols, is below the pattern |
| SuffixOrder.TruncatedSorted | src/main/java/com/stringalgo/SuffixArray.java:180-187 | suffixes cut to `m` symbols stay in non-decreasing order along the suffix array, which makes the binary search valid |
| SuffixArrays.SearchOutcome | src/main/java/com/stringalgo/SuffixArray.java:190-201 | at the converged position the pattern is a substring exactly when it occurs there, and that suffix is least among its occurrences |
| SuffixArrays.FirstMatch | src/main/java/com/stringalgo/SuffixArray.java:190-199 | any occurrence forces the converged position's cut to equal the pattern, with a suffix no larger than the occurrence's |
| SuffixArrays.SuffixArray.CountDistinctSubstrings | src/main/java/com/stringalgo/SuffixArray.java:214-227 | returns the number of distinct non-empty substrings, at most `n(n+1)/2`, building the LCP array if it is missing and keeping it if present |
| SuffixArrays.DistinctCount | src/main/java/com/stringalgo/SuffixArray.java:219-226 | `n(n+1)/2 - Σ lcp` is the number of distinct non-empty substrings |
| SuffixArrays.SumOf | src/main/java/com/stringalgo/SuffixArray.java:222-224 | the loop adds up every entry |
| SuffixArrays.CountFormula | src/main/java/com/stringalgo/SuffixArray.java:219-226 | with the LCP array of the suffix array, `n(n+1)/2 - Σ lcp` counts the distinct non-empty substrings and lies in `[0, n(n+1)/2]` |
| DistinctSubstrings.DistinctSubstringCount | src/main/java/com/stringalgo/SuffixArray.java:219-226 | the set of non-empty substrings has `n(n+1)/2 - Σ LcpArray` elements |
| DistinctSubstrings.DistinctSubstringBound | src/main/java/com/stringalgo/SuffixArray.java:219 | there are at most `n(n+1)/2` distinct non-empty substrings |
| DistinctSubstrings.CoveredIsSubstrings | src/main/java/com/stringalgo/SuffixArray.java:219-226 | the prefixes of the suffixes, taken rank by rank beyond the shared part, are exactly the non-empty substrings |
| DistinctSubstrings.CoveredCount | src/main/java/com/stringalgo/SuffixArray.java:222-224 | the first `k` ranks contribute `k·n - Σ sa[..k] - Σ lcp[..k]` distinct substrings |
| DistinctSubstrings.CoveredStep | src/main/java/com/stringalgo/SuffixArray.java:222-224 | rank `r` adds exactly `n - sa[r] - lcp[r]` new substrings |
| DistinctSubstrings.BlockFresh | src/main/java/com/stringalgo/SuffixArray.java:222-224 | prefixes of rank `r` longer than its LCP entry did not occur at earlier ranks |
| DistinctSubstrings.ChargedTotal | src/main/java/com/stringalgo/SuffixArray.java:219-226 | summed over all ranks, the new substrings number `n(n+1)/2 - Σ lcp` |
| DistinctSubstrings.SuffixArrayCharges | src/main/java/com/stringalgo/SuffixArray.java:222-224 | the LCP array of a suffix array is a valid charge table: each entry is shared with the predecessor and dominates every earlier common prefix |
| SuffixOrder.LcpArrayDominates | src/main/java/com/stringalgo/SuffixArray.java:222-224 | an LCP entry bounds the common prefix with every earlier suffix |
| SuffixArrays.SuffixArray.LongestRepeatedSubstring | src/main/java/com/stringalgo/SuffixArray.java:236-257 | returns a longest repeated substring: empty exactly when all LCP entries are 0, otherwise the prefix at the first rank holding the maximum; the LCP array is built if missing and kept if present |
| SuffixArrays.LongestRepeat | src/main/java/com/stringalgo/SuffixArray.java:241-256 | the scan answers `LongestRepeatOf`: repeated, no repeated string longer, empty iff all entries are 0, occurring at the offsets ranked `r` and `r - 1` for the first maximal `r` |
| SuffixArrays.FirstMax | src/main/java/com/stringalgo/SuffixArray.java:241-249 | the strict `>` scan from `maxLen = 0` stops at the first position holding the maximum |
| SuffixArrays.LongestRepeatChosen | src/main/java/com/stringalgo/SuffixArray.java:251-256 | a zero maximum gives the empty answer; otherwise the substring at `sa[r]` of length `lcp[r]` is in range and is the answer |
| SuffixArrays.RepeatFound | src/main/java/com/stringalgo/SuffixArray.java:255-256 | a positive maximum's substring lies in the text, occurs at the two adjacent offsets, which differ, and no repeated string is longer, so it is the answer |
| SuffixArrays.NoRepeat | src/main/java/com/stringalgo/SuffixArray.java:251-253 | a zero maximum means every entry is 0 and no non-empty string repeats, so the empty string is the answer |
| SuffixArrays.AdjacentRepeat | src/main/java/com/stringalgo/SuffixArray.java:255-256 | the substring of length `lcp[r]` at `sa[r]` lies within the text and also occurs at `sa[r - 1]` |
| SuffixArrays.LongestRepeatBound | src/main/java/com/stringalgo/SuffixArray.java:244-249 | no repeated substring is longer than an upper bound on the LCP entries |
| SuffixOrder.RepeatBound | src/main/java/com/stringalgo/SuffixArray.java:244-249 | the common prefix of any two distinct suffixes is bounded by some LCP entry |
| SuffixArrays.SuffixArray.GetSuffixArray | src/main/java/com/stringalgo/SuffixArray.java:260-262 | the returned array has length `n` and, once built, is the suffix array |
| SuffixArrays.SuffixArray.GetLcp | src/main/java/com/stringalgo/SuffixArray.java:264-266 | the result is `null` before the LCP array is built, and afterwards the LCP array of the suffix array, of length `n` |
| SuffixArrays.SuffixArray.GetText | src/main/java/com/stringalgo/SuffixArray.java:268-270 | the text is non-empty and ends in `'$'` |
| SuffixArrays.SuffixArray.GetLength | src/main/java/com/stringalgo/SuffixArray.java:272-274 | the length is that of the text |
| Examples.BananaNormalized | src/main/java/com/stringalgo/SuffixArray.java:29-36 | the text built from "banana" is "banana$" |
| Examples.BananaSuffixArray | src/test/java/com/stringalgo/SuffixArrayTest.java:41-44 | `[6, 5, 3, 1, 0, 4, 2]` is the suffix array of "banana$", and the only one |
| Examples.BananaLcp | src/test/java/com/stringalgo/SuffixArrayTest.java:42-45 | the LCP array of that suffix array is `[0, 0, 1, 3, 0, 0, 2]` |
| Examples.AbcAbcNormalized | src/main/java/com/stringalgo/SuffixArray.java:29-36 | the text built from "abcabc" is "abcabc$" |
| Examples.AbcAbcSuffixArray | src/test/java/com/stringalgo/SuffixArrayTest.java:100-107 | derived for the test's input, which the test builds but does not check: `[6, 3, 0, 4, 1, 5, 2]` is the suffix array of "abcabc$", and the only one |
| Examples.AbcAbcLcp | src/test/java/com/stringalgo/SuffixArrayTest.java:100-107 | derived for the test's input, which the test builds but does not check: the LCP array of that suffix array is `[0, 0, 3, 0, 2, 0, 1]` |
| Examples.AbcAbcLongestRepeat | src/test/java/com/stringalgo/SuffixArrayTest.java:109-110 | "abc" is the one string the longest-repeated-substring specification admits for "abcabc$" |
| Examples.AbcAbcDistinctCount | src/test/java/com/stringalgo/SuffixArrayTest.java:113-114 | "abcabc$" has 22 distinct non-empty substrings, within the test's bound of 28 |

## Left out

- Text is UTF-16 code units, as in Java; a surrogate pair is two units, as `charAt` and `compareTo` treat it. Unicode beyond that (normalisation, code points) plays no part in the class.
- PrefixDoubling.SortByKey is an insertion sort proved to sort by the comparator's key and permute its input. `Arrays.sort` on objects is TimSort; its stability is not relied on, so only its result is modelled, not its algorithm.
- Integer width: all quantities are unbounded `int`, so the model agrees with Java's 32-bit `int` only while no sum wraps around. That holds when `n <= 2^30` and `n + |pattern| < 2^31`; beyond that the source misbehaves and the model does not follow it:
  - `(left + right) / 2` (line 179) wraps when `left + right >= 2^31`;
  - `suffixArray[mid] + m` (line 181) and `start + m` (line 193) wrap when the text and pattern lengths together exceed `2^31 - 1`, so `substring` is given a negative end;
  - `(long) n * (n + 1)` (line 219) computes `n + 1` in `int`, which wraps only for `n = 2^31 - 1`.
  
  The comparator's subtractions (lines 79 and 83) stay within `int` for ranks in `[-1, n)` and code units. The gap sums never exceed `n`:
  - `a + gap`, `b + gap` (lines 81-82) and `curr + gap`, `prev + gap` (lines 99-102) are evaluated only for distinct offsets tied in rank, which lie at least `gap` before the end (`PrefixDoubling.TiedInRange`);
  - `k *= 2` (line 68) runs only after a pass that did not exit early, and such a pass had `2k < n` (`PrefixDoubling.DoublingIteration`).
- SuffixArrays.SuffixArray.BuildSuffixArray: for a one-symbol text, `rank` keeps the character code and the contract says nothing about it. `rank` has no getter, so callers cannot see it.
- Calling `search`, `buildLCP`, `countDistinctSubstrings` or `longestRepeatedSubstring` before `buildSuffixArray` is a precondition, not a modelled path. In the source those calls run on an all-zero suffix array and give meaningless answers.
- SuffixArrays.SuffixArray.Search: the source documents "first occurrence". The model proves the occurrence whose suffix is least, which is what the binary search returns; it is not always the lowest text offset. An empty pattern occurs at every offset and yields `sa[0]`.
- Getters return the internal arrays without copying. The model returns the same array references but does not model callers mutating them afterwards.
- `toString`, running-time and memory bounds, timing, and the benchmark, example and graph-generation programs are outside the modelled class.
