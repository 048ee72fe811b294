/**
 * The suffix-array object: a `'$'`-terminated text, its suffix array built
 * by prefix doubling, its LCP array built by Kasai's algorithm, and the
 * queries answered from them.
 */
module SuffixArrays {
  import opened Lexicographic
  import opened Permutations
  import opened SuffixOrder
  import opened PrefixDoubling
  import opened DistinctSubstrings

  /** The sentinel `'$'`. */
  const Sentinel: CodeUnit := 0x24

  /** The text the structure works on: the input, with the sentinel appended unless it already ends in one. */
  function Normalize(input: Text): (t: Text)
    ensures |t| >= 1 && t[|t| - 1] == Sentinel
    ensures |input| <= |t| && t[..|input|] == input
    ensures t == input <==> EndsWithSentinel(input)
    ensures !EndsWithSentinel(input) ==> t == input + [Sentinel]
  {
    if EndsWithSentinel(input) then input else input + [Sentinel]
  }

  /** Java's `endsWith("$")`: the last one-unit slice is the sentinel. */
  predicate EndsWithSentinel(s: Text)
    ensures EndsWithSentinel(s) <==> |s| > 0 && s[|s| - 1] == Sentinel
  {
    |s| >= 1 && s[|s| - 1..] == [Sentinel]
  }

  /** `p` occurs in `t` starting at offset `x` of `t`. */
  ghost predicate OccursAt(t: Text, p: Text, x: int) {
    0 <= x < |t| && x + |p| <= |t| && t[x..x + |p|] == p
  }

  ghost predicate IsSubstring(p: Text, t: Text) {
    exists x :: OccursAt(t, p, x)
  }

  /** `p` occurs in `t` at two different offsets. */
  ghost predicate IsRepeated(t: Text, p: Text) {
    exists i, j :: i != j && OccursAt(t, p, i) && OccursAt(t, p, j)
  }

  /** `r` is the first position holding the largest entry of `a`. */
  ghost predicate FirstMaxAt(a: seq<int>, r: int) {
    && 0 <= r < |a|
    && (forall q :: 0 <= q < r ==> a[q] < a[r])
    && (forall q :: r <= q < |a| ==> a[q] <= a[r])
  }

  /**
   * `s` is what the longest-repeated-substring scan answers for the suffix
   * array `sa` and its LCP array `lcp`: a repeated string no repeated
   * string is longer than, empty exactly when every LCP entry is 0, and
   * otherwise the common prefix at the first rank `r` holding the largest
   * entry, occurring at the offsets ranked `r` and `r - 1`.
   */
  ghost predicate LongestRepeatOf(t: Text, sa: seq<int>, lcp: seq<int>, s: Text) {
    && |lcp| == |sa|
    && (s != [] ==> IsRepeated(t, s))
    && (forall x :: IsRepeated(t, x) ==> |x| <= |s|)
    && (s == [] <==> forall r :: 0 <= r < |lcp| ==> lcp[r] == 0)
    && (s != [] ==> exists r :: FirstMaxAt(lcp, r) && 0 < r && |s| == lcp[r]
                                && OccursAt(t, s, sa[r]) && OccursAt(t, s, sa[r - 1]))
  }

  /** Java's `Math.min`. */
  function Min(a: int, b: int): (m: int)
    ensures m <= a && m <= b
    ensures m == a || m == b
  {
    if a <= b then a else b
  }

  class SuffixArray {
    const text: Text
    const n: nat
    var suffixArray: array<int>
    var rank: array<int>
    var lcp: array?<int>
    /** Whether `buildSuffixArray` has run; until then `suffixArray` is all zeros. */
    ghost var saBuilt: bool

    ghost predicate Valid()
      reads this, suffixArray, rank, lcp
    {
      && n == |text| >= 1 && text[n - 1] == Sentinel
      && suffixArray.Length == n && rank.Length == n
      && suffixArray != rank
      && (lcp != null ==> lcp != suffixArray && lcp != rank && lcp.Length == n)
      && (saBuilt ==> IsSuffixArray(text, suffixArray[..]))
      && (lcp != null ==> saBuilt && lcp[..] == LcpArray(text, suffixArray[..]))
    }

    constructor (input: Text)
      ensures Valid() && !saBuilt && lcp == null
      ensures text == Normalize(input) && n == |text|
      ensures fresh(suffixArray) && fresh(rank)
      ensures forall r :: 0 <= r < n ==> suffixArray[r] == 0
    {
      text := Normalize(input);
      n := |Normalize(input)|;
      suffixArray := new int[|Normalize(input)|](_ => 0);
      rank := new int[|Normalize(input)|](_ => 0);
      lcp := null;
      saBuilt := false;
    }

    /**
     * Prefix doubling: start from the character codes, then repeatedly sort
     * the offsets by the pair (rank, rank `k` further on) and re-rank, until
     * the ranks are all distinct or `k` reaches `n`.
     */
    method BuildSuffixArray()
      requires Valid()
      modifies this, suffixArray, rank
      ensures Valid() && saBuilt
      ensures suffixArray == old(suffixArray) && rank == old(rank) && lcp == old(lcp)
      ensures IsSuffixArray(text, suffixArray[..])
      ensures n > 1 ==> forall r :: 0 <= r < n ==> rank[suffixArray[r]] == r
    {
      DoublingSort(text, suffixArray, rank);
      if lcp != null {
        SuffixArrayUnique(text, old(suffixArray[..]), suffixArray[..]);
      }
      saBuilt := true;
    }

    /**
     * Kasai's algorithm: visit the offsets in text order, carrying the
     * common-prefix length `k` from one offset to the next, less one.
     */
    method BuildLcp()
      requires Valid() && saBuilt
      modifies this
      ensures Valid() && saBuilt
      ensures suffixArray == old(suffixArray) && rank == old(rank)
      ensures lcp != null && fresh(lcp)
      ensures lcp[..] == LcpArray(text, suffixArray[..])
    {
      lcp := KasaiTable(text, suffixArray);
    }

    /**
     * Binary search for the first suffix, in sorted order, whose first
     * `|pattern|` symbols are not below `pattern`, then a check that they
     * are `pattern`.
     */
    method Search(pattern: Text) returns (pos: int)
      requires Valid() && saBuilt
      ensures pos == -1 <==> !IsSubstring(pattern, text)
      ensures pos != -1 ==> OccursAt(text, pattern, pos)
      ensures pos != -1 ==> forall x :: OccursAt(text, pattern, x) ==> LessEq(text[pos..], text[x..])
    {
      pos := FindFirst(text, suffixArray, pattern);
    }

    /**
     * The number of distinct non-empty substrings of the text (the sentinel
     * included), building the LCP array first when it is missing.
     */
    method CountDistinctSubstrings() returns (count: int)
      requires Valid() && saBuilt
      modifies this
      ensures Valid() && saBuilt && lcp != null
      ensures suffixArray == old(suffixArray) && rank == old(rank)
      ensures old(lcp) != null ==> lcp == old(lcp)
      ensures count == |Substrings(text)|
      ensures 0 <= count <= n * (n + 1) / 2
    {
      if lcp == null {
        BuildLcp();
      }
      count := DistinctCount(text, suffixArray, lcp);
    }

    /**
     * The longest substring occurring at least twice in the text, building
     * the LCP array first when it is missing.
     */
    method LongestRepeatedSubstring() returns (s: Text)
      requires Valid() && saBuilt
      modifies this
      ensures Valid() && saBuilt && lcp != null
      ensures suffixArray == old(suffixArray) && rank == old(rank)
      ensures old(lcp) != null ==> lcp == old(lcp)
      ensures LongestRepeatOf(text, suffixArray[..], lcp[..], s)
    {
      if lcp == null {
        BuildLcp();
      }
      s := LongestRepeat(text, suffixArray, lcp);
    }

    function GetText(): (t: Text)
      reads this, suffixArray, rank, lcp
      requires Valid()
      ensures |t| >= 1 && t[|t| - 1] == Sentinel
    {
      text
    }

    function GetLength(): (len: nat)
      reads this, suffixArray, rank, lcp
      requires Valid()
      ensures len == |GetText()|
    {
      n
    }

    /** The suffix array itself, not a copy. */
    function GetSuffixArray(): (a: array<int>)
      reads this, suffixArray, rank, lcp
      requires Valid()
      ensures a.Length == GetLength()
      ensures saBuilt ==> IsSuffixArray(GetText(), a[..])
    {
      suffixArray
    }

    /** The LCP array itself, `null` before it is built. */
    function GetLcp(): (a: array?<int>)
      reads this, suffixArray, rank, lcp
      requires Valid()
      ensures a != null ==> a.Length == GetLength()
      ensures a != null ==> saBuilt && IsSuffixArray(text, suffixArray[..]) && a[..] == LcpArray(text, suffixArray[..])
    {
      lcp
    }
  }

  /**
   * Kasai's algorithm: visit the offsets in text order, carrying the
   * common-prefix length `k` from one offset to the next, less one.
   */
  method KasaiTable(t: Text, sa: array<int>) returns (lcp: array<int>)
    requires |t| >= 1 && IsSuffixArray(t, sa[..])
    ensures fresh(lcp)
    ensures lcp[..] == LcpArray(t, sa[..])
  {
    var n := sa.Length;
    ghost var order := sa[..];
    lcp := new int[n](_ => 0);
    var invSA := InverseOf(t, sa);
    ghost var inv := invSA[..];
    KasaiPartialEnds(t, order);
    var k: nat := 0;
    for i := 0 to n
      modifies lcp
      invariant sa[..] == order && invSA[..] == inv
      invariant i < n ==> k <= PredLcp(t, order, inv, i)
      invariant lcp[..] == KasaiPartial(t, order, i)
    {
      k := KasaiVisit(t, sa, invSA, lcp, i, k, order, inv);
    }
  }

  /**
   * One round of Kasai's loop: the offset `i` first in suffix order resets
   * `k`; otherwise the common prefix with its predecessor is extended from
   * `k`, stored at the position of `i`, and passed on less one.
   */
  method KasaiVisit(t: Text, sa: array<int>, invSA: array<int>, lcp: array<int>, i: int, k: nat,
                    ghost order: seq<int>, ghost inv: seq<int>)
    returns (next: nat)
    requires sa[..] == order && invSA[..] == inv
    requires IsSuffixArray(t, order) && IsInverse(order, inv)
    requires lcp != sa && lcp != invSA && lcp.Length == sa.Length
    requires 0 <= i < |t|
    requires k <= PredLcp(t, order, inv, i)
    requires lcp[..] == KasaiPartial(t, order, i)
    modifies lcp
    ensures lcp[..] == KasaiPartial(t, order, i + 1)
    ensures i + 1 < |t| ==> next <= PredLcp(t, order, inv, i + 1)
  {
    KasaiPartialStep(t, order, inv, i);
    var r := invSA[i];
    if r == 0 {
      return 0;
    }
    var j := sa[r - 1];
    var h := MatchLength(t, i, j, k);
    LcpSymmetric(t[i..], t[j..]);
    lcp[r] := h;
    if i + 1 < |t| {
      KasaiStep(t, order, inv, i);
    }
    next := if h > 0 then h - 1 else 0;
  }

  /**
   * The LCP table part-way through Kasai's loop: the entries of the offsets
   * below `i` filled in, the others still 0.
   */
  ghost function KasaiPartial(t: Text, sa: seq<int>, i: int): seq<int>
    requires forall r :: 0 <= r < |sa| ==> 0 <= sa[r] <= |t|
  {
    seq(|sa|, r requires 0 <= r < |sa| => if sa[r] < i then LcpArray(t, sa)[r] else 0)
  }

  /** Before the loop the table is all zeros; after it, the LCP array. */
  lemma KasaiPartialEnds(t: Text, sa: seq<int>)
    requires IsSuffixArray(t, sa)
    ensures KasaiPartial(t, sa, 0) == seq(|sa|, _ => 0)
    ensures KasaiPartial(t, sa, |t|) == LcpArray(t, sa)
  {
  }

  /**
   * Visiting offset `i` fills exactly the entry at its position in the
   * suffix array; when that is position 0 the entry is 0 already.
   */
  lemma KasaiPartialStep(t: Text, sa: seq<int>, inv: seq<int>, i: int)
    requires IsSuffixArray(t, sa) && IsInverse(sa, inv)
    requires 0 <= i < |t|
    ensures 0 <= inv[i] < |sa| && sa[inv[i]] == i
    ensures KasaiPartial(t, sa, i + 1) == KasaiPartial(t, sa, i)[inv[i] := LcpArray(t, sa)[inv[i]]]
    ensures inv[i] == 0 ==> KasaiPartial(t, sa, i + 1) == KasaiPartial(t, sa, i)
    ensures inv[i] > 0 ==> LcpArray(t, sa)[inv[i]] == Lcp(t[sa[inv[i] - 1]..], t[i..])
  {
    InverseFacts(t, sa, inv);
    var table := LcpArray(t, sa);
    var before, after := KasaiPartial(t, sa, i), KasaiPartial(t, sa, i + 1);
    forall r | 0 <= r < |sa|
      ensures after[r] == before[inv[i] := table[inv[i]]][r]
    {
      if sa[r] == i {
        assert r == inv[i];
      }
    }
    assert after == before[inv[i] := table[inv[i]]];
  }

  /** The inverse of the suffix array: the position of every offset in it. */
  method InverseOf(t: Text, sa: array<int>) returns (inv: array<int>)
    requires IsSuffixArray(t, sa[..])
    ensures fresh(inv)
    ensures IsInverse(sa[..], inv[..])
  {
    PermutationFacts(sa[..], |t|);
    inv := new int[sa.Length];
    for r := 0 to sa.Length
      invariant forall q :: 0 <= q < r ==> inv[sa[q]] == q
    {
      inv[sa[r]] := r;
    }
  }

  /**
   * Extends a common prefix of the suffixes at `i` and `j`, already known to
   * be at least `k` long, symbol by symbol until it cannot be extended.
   */
  method MatchLength(t: Text, i: int, j: int, k: nat) returns (h: nat)
    requires 0 <= i < |t| && 0 <= j < |t|
    requires k <= Lcp(t[i..], t[j..])
    ensures h == Lcp(t[i..], t[j..])
  {
    h := k;
    while i + h < |t| && j + h < |t| && t[i + h] == t[j + h]
      invariant h <= Lcp(t[i..], t[j..])
    {
      MatchStep(t, i, j, h);
      h := h + 1;
    }
    LcpExact(t[i..], t[j..], h);
  }

  /** One more equal symbol after a common prefix of the suffixes at `i` and `j` lengthens it. */
  lemma MatchStep(t: Text, i: int, j: int, h: nat)
    requires 0 <= i < |t| && 0 <= j < |t| && h <= Lcp(t[i..], t[j..])
    requires i + h < |t| && j + h < |t| && t[i + h] == t[j + h]
    ensures h + 1 <= Lcp(t[i..], t[j..])
  {
    assert t[i..][h] == t[j..][h];
  }

  /**
   * Binary search over the sorted suffixes of `t` for the first one whose
   * first `|pattern|` symbols are not below `pattern`, then a check that
   * they are `pattern`.
   */
  method FindFirst(t: Text, sa: array<int>, pattern: Text) returns (pos: int)
    requires |t| >= 1 && IsSuffixArray(t, sa[..])
    ensures pos == -1 <==> !IsSubstring(pattern, t)
    ensures pos != -1 ==> OccursAt(t, pattern, pos)
    ensures pos != -1 ==> forall x :: OccursAt(t, pattern, x) ==> LessEq(t[pos..], t[x..])
  {
    var m := |pattern|;
    ghost var order := sa[..];
    ghost var below := seq(|order|, r requires 0 <= r < |order| => Less(Prefix(t[order[r]..], m), pattern));
    assert ProbeTable(t, order, pattern, below);
    var left := LowerBound(t, sa, pattern, order, below);
    SearchOutcome(t, order, pattern, below, left);
    var start := sa[left];
    if start + m <= |t| {
      var suffix := t[start..start + m];
      if suffix == pattern {
        return start;
      }
    }
    return -1;
  }

  /**
   * `below[r]` says whether the suffix ranked `r`, cut to `|pattern|`
   * symbols, sorts strictly below `pattern`.
   */
  ghost predicate ProbeTable(t: Text, order: seq<int>, pattern: Text, below: seq<bool>) {
    && |below| == |order|
    && forall r {:trigger order[r]} :: 0 <= r < |order| ==>
         0 <= order[r] < |t| && below[r] == Less(Prefix(t[order[r]..], |pattern|), pattern)
  }

  /**
   * The binary search proper: `left` ends at the first position whose
   * suffix, cut to `|pattern|` symbols, is not below `pattern`, or at the
   * last position.
   */
  method LowerBound(t: Text, sa: array<int>, pattern: Text, ghost order: seq<int>, ghost below: seq<bool>)
    returns (left: int)
    requires sa.Length >= 1 && sa[..] == order && ProbeTable(t, order, pattern, below)
    ensures 0 <= left < sa.Length
    ensures left == 0 || below[left - 1]
    ensures left == sa.Length - 1 || !below[left]
  {
    var right;
    left, right := 0, sa.Length - 1;
    while left < right
      invariant 0 <= left <= right <= sa.Length - 1
      invariant left == 0 || below[left - 1]
      invariant right == sa.Length - 1 || !below[right]
    {
      var mid := (left + right) / 2;
      var isBelow := Probe(t, sa, mid, pattern, order, below);
      if isBelow {
        left := mid + 1;
      } else {
        right := mid;
      }
    }
  }

  /** Whether the suffix ranked `mid`, cut to `|pattern|` symbols, sorts strictly below `pattern`. */
  method Probe(t: Text, sa: array<int>, mid: int, pattern: Text, ghost order: seq<int>, ghost below: seq<bool>)
    returns (isBelow: bool)
    requires 0 <= mid < sa.Length && sa[..] == order && ProbeTable(t, order, pattern, below)
    ensures isBelow == below[mid]
  {
    var start := sa[mid];
    assert start == order[mid];
    var suffix := t[start..Min(start + |pattern|, |t|)];
    assert suffix == Prefix(t[start..], |pattern|);
    LessIsCompareTo(suffix, pattern);
    isBelow := CompareTo(suffix, pattern) < 0;
  }

  /**
   * `n(n+1)/2` less the sum of the LCP array: the number of distinct
   * non-empty substrings of `t`.
   */
  method DistinctCount(t: Text, sa: array<int>, lcp: array<int>) returns (count: int)
    requires IsSuffixArray(t, sa[..]) && lcp[..] == LcpArray(t, sa[..])
    ensures count == |Substrings(t)|
    ensures 0 <= count <= |t| * (|t| + 1) / 2
  {
    var n := lcp.Length;
    var total := n * (n + 1) / 2;
    var duplicates := SumOf(lcp);
    CountFormula(t, sa[..], lcp[..]);
    count := total - duplicates;
  }

  /** Adds up the entries of `a` from left to right. */
  method SumOf(a: array<int>) returns (total: int)
    ensures total == Sum(a[..])
  {
    total := 0;
    for i := 0 to a.Length
      invariant total == Sum(a[..i])
    {
      SumStep(a[..], i);
      assert a[..][..i] == a[..i] && a[..][..i + 1] == a[..i + 1];
      total := total + a[i];
    }
    assert a[..a.Length] == a[..];
  }

  /** The distinct-substring count in terms of the LCP table beside a suffix array. */
  lemma CountFormula(t: Text, sa: seq<int>, lcp: seq<int>)
    requires IsSuffixArray(t, sa) && lcp == LcpArray(t, sa)
    ensures |Substrings(t)| == |lcp| * (|lcp| + 1) / 2 - Sum(lcp)
    ensures 0 <= |lcp| * (|lcp| + 1) / 2 - Sum(lcp) <= |t| * (|t| + 1) / 2
  {
    DistinctSubstringCount(t, sa);
    DistinctSubstringBound(t, sa);
  }

  /**
   * The longest repeated substring: the common prefix at the first position
   * holding the largest LCP entry, or the empty text when every entry is 0.
   */
  method LongestRepeat(t: Text, sa: array<int>, lcp: array<int>) returns (s: Text)
    requires |t| >= 1 && IsSuffixArray(t, sa[..]) && lcp[..] == LcpArray(t, sa[..])
    ensures LongestRepeatOf(t, sa[..], lcp[..], s)
  {
    var r := FirstMax(lcp);
    var start, maxLen := sa[r], lcp[r];
    LongestRepeatChosen(t, sa[..], lcp[..], r, start, maxLen);
    if maxLen == 0 {
      return [];
    }
    s := t[start..start + maxLen];
  }

  /** The first position holding the largest entry, found by a left-to-right scan with a strict comparison. */
  method FirstMax(a: array<int>) returns (maxIndex: int)
    requires a.Length >= 1 && a[0] == 0
    ensures FirstMaxAt(a[..], maxIndex)
  {
    var maxLen := 0;
    maxIndex := 0;
    for i := 0 to a.Length
      invariant 0 <= maxIndex < a.Length && maxIndex <= i
      invariant maxLen == a[maxIndex]
      invariant forall q :: 0 <= q < maxIndex ==> a[q] < maxLen
      invariant forall q :: 0 <= q < i ==> a[q] <= maxLen
    {
      if a[i] > maxLen {
        maxLen := a[i];
        maxIndex := i;
      }
    }
  }

  /**
   * The string the scan picks at the first largest entry `r`, the
   * `len = lcp[r]` symbols from offset `start = sa[r]`, is a longest repeat.
   */
  lemma LongestRepeatChosen(t: Text, sa: seq<int>, lcp: seq<int>, r: int, start: int, len: int)
    requires IsSuffixArray(t, sa) && lcp == LcpArray(t, sa) && FirstMaxAt(lcp, r)
    requires start == sa[r] && len == lcp[r]
    ensures len == 0 ==> LongestRepeatOf(t, sa, lcp, [])
    ensures len != 0 ==> 0 <= start && start + len <= |t| && LongestRepeatOf(t, sa, lcp, t[start..start + len])
  {
    if len == 0 {
      NoRepeat(t, sa, lcp, r);
    } else {
      RepeatFound(t, sa, lcp, r, start, len);
    }
  }

  /**
   * A positive largest LCP entry `len` at `r` makes its common prefix, the
   * `len` symbols from offset `start`, the answer.
   */
  lemma RepeatFound(t: Text, sa: seq<int>, lcp: seq<int>, r: int, start: int, len: int)
    requires IsSuffixArray(t, sa) && lcp == LcpArray(t, sa) && FirstMaxAt(lcp, r)
    requires start == sa[r] && len == lcp[r] > 0
    ensures 0 <= start && start + len <= |t|
    ensures LongestRepeatOf(t, sa, lcp, t[start..start + len])
  {
    LongestRepeatBound(t, sa, lcp, len);
    assert 0 < r;
    AdjacentRepeat(t, sa, r, start, len);
    assert sa[r - 1] != start by {
      assert SortedAt(t, sa, r);
      Trichotomy(t[sa[r - 1]..], t[sa[r]..]);
    }
    var s := t[start..start + len];
    assert OccursAt(t, s, start) && OccursAt(t, s, sa[r - 1]);
    assert |s| == lcp[r] && IsRepeated(t, s);
    assert !(forall q :: 0 <= q < |lcp| ==> lcp[q] == 0) by {
      assert lcp[r] != 0;
    }
    assert FirstMaxAt(lcp, r) && 0 < r && OccursAt(t, s, sa[r]);
  }

  /** A largest LCP entry of 0 makes the whole LCP array 0 and the empty string the answer. */
  lemma NoRepeat(t: Text, sa: seq<int>, lcp: seq<int>, r: int)
    requires IsSuffixArray(t, sa) && lcp == LcpArray(t, sa) && FirstMaxAt(lcp, r) && lcp[r] == 0
    ensures LongestRepeatOf(t, sa, lcp, [])
  {
    LongestRepeatBound(t, sa, lcp, 0);
    forall q | 0 <= q < |lcp|
      ensures lcp[q] == 0
    {
      assert lcp[q] <= lcp[r];
    }
  }

  /**
   * The common prefix of the suffixes ranked `r - 1` and `r`, the `len`
   * symbols from offset `start`, occurs at both their offsets.
   */
  lemma AdjacentRepeat(t: Text, sa: seq<int>, r: int, start: int, len: int)
    requires forall q :: 0 <= q < |sa| ==> 0 <= sa[q] < |t|
    requires 0 < r < |sa| && start == sa[r] && len == LcpArray(t, sa)[r]
    ensures start + len <= |t|
    ensures OccursAt(t, t[start..start + len], start)
    ensures OccursAt(t, t[start..start + len], sa[r - 1])
  {
    LcpArrayShareAt(t, sa, r);
  }

  /** No string repeated in `t` is longer than the largest LCP entry. */
  lemma LongestRepeatBound(t: Text, sa: seq<int>, lcp: seq<int>, m: int)
    requires IsSuffixArray(t, sa) && lcp == LcpArray(t, sa)
    requires forall r :: 0 <= r < |lcp| ==> lcp[r] <= m
    ensures forall x :: IsRepeated(t, x) ==> |x| <= m
  {
    forall x | IsRepeated(t, x)
      ensures |x| <= m
    {
      var i, j :| i != j && OccursAt(t, x, i) && OccursAt(t, x, j);
      assert t[i..][..|x|] == x == t[j..][..|x|];
      LcpAtLeast(t[i..], t[j..], |x|);
      RepeatBound(t, sa, i, j);
    }
  }

  /**
   * Where the binary search stops: position `left` has every earlier
   * truncated suffix below `pattern` and its own not below (or is the last).
   * Then `pattern` occurs iff the truncated suffix at `left` equals it, and
   * that occurrence has the least suffix among all occurrences.
   */
  lemma SearchOutcome(t: Text, sa: seq<int>, pattern: Text, below: seq<bool>, left: int)
    requires IsSuffixArray(t, sa) && ProbeTable(t, sa, pattern, below)
    requires 0 <= left < |sa|
    requires left == 0 || below[left - 1]
    requires left == |sa| - 1 || !below[left]
    ensures IsSubstring(pattern, t) <==> OccursAt(t, pattern, sa[left])
    ensures forall x :: OccursAt(t, pattern, x) ==> LessEq(t[sa[left]..], t[x..])
  {
    var m := |pattern|;
    assert left == 0 || Less(Prefix(t[sa[left - 1]..], m), pattern);
    assert left == |sa| - 1 || !Less(Prefix(t[sa[left]..], m), pattern);
    forall x | OccursAt(t, pattern, x)
      ensures Prefix(t[sa[left]..], m) == pattern
      ensures LessEq(t[sa[left]..], t[x..])
    {
      FirstMatch(t, sa, pattern, left, x);
    }
    if Prefix(t[sa[left]..], m) == pattern {
      assert OccursAt(t, pattern, sa[left]);
    }
  }

  /**
   * An occurrence at `x` forces the suffix ranked `left` to start with
   * `pattern` too, and that suffix sorts no later than the one at `x`.
   */
  lemma FirstMatch(t: Text, sa: seq<int>, pattern: Text, left: int, x: int)
    requires IsSuffixArray(t, sa)
    requires 0 <= left < |sa|
    requires left == 0 || Less(Prefix(t[sa[left - 1]..], |pattern|), pattern)
    requires left == |sa| - 1 || !Less(Prefix(t[sa[left]..], |pattern|), pattern)
    requires OccursAt(t, pattern, x)
    ensures Prefix(t[sa[left]..], |pattern|) == pattern
    ensures LessEq(t[sa[left]..], t[x..])
  {
    var m := |pattern|;
    var q := PositionOf(sa, |t|, x);
    assert Prefix(t[x..], m) == pattern;
    if q < left {
      TruncatedSorted(t, sa, m, q, left - 1);
      Trichotomy(pattern, Prefix(t[sa[left - 1]..], m));
      assert false;
    }
    TruncatedSorted(t, sa, m, left, q);
    if left < q {
      SortedPairwise(t, sa, left, q);
    }
  }

  /** Truncating the sorted suffixes to `m` symbols keeps them in (weak) order. */
  lemma TruncatedSorted(t: Text, sa: seq<int>, m: nat, p: int, q: int)
    requires IsSuffixArray(t, sa)
    requires 0 <= p <= q < |sa|
    ensures LessEq(Prefix(t[sa[p]..], m), Prefix(t[sa[q]..], m))
  {
    if p < q {
      SortedPairwise(t, sa, p, q);
      PrefixMonotone(t[sa[p]..], t[sa[q]..], m);
    }
  }
}
