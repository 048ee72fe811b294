/**
 * Counting the distinct non-empty substrings of a text from its suffix
 * array and LCP array. Every non-empty substring is a prefix of some
 * suffix; charging it to the first suffix in sorted order that starts with
 * it, the suffix ranked `r` is charged exactly its prefixes longer than
 * the LCP entry at `r`. So the count is the sum over all suffixes of
 * (suffix length - LCP entry), which is `n(n+1)/2 - (sum of the LCP array)`.
 */
module DistinctSubstrings {
  import opened Lexicographic
  import opened Permutations
  import opened SuffixOrder

  /** The distinct non-empty substrings of `t`. */
  ghost function Substrings(t: Text): set<Text> {
    set i, j | 0 <= i < j <= |t| :: t[i..j]
  }

  /** The prefixes of `s` whose length lies in `lo + 1 .. hi`. */
  ghost function PrefixSet(s: Text, lo: int, hi: int): set<Text>
    requires hi <= |s|
    decreases hi - lo
  {
    if hi <= lo || hi <= 0 then {} else PrefixSet(s, lo, hi - 1) + {s[..hi]}
  }

  lemma {:induction false} PrefixSetMember(s: Text, lo: nat, hi: int, x: Text)
    requires hi <= |s|
    ensures x in PrefixSet(s, lo, hi) <==> lo < |x| <= hi && x == s[..|x|]
    decreases hi - lo
  {
    if lo < hi && x != s[..hi] {
      PrefixSetMember(s, lo, hi - 1, x);
    }
  }

  lemma {:induction false} PrefixSetSize(s: Text, lo: nat, hi: int)
    requires hi <= |s|
    ensures |PrefixSet(s, lo, hi)| == if hi <= lo then 0 else hi - lo
    decreases hi - lo
  {
    if lo < hi {
      PrefixSetSize(s, lo, hi - 1);
      PrefixSetMember(s, lo, hi - 1, s[..hi]);
    }
  }

  /**
   * What the charging argument needs of a suffix array `sa` and a table
   * `lcp` beside it: every entry of `sa` is an offset, every `lcp` entry
   * fits in its suffix, and the first entry is 0.
   */
  ghost predicate ChargeTable(t: Text, sa: seq<int>, lcp: seq<int>) {
    && |sa| == |t| && |lcp| == |sa|
    && (forall r :: 0 <= r < |sa| ==> 0 <= sa[r] < |t|)
    && (forall r :: 0 <= r < |lcp| ==> 0 <= lcp[r] <= |t| - sa[r])
    && (|lcp| > 0 ==> lcp[0] == 0)
  }

  /** The suffixes ranked `r - 1` and `r` agree on their first `lcp[r]` symbols. */
  ghost predicate SharesPrefix(t: Text, sa: seq<int>, lcp: seq<int>, r: int)
    requires ChargeTable(t, sa, lcp) && 0 < r < |sa|
  {
    lcp[r] <= |t| - sa[r - 1] && t[sa[r]..sa[r] + lcp[r]] == t[sa[r - 1]..sa[r - 1] + lcp[r]]
  }

  /** No suffix agrees with an earlier-ranked one on more symbols than its `lcp` entry. */
  ghost predicate Dominates(t: Text, sa: seq<int>, lcp: seq<int>, p: int, q: int)
    requires ChargeTable(t, sa, lcp) && 0 <= p < q < |sa|
  {
    Lcp(t[sa[p]..], t[sa[q]..]) <= lcp[q]
  }

  /** The prefixes charged to the suffix ranked `r`: those longer than its LCP entry. */
  ghost function Block(t: Text, sa: seq<int>, lcp: seq<int>, r: int): set<Text>
    requires ChargeTable(t, sa, lcp)
    requires 0 <= r < |sa|
  {
    PrefixSet(t[sa[r]..], lcp[r], |t| - sa[r])
  }

  /** The prefixes charged to the suffixes ranked below `k`. */
  ghost function Covered(t: Text, sa: seq<int>, lcp: seq<int>, k: nat): set<Text>
    requires ChargeTable(t, sa, lcp)
    requires k <= |sa|
  {
    if k == 0 then {} else Covered(t, sa, lcp, k - 1) + Block(t, sa, lcp, k - 1)
  }

  /** Every charged string is a non-empty prefix of a suffix ranked below `k`. */
  lemma {:induction false} CoveredWitness(t: Text, sa: seq<int>, lcp: seq<int>, k: nat, x: Text)
    returns (r: int)
    requires ChargeTable(t, sa, lcp)
    requires k <= |sa|
    requires x in Covered(t, sa, lcp, k)
    ensures 0 <= r < k && 1 <= |x| <= |t| - sa[r]
    ensures x == t[sa[r]..sa[r] + |x|]
  {
    if k == 0 {
      assert false;
    }
    if x in Covered(t, sa, lcp, k - 1) {
      r := CoveredWitness(t, sa, lcp, k - 1, x);
    } else {
      r := k - 1;
      PrefixSetMember(t[sa[r]..], lcp[r], |t| - sa[r], x);
      assert x == t[sa[r]..][..|x|];
    }
  }

  /** Every non-empty prefix of a suffix ranked below `k` is charged to some suffix ranked below `k`. */
  lemma {:induction false} CoveredComplete(t: Text, sa: seq<int>, lcp: seq<int>, k: nat, r: int, len: int)
    requires ChargeTable(t, sa, lcp)
    requires forall q :: 0 < q < |sa| ==> SharesPrefix(t, sa, lcp, q)
    requires 0 <= r < k <= |sa|
    requires 1 <= len <= |t| - sa[r]
    ensures t[sa[r]..sa[r] + len] in Covered(t, sa, lcp, k)
    decreases k
  {
    var x := t[sa[r]..sa[r] + len];
    if r < k - 1 {
      CoveredComplete(t, sa, lcp, k - 1, r, len);
    } else if len <= lcp[r] {
      assert SharesPrefix(t, sa, lcp, r);
      assert x == t[sa[r]..sa[r] + lcp[r]][..len] == t[sa[r - 1]..sa[r - 1] + lcp[r]][..len];
      CoveredComplete(t, sa, lcp, k - 1, r - 1, len);
      assert x == t[sa[r - 1]..sa[r - 1] + len];
    } else {
      assert x == t[sa[r]..][..len];
      PrefixSetMember(t[sa[r]..], lcp[r], |t| - sa[r], x);
    }
  }

  /** A string charged below rank `r` is not charged again at `r`. */
  lemma BlockFresh(t: Text, sa: seq<int>, lcp: seq<int>, r: int, x: Text)
    requires ChargeTable(t, sa, lcp)
    requires forall p, q :: 0 <= p < q < |sa| ==> Dominates(t, sa, lcp, p, q)
    requires 0 <= r < |sa|
    requires x in Covered(t, sa, lcp, r)
    ensures x !in Block(t, sa, lcp, r)
  {
    var p := CoveredWitness(t, sa, lcp, r, x);
    PrefixSetMember(t[sa[r]..], lcp[r], |t| - sa[r], x);
    assert Dominates(t, sa, lcp, p, r);
    assert x == t[sa[p]..][..|x|];
    if lcp[r] < |x| <= |t| - sa[r] {
      PrefixesDiffer(t[sa[p]..], t[sa[r]..], |x|);
    }
  }

  /** The blocks are pairwise disjoint, so the sizes add up. */
  lemma {:induction false} CoveredCount(t: Text, sa: seq<int>, lcp: seq<int>, k: nat)
    requires ChargeTable(t, sa, lcp)
    requires forall p, q :: 0 <= p < q < |sa| ==> Dominates(t, sa, lcp, p, q)
    requires k <= |sa|
    ensures |Covered(t, sa, lcp, k)| == k * |t| - Sum(sa[..k]) - Sum(lcp[..k])
  {
    if k > 0 {
      CoveredCount(t, sa, lcp, k - 1);
      CoveredStep(t, sa, lcp, k - 1);
      SumStep(sa, k - 1);
      SumStep(lcp, k - 1);
      MulStep(k, |t|);
    }
  }

  lemma MulStep(k: int, n: int)
    ensures k * n == (k - 1) * n + n
  {
  }

  /** Adding the block of rank `r` adds exactly its size. */
  lemma CoveredStep(t: Text, sa: seq<int>, lcp: seq<int>, r: int)
    requires ChargeTable(t, sa, lcp)
    requires forall p, q :: 0 <= p < q < |sa| ==> Dominates(t, sa, lcp, p, q)
    requires 0 <= r < |sa|
    ensures |Covered(t, sa, lcp, r + 1)| == |Covered(t, sa, lcp, r)| + |t| - sa[r] - lcp[r]
  {
    var before, block := Covered(t, sa, lcp, r), Block(t, sa, lcp, r);
    assert Covered(t, sa, lcp, r + 1) == before + block;
    PrefixSetSize(t[sa[r]..], lcp[r], |t| - sa[r]);
    forall x | x in before
      ensures x !in block
    {
      BlockFresh(t, sa, lcp, r, x);
    }
    assert before * block == {};
  }

  /** The LCP array of a suffix array meets every hypothesis of the charging argument. */
  lemma SuffixArrayCharges(t: Text, sa: seq<int>)
    requires IsSuffixArray(t, sa)
    ensures ChargeTable(t, sa, LcpArray(t, sa))
    ensures forall q :: 0 < q < |sa| ==> SharesPrefix(t, sa, LcpArray(t, sa), q)
    ensures forall p, q :: 0 <= p < q < |sa| ==> Dominates(t, sa, LcpArray(t, sa), p, q)
  {
    LcpArrayTable(t, sa);
    LcpArrayShares(t, sa);
    LcpArrayDominatesAll(t, sa);
  }

  lemma LcpArrayTable(t: Text, sa: seq<int>)
    requires IsSuffixArray(t, sa)
    ensures ChargeTable(t, sa, LcpArray(t, sa))
  {
    var lcp := LcpArray(t, sa);
    forall r | 0 < r < |lcp|
      ensures 0 <= lcp[r] <= |t| - sa[r]
    {
      LcpArrayBounds(t, sa, r);
    }
  }

  lemma LcpArrayShares(t: Text, sa: seq<int>)
    requires forall r :: 0 <= r < |sa| ==> 0 <= sa[r] < |t|
    requires ChargeTable(t, sa, LcpArray(t, sa))
    ensures forall q :: 0 < q < |sa| ==> SharesPrefix(t, sa, LcpArray(t, sa), q)
  {
    forall q | 0 < q < |sa|
      ensures SharesPrefix(t, sa, LcpArray(t, sa), q)
    {
      LcpArrayShareAt(t, sa, q);
    }
  }

  lemma LcpArrayShareAt(t: Text, sa: seq<int>, q: int)
    requires forall r :: 0 <= r < |sa| ==> 0 <= sa[r] < |t|
    requires 0 < q < |sa|
    ensures LcpArray(t, sa)[q] <= |t| - sa[q - 1]
    ensures t[sa[q]..sa[q] + LcpArray(t, sa)[q]] == t[sa[q - 1]..sa[q - 1] + LcpArray(t, sa)[q]]
  {
    var a, b := t[sa[q - 1]..], t[sa[q]..];
    var h := Lcp(a, b);
    assert LcpArray(t, sa)[q] == h;
    assert b[..h] == t[sa[q]..sa[q] + h];
    assert a[..h] == t[sa[q - 1]..sa[q - 1] + h];
  }

  lemma LcpArrayDominatesAll(t: Text, sa: seq<int>)
    requires IsSuffixArray(t, sa)
    ensures ChargeTable(t, sa, LcpArray(t, sa))
    ensures forall p, q :: 0 <= p < q < |sa| ==> Dominates(t, sa, LcpArray(t, sa), p, q)
  {
    LcpArrayTable(t, sa);
    forall p, q | 0 <= p < q < |sa|
      ensures Dominates(t, sa, LcpArray(t, sa), p, q)
    {
      LcpArrayDominates(t, sa, p, q);
    }
  }

  /** Charging is complete: the strings charged to all suffixes are exactly the distinct non-empty substrings. */
  lemma CoveredIsSubstrings(t: Text, sa: seq<int>, lcp: seq<int>)
    requires ChargeTable(t, sa, lcp) && IsPermutation(sa, |t|)
    requires forall q :: 0 < q < |sa| ==> SharesPrefix(t, sa, lcp, q)
    ensures Covered(t, sa, lcp, |sa|) == Substrings(t)
  {
    forall x | x in Covered(t, sa, lcp, |sa|)
      ensures x in Substrings(t)
    {
      var r := CoveredWitness(t, sa, lcp, |sa|, x);
    }
    forall x | x in Substrings(t)
      ensures x in Covered(t, sa, lcp, |sa|)
    {
      var i, j :| 0 <= i < j <= |t| && x == t[i..j];
      var r := PositionOf(sa, |t|, i);
      CoveredComplete(t, sa, lcp, |sa|, r, j - i);
    }
  }

  /**
   * The number of distinct non-empty substrings is `n(n+1)/2` minus the
   * sum of the LCP array.
   */
  lemma DistinctSubstringCount(t: Text, sa: seq<int>)
    requires IsSuffixArray(t, sa)
    ensures |Substrings(t)| == |t| * (|t| + 1) / 2 - Sum(LcpArray(t, sa))
  {
    var lcp := LcpArray(t, sa);
    SuffixArrayCharges(t, sa);
    CoveredIsSubstrings(t, sa, lcp);
    ChargedTotal(t, sa, lcp);
  }

  /** Summing the block sizes over all ranks. */
  lemma ChargedTotal(t: Text, sa: seq<int>, lcp: seq<int>)
    requires ChargeTable(t, sa, lcp) && IsPermutation(sa, |t|)
    requires forall p, q :: 0 <= p < q < |sa| ==> Dominates(t, sa, lcp, p, q)
    ensures |Covered(t, sa, lcp, |sa|)| == |t| * (|t| + 1) / 2 - Sum(lcp)
  {
    var n := |t|;
    CoveredCount(t, sa, lcp, n);
    assert sa[..n] == sa && lcp[..n] == lcp;
    SumPermuted(sa, Iota(n));
    SumIota(n);
    TriangleFromIota(n, Sum(sa));
  }

  lemma TriangleFromIota(n: int, s: int)
    requires 2 * s == n * (n - 1)
    ensures n * n - s == n * (n + 1) / 2
  {
    assert n * (n - 1) == n * n - n;
    assert n * (n + 1) == n * n + n;
  }

  /** Each LCP entry is non-negative, so the count never exceeds `n(n+1)/2`. */
  lemma DistinctSubstringBound(t: Text, sa: seq<int>)
    requires IsSuffixArray(t, sa)
    ensures |Substrings(t)| <= |t| * (|t| + 1) / 2
  {
    var lcp := LcpArray(t, sa);
    DistinctSubstringCount(t, sa);
    LcpArrayTable(t, sa);
    SumNonNegative(lcp);
    assert |Substrings(t)| == |t| * (|t| + 1) / 2 - Sum(lcp) && Sum(lcp) >= 0;
  }

  lemma {:induction false} SumNonNegative(s: seq<int>)
    requires forall i :: 0 <= i < |s| ==> s[i] >= 0
    ensures Sum(s) >= 0
  {
    if |s| > 0 {
      SumNonNegative(s[..|s| - 1]);
    }
  }
}
