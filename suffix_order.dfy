/**
 * What a suffix array and an LCP array of a text are, and the facts about
 * sorted suffixes that the algorithms rely on.
 */
module SuffixOrder {
  import opened Lexicographic
  import opened Permutations

  /** `sa` lists every offset of `t` once, in strictly increasing order of the suffixes starting there. */
  ghost predicate IsSuffixArray(t: Text, sa: seq<int>) {
    && |sa| == |t|
    && IsPermutation(sa, |t|)
    && (forall r :: 0 <= r < |sa| ==> 0 <= sa[r] < |t|)
    && (forall r :: 0 < r < |sa| ==> SortedAt(t, sa, r))
  }

  /** The suffix ranked `r` sorts strictly after the one ranked `r - 1`. */
  ghost predicate SortedAt(t: Text, sa: seq<int>, r: int)
    requires 0 < r < |sa|
    requires forall q :: 0 <= q < |sa| ==> 0 <= sa[q] < |t|
  {
    Less(t[sa[r - 1]..], t[sa[r]..])
  }

  /** `inv` maps every offset to its position in `sa`. */
  ghost predicate IsInverse(sa: seq<int>, inv: seq<int>) {
    && |inv| == |sa|
    && (forall r :: 0 <= r < |sa| ==> 0 <= sa[r] < |inv| && inv[sa[r]] == r)
  }

  /**
   * The LCP array: entry 0 is 0, entry `r > 0` is the length of the common
   * prefix of the suffixes ranked `r-1` and `r`.
   */
  ghost function LcpArray(t: Text, sa: seq<int>): seq<int>
    requires forall r :: 0 <= r < |sa| ==> 0 <= sa[r] <= |t|
  {
    seq(|sa|, r requires 0 <= r < |sa| => if r == 0 then 0 else Lcp(t[sa[r - 1]..], t[sa[r]..]))
  }

  /** Common-prefix length of the suffix at offset `i` and its predecessor in `sa` (0 for the first). */
  ghost function PredLcp(t: Text, sa: seq<int>, inv: seq<int>, i: int): nat
    requires IsSuffixArray(t, sa) && IsInverse(sa, inv)
    requires 0 <= i < |t|
  {
    InverseFacts(t, sa, inv);
    if inv[i] == 0 then 0 else Lcp(t[i..], t[sa[inv[i] - 1]..])
  }

  lemma InverseFacts(t: Text, sa: seq<int>, inv: seq<int>)
    requires IsSuffixArray(t, sa) && IsInverse(sa, inv)
    ensures |sa| == |inv| == |t|
    ensures forall i :: 0 <= i < |t| ==> 0 <= inv[i] < |t| && sa[inv[i]] == i
  {
    PermutationFacts(sa, |t|);
    forall i | 0 <= i < |t|
      ensures 0 <= inv[i] < |t| && sa[inv[i]] == i
    {
      assert i in sa;
      var r :| 0 <= r < |sa| && sa[r] == i;
    }
  }

  /** Suffixes further apart in the suffix array are further apart in the order. */
  lemma {:induction false} SortedPairwise(t: Text, sa: seq<int>, p: int, q: int)
    requires IsSuffixArray(t, sa)
    requires 0 <= p < q < |sa|
    ensures Less(t[sa[p]..], t[sa[q]..])
    decreases q - p
  {
    assert SortedAt(t, sa, q);
    if p + 1 < q {
      SortedPairwise(t, sa, p, q - 1);
      assert SortedAt(t, sa, q);
      LessTransitive(t[sa[p]..], t[sa[q - 1]..], t[sa[q]..]);
    }
  }

  /** Positions in the suffix array order the suffixes exactly as `Less` does. */
  lemma RankOrder(t: Text, sa: seq<int>, p: int, q: int)
    requires IsSuffixArray(t, sa)
    requires 0 <= p < |sa| && 0 <= q < |sa|
    ensures Less(t[sa[p]..], t[sa[q]..]) <==> p < q
  {
    if p < q {
      SortedPairwise(t, sa, p, q);
    } else if q < p {
      SortedPairwise(t, sa, q, p);
      Trichotomy(t[sa[q]..], t[sa[p]..]);
    }
  }

  /**
   * A suffix ranked `q` shares no longer a prefix with any suffix ranked
   * before it than with its immediate predecessor.
   */
  lemma LcpWithin(t: Text, sa: seq<int>, p: int, q: int)
    requires IsSuffixArray(t, sa)
    requires 0 <= p < q < |sa|
    ensures Lcp(t[sa[p]..], t[sa[q]..]) <= Lcp(t[sa[q - 1]..], t[sa[q]..])
  {
    if p < q - 1 {
      SortedPairwise(t, sa, p, q - 1);
    }
    assert SortedAt(t, sa, q);
    Sandwich(t[sa[p]..], t[sa[q - 1]..], t[sa[q]..]);
  }

  /**
   * Kasai's lemma: moving from offset `i` to `i + 1` the common prefix with
   * the predecessor in suffix order shrinks by at most one.
   */
  lemma KasaiStep(t: Text, sa: seq<int>, inv: seq<int>, i: int)
    requires IsSuffixArray(t, sa) && IsInverse(sa, inv)
    requires 0 <= i && i + 1 < |t|
    ensures PredLcp(t, sa, inv, i + 1) >= PredLcp(t, sa, inv, i) - 1
  {
    InverseFacts(t, sa, inv);
    var h := PredLcp(t, sa, inv, i);
    if h >= 2 {
      var r := inv[i];
      var j := sa[r - 1];
      assert SortedAt(t, sa, r);
      LcpSymmetric(t[i..], t[j..]);
      KasaiNext(t, sa, inv, i, j);
    }
  }

  /** If the suffix at `j` sorts before the one at `i` sharing `h >= 2` symbols, then the suffix at `i + 1` shares at least `h - 1` with its predecessor. */
  lemma KasaiNext(t: Text, sa: seq<int>, inv: seq<int>, i: int, j: int)
    requires IsSuffixArray(t, sa) && IsInverse(sa, inv)
    requires 0 <= i && i + 1 < |t| && 0 <= j < |t|
    requires Less(t[j..], t[i..]) && Lcp(t[j..], t[i..]) >= 2
    ensures PredLcp(t, sa, inv, i + 1) >= Lcp(t[j..], t[i..]) - 1
  {
    InverseFacts(t, sa, inv);
    ShiftByOne(t, j, i);
    var h := Lcp(t[j + 1..], t[i + 1..]);
    var p, q := inv[j + 1], inv[i + 1];
    assert sa[p] == j + 1 && sa[q] == i + 1;
    assert p < q by {
      RankOrder(t, sa, p, q);
    }
    var k := sa[q - 1];
    assert Lcp(t[k..], t[i + 1..]) >= h by {
      LcpWithin(t, sa, p, q);
    }
    assert PredLcp(t, sa, inv, i + 1) == Lcp(t[i + 1..], t[k..]);
    LcpSymmetric(t[i + 1..], t[k..]);
  }

  /** Dropping an agreed first symbol from two suffixes keeps their order and shortens their common prefix by one. */
  lemma ShiftByOne(t: Text, j: int, i: int)
    requires 0 <= j < |t| && 0 <= i < |t|
    requires Less(t[j..], t[i..]) && Lcp(t[j..], t[i..]) >= 1
    ensures j + 1 <= |t| && i + 1 <= |t|
    ensures Less(t[j + 1..], t[i + 1..])
    ensures Lcp(t[j + 1..], t[i + 1..]) == Lcp(t[j..], t[i..]) - 1
  {
    DropCommon(t[j..], t[i..], 1);
    assert t[j..][1..] == t[j + 1..] && t[i..][1..] == t[i + 1..];
  }

  /** A text has exactly one suffix array. */
  lemma SuffixArrayUnique(t: Text, sa1: seq<int>, sa2: seq<int>)
    requires IsSuffixArray(t, sa1) && IsSuffixArray(t, sa2)
    ensures sa1 == sa2
  {
    PermutationFacts(sa1, |t|);
    PermutationFacts(sa2, |t|);
    UniqueUpTo(t, sa1, sa2, |t|);
    assert sa1 == sa1[..|t|] && sa2 == sa2[..|t|];
  }

  lemma {:induction false} UniqueUpTo(t: Text, sa1: seq<int>, sa2: seq<int>, k: nat)
    requires IsSuffixArray(t, sa1) && IsSuffixArray(t, sa2)
    requires k <= |t|
    ensures |sa1| == |sa2| == |t|
    ensures sa1[..k] == sa2[..k]
  {
    if k > 0 {
      UniqueUpTo(t, sa1, sa2, k - 1);
      var r := k - 1;
      forall q | 0 <= q < r
        ensures sa1[q] == sa2[q]
      {
        assert sa1[q] == sa1[..r][q] && sa2[q] == sa2[..r][q];
      }
      if sa1[r] != sa2[r] {
        LaterRank(t, sa1, sa2, r);
        LaterRank(t, sa2, sa1, r);
        Trichotomy(t[sa1[r]..], t[sa2[r]..]);
        assert false;
      }
      assert sa1[..k] == sa1[..r] + [sa1[r]] && sa2[..k] == sa2[..r] + [sa2[r]];
    }
  }

  /**
   * Two suffix arrays that agree before rank `r` but not at it: the offset
   * the first puts at rank `r` comes later in the second, so its suffix
   * sorts after the one the second puts there.
   */
  lemma LaterRank(t: Text, sa1: seq<int>, sa2: seq<int>, r: int)
    requires IsSuffixArray(t, sa1) && IsSuffixArray(t, sa2)
    requires 0 <= r < |t| && sa1[r] != sa2[r]
    requires forall q :: 0 <= q < r ==> sa1[q] == sa2[q]
    ensures Less(t[sa2[r]..], t[sa1[r]..])
  {
    PermutationFacts(sa1, |t|);
    var r1 := PositionOf(sa2, |t|, sa1[r]);
    if r1 < r {
      assert false;
    }
    RankOrder(t, sa2, r, r1);
  }

  /** Every entry of the LCP array is bounded by both suffix lengths. */
  lemma LcpArrayBounds(t: Text, sa: seq<int>, r: int)
    requires IsSuffixArray(t, sa)
    requires 0 < r < |sa|
    ensures 0 <= LcpArray(t, sa)[r] <= |t| - sa[r]
    ensures LcpArray(t, sa)[r] <= |t| - sa[r - 1]
    ensures t[sa[r]..][..LcpArray(t, sa)[r]] == t[sa[r - 1]..][..LcpArray(t, sa)[r]]
  {
  }

  /**
   * Any string occurring at two different offsets is no longer than some
   * entry of the LCP array.
   */
  lemma RepeatBound(t: Text, sa: seq<int>, i: int, j: int)
    requires IsSuffixArray(t, sa)
    requires 0 <= i < |t| && 0 <= j < |t| && i != j
    ensures exists r :: 0 < r < |sa| && Lcp(t[i..], t[j..]) <= LcpArray(t, sa)[r]
  {
    var p := PositionOf(sa, |t|, i);
    var q := PositionOf(sa, |t|, j);
    if p < q {
      LcpArrayDominates(t, sa, p, q);
    } else {
      LcpArrayDominates(t, sa, q, p);
      LcpSymmetric(t[i..], t[j..]);
    }
  }

  /** The LCP array entry at rank `q` bounds the common prefix of the suffix ranked `q` with any earlier one. */
  lemma LcpArrayDominates(t: Text, sa: seq<int>, p: int, q: int)
    requires IsSuffixArray(t, sa)
    requires 0 <= p < q < |sa|
    ensures Lcp(t[sa[p]..], t[sa[q]..]) <= LcpArray(t, sa)[q]
  {
    assert 0 <= sa[p] < |t| && 0 <= sa[q - 1] < |t| && 0 <= sa[q] < |t|;
    LcpWithin(t, sa, p, q);
    assert LcpArray(t, sa)[q] == Lcp(t[sa[q - 1]..], t[sa[q]..]);
  }
}
