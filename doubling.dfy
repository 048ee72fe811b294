/**
 * Prefix doubling: ranks that order the offsets of a text by the first `k`
 * symbols of their suffixes, and one doubling pass that turns them into
 * ranks for the first `2k` symbols (sort by a pair of ranks, then re-rank).
 */
module PrefixDoubling {
  import opened Lexicographic
  import opened Permutations
  import opened SuffixOrder

  /** The suffixes at `i` and `j` agree on their first `k` symbols. */
  ghost predicate SameUpTo(t: Text, i: int, j: int, k: nat)
    requires 0 <= i <= |t| && 0 <= j <= |t|
  {
    i == j || Lcp(t[i..], t[j..]) >= k
  }

  /** Within its first `k` symbols the suffix at `i` sorts strictly before the one at `j`. */
  ghost predicate BeforeUpTo(t: Text, i: int, j: int, k: nat)
    requires 0 <= i <= |t| && 0 <= j <= |t|
  {
    Lcp(t[i..], t[j..]) < k && Less(t[i..], t[j..])
  }

  ghost predicate RankAgrees(t: Text, rank: seq<int>, k: nat, i: int, j: int)
    requires |rank| == |t| && 0 <= i < |t| && 0 <= j < |t|
  {
    && (rank[i] == rank[j] <==> SameUpTo(t, i, j, k))
    && (rank[i] < rank[j] <==> BeforeUpTo(t, i, j, k))
  }

  /**
   * `rank` orders the offsets of `t` by the first `k` symbols of their
   * suffixes: equal ranks for equal `k`-prefixes, smaller rank for the
   * smaller `k`-prefix.
   */
  ghost predicate RanksByPrefix(t: Text, rank: seq<int>, k: nat)
    requires |rank| == |t|
  {
    forall i, j :: 0 <= i < |t| && 0 <= j < |t| ==> RankAgrees(t, rank, k, i, j)
  }

  /** The two relations are the comparison of the first `k` symbols, cut as `String.substring` would cut them. */
  lemma UpToIsPrefixComparison(t: Text, i: int, j: int, k: nat)
    requires 0 <= i <= |t| && 0 <= j <= |t|
    ensures SameUpTo(t, i, j, k) <==> Prefix(t[i..], k) == Prefix(t[j..], k)
    ensures BeforeUpTo(t, i, j, k) <==> Less(Prefix(t[i..], k), Prefix(t[j..], k))
  {
    PrefixCompare(t[i..], t[j..], k);
    if i != j {
      assert |t[i..]| != |t[j..]|;
    }
    if Lcp(t[i..], t[j..]) >= k || i == j {
      Trichotomy(Prefix(t[i..], k), Prefix(t[j..], k));
    }
  }

  /** Ranks are never negative. */
  ghost predicate NonNegative(rank: seq<int>) {
    forall i :: 0 <= i < |rank| ==> rank[i] >= 0
  }

  /** The character codes rank the offsets by their first symbol (`rank[i] = text.charAt(i)`). */
  function CharRanks(t: Text): (rank: seq<int>)
    ensures |rank| == |t| && NonNegative(rank)
    ensures RanksByPrefix(t, rank, 1)
  {
    var rank := seq(|t|, i requires 0 <= i < |t| => t[i]);
    forall i, j | 0 <= i < |t| && 0 <= j < |t|
      ensures RankAgrees(t, rank, 1, i, j)
    {
      FirstSymbol(t, i, j);
    }
    rank
  }

  lemma FirstSymbol(t: Text, i: int, j: int)
    requires 0 <= i < |t| && 0 <= j < |t|
    ensures SameUpTo(t, i, j, 1) <==> t[i] == t[j]
    ensures BeforeUpTo(t, i, j, 1) <==> t[i] < t[j]
  {
    assert t[i..][0] == t[i] && t[j..][0] == t[j];
    if t[i] == t[j] {
      assert t[i..][..1] == t[j..][..1];
      LcpAtLeast(t[i..], t[j..], 1);
    }
  }

  /** Second half of the sort key: the rank `gap` further on, or -1 past the end of the text. */
  function SecondKey(rank: seq<int>, gap: nat, i: int): (key: int)
    requires 0 <= i < |rank|
    ensures key == -1 || (i + gap < |rank| && key == rank[i + gap])
    ensures NonNegative(rank) ==> (key >= 0 <==> i + gap < |rank|)
  {
    if i + gap < |rank| then rank[i + gap] else -1
  }

  /** The comparator given to the sort: negative, zero or positive as offset `a` sorts before, with or after `b`. */
  function Compare(rank: seq<int>, gap: nat, a: int, b: int): (c: int)
    requires 0 <= a < |rank| && 0 <= b < |rank|
    ensures c == 0 <==> rank[a] == rank[b] && SecondKey(rank, gap, a) == SecondKey(rank, gap, b)
    ensures c < 0 <==> rank[a] < rank[b] || (rank[a] == rank[b] && SecondKey(rank, gap, a) < SecondKey(rank, gap, b))
  {
    if rank[a] != rank[b] then rank[a] - rank[b]
    else SecondKey(rank, gap, a) - SecondKey(rank, gap, b)
  }

  /**
   * The doubling step: comparing the pair of `k`-ranks at `i` and `i + k`
   * compares the first `2k` symbols.
   */
  lemma DoublingStep(t: Text, rank: seq<int>, k: nat, i: int, j: int)
    requires |rank| == |t| && k >= 1
    requires RanksByPrefix(t, rank, k) && NonNegative(rank)
    requires 0 <= i < |t| && 0 <= j < |t|
    ensures Compare(rank, k, i, j) == 0 <==> SameUpTo(t, i, j, 2 * k)
    ensures Compare(rank, k, i, j) < 0 <==> BeforeUpTo(t, i, j, 2 * k)
  {
    var n := |t|;
    assert RankAgrees(t, rank, k, i, j);
    var l := Lcp(t[i..], t[j..]);
    if i == j {
      Trichotomy(t[i..], t[j..]);
    } else if rank[i] == rank[j] {
      if i + k < n && j + k < n {
        assert RankAgrees(t, rank, k, i + k, j + k);
        DropCommon(t[i..], t[j..], k);
        assert t[i..][k..] == t[i + k..] && t[j..][k..] == t[j + k..];
      } else if i + k < n {
        assert l == n - j;
        Trichotomy(t[i..], t[j..]);
      } else if j + k < n {
        assert l == n - i;
      } else {
        assert false;
      }
    }
  }

  /** `newRank` ranks the offsets by the comparator's order. */
  ghost predicate RanksByKey(rank: seq<int>, gap: nat, newRank: seq<int>)
    requires |newRank| == |rank|
  {
    forall i, j :: 0 <= i < |rank| && 0 <= j < |rank| ==>
      && (newRank[i] == newRank[j] <==> Compare(rank, gap, i, j) == 0)
      && (newRank[i] < newRank[j] <==> Compare(rank, gap, i, j) < 0)
  }

  /** Ranks by the pair key for gap `k` are ranks by the first `2k` symbols. */
  lemma DoubledRanks(t: Text, rank: seq<int>, k: nat, newRank: seq<int>)
    requires |rank| == |t| == |newRank| && k >= 1
    requires RanksByPrefix(t, rank, k) && NonNegative(rank)
    requires RanksByKey(rank, k, newRank)
    ensures RanksByPrefix(t, newRank, 2 * k)
  {
    forall i, j | 0 <= i < |t| && 0 <= j < |t|
      ensures RankAgrees(t, newRank, 2 * k, i, j)
    {
      DoublingStep(t, rank, k, i, j);
    }
  }

  /** `sa` is sorted by the comparator. */
  ghost predicate SortedByKey(rank: seq<int>, gap: nat, sa: seq<int>)
    requires forall r :: 0 <= r < |sa| ==> 0 <= sa[r] < |rank|
  {
    forall r :: 0 < r < |sa| ==> KeyOrderedAt(rank, gap, sa, r)
  }

  /** The offsets at positions `r - 1` and `r` of `sa` are in comparator order. */
  ghost predicate KeyOrderedAt(rank: seq<int>, gap: nat, sa: seq<int>, r: int)
    requires 0 < r < |sa|
    requires forall q :: 0 <= q < |sa| ==> 0 <= sa[q] < |rank|
  {
    Compare(rank, gap, sa[r - 1], sa[r]) <= 0
  }

  /**
   * Ranks built along a key-sorted arrangement by "same key as the
   * predecessor: same rank, otherwise one more" rank by the key.
   */
  lemma StepRanksByKey(rank: seq<int>, gap: nat, sa: seq<int>, newRank: seq<int>)
    requires |newRank| == |rank| && |rank| >= 1
    requires IsPermutation(sa, |rank|) && (forall r :: 0 <= r < |sa| ==> 0 <= sa[r] < |rank|)
    requires SortedByKey(rank, gap, sa)
    requires forall r :: 0 < r < |sa| ==>
      newRank[sa[r]] == newRank[sa[r - 1]] + (if Compare(rank, gap, sa[r - 1], sa[r]) == 0 then 0 else 1)
    ensures RanksByKey(rank, gap, newRank)
  {
    PermutationFacts(sa, |rank|);
    forall i, j | 0 <= i < |rank| && 0 <= j < |rank|
      ensures newRank[i] == newRank[j] <==> Compare(rank, gap, i, j) == 0
      ensures newRank[i] < newRank[j] <==> Compare(rank, gap, i, j) < 0
    {
      assert i in sa && j in sa;
      var p :| 0 <= p < |sa| && sa[p] == i;
      var q :| 0 <= q < |sa| && sa[q] == j;
      if p <= q {
        StepRanksAlong(rank, gap, sa, newRank, p, q);
      } else {
        StepRanksAlong(rank, gap, sa, newRank, q, p);
      }
    }
  }

  lemma {:induction false} StepRanksAlong(rank: seq<int>, gap: nat, sa: seq<int>, newRank: seq<int>, a: int, b: int)
    requires |newRank| == |rank| && |rank| >= 1
    requires (forall r :: 0 <= r < |sa| ==> 0 <= sa[r] < |rank|) && SortedByKey(rank, gap, sa)
    requires forall r :: 0 < r < |sa| ==>
      newRank[sa[r]] == newRank[sa[r - 1]] + (if Compare(rank, gap, sa[r - 1], sa[r]) == 0 then 0 else 1)
    requires 0 <= a <= b < |sa|
    ensures Compare(rank, gap, sa[a], sa[b]) <= 0
    ensures newRank[sa[a]] <= newRank[sa[b]]
    ensures newRank[sa[a]] == newRank[sa[b]] <==> Compare(rank, gap, sa[a], sa[b]) == 0
    decreases b - a
  {
    if a < b {
      StepRanksAlong(rank, gap, sa, newRank, a, b - 1);
      assert KeyOrderedAt(rank, gap, sa, b);
    }
  }

  /** Ranks along the sorted order: start at 0 and rise by at most one per step. */
  ghost predicate DenseFromZero(s: seq<int>) {
    && |s| >= 1 && s[0] == 0
    && forall r :: 0 < r < |s| ==> s[r - 1] <= s[r] <= s[r - 1] + 1
  }

  /**
   * Dense ranks reach `|s| - 1` at the end exactly when every step rises,
   * that is when all ranks are distinct; then rank equals position.
   */
  lemma {:induction false} DenseTop(s: seq<int>)
    requires DenseFromZero(s)
    ensures forall r :: 0 <= r < |s| ==> s[r] <= r
    ensures s[|s| - 1] == |s| - 1 <==> forall r :: 0 < r < |s| ==> s[r - 1] < s[r]
    ensures s[|s| - 1] == |s| - 1 ==> forall r :: 0 <= r < |s| ==> s[r] == r
  {
    if |s| > 1 {
      var s' := s[..|s| - 1];
      assert DenseFromZero(s');
      DenseTop(s');
    }
  }

  /** Once `k` reaches the length of the text no two offsets share a rank. */
  lemma NoTiesAtFullLength(t: Text, rank: seq<int>, k: nat, i: int, j: int)
    requires |rank| == |t| && k >= |t|
    requires RanksByPrefix(t, rank, k)
    requires 0 <= i < |t| && 0 <= j < |t| && i != j
    ensures rank[i] != rank[j]
  {
    assert RankAgrees(t, rank, k, i, j);
  }

  /**
   * Two distinct offsets can tie in rank only when both suffixes have at
   * least `k` symbols, so the offsets `k` further on never pass the end of
   * the text.
   */
  lemma TiedInRange(t: Text, rank: seq<int>, k: nat, a: int, b: int)
    requires |rank| == |t| && RanksByPrefix(t, rank, k)
    requires 0 <= a < |t| && 0 <= b < |t| && a != b && rank[a] == rank[b]
    ensures a + k <= |t| && b + k <= |t|
  {
    assert RankAgrees(t, rank, k, a, b);
  }

  /**
   * Once the window covers the whole text, dense ranks along the
   * arrangement end at `n - 1`, so the pass takes the early exit.
   */
  lemma FullWindowBreaks(t: Text, sa: seq<int>, rank: seq<int>, w: nat)
    requires |rank| == |t| == |sa| > 1 && w >= |t|
    requires forall r :: 0 <= r < |sa| ==> 0 <= sa[r] < |t|
    requires IsPermutation(sa, |t|)
    requires RanksByPrefix(t, rank, w)
    requires DenseFromZero(RanksAlong(sa, rank))
    ensures rank[sa[|t| - 1]] == |t| - 1
  {
    PermutationFacts(sa, |t|);
    var s := RanksAlong(sa, rank);
    forall r | 0 < r < |t|
      ensures s[r - 1] < s[r]
    {
      NoTiesAtFullLength(t, rank, w, sa[r - 1], sa[r]);
    }
    DenseTop(s);
  }

  /**
   * The doubling loop: offsets in `sa`, character codes in `rank`, then
   * passes with gap 1, 2, 4, ... until the last rank along `sa` is
   * `n - 1` or the gap reaches `n`.
   */
  method DoublingSort(t: Text, sa: array<int>, rank: array<int>)
    requires sa.Length == rank.Length == |t| >= 1 && sa != rank
    modifies sa, rank
    ensures IsSuffixArray(t, sa[..])
    ensures |t| > 1 ==> forall r :: 0 <= r < |t| ==> rank[sa[r]] == r
  {
    var n := |t|;
    FillIdentity(sa);
    for i := 0 to n
      modifies rank
      invariant sa[..] == Iota(n)
      invariant forall x :: 0 <= x < i ==> rank[x] == t[x]
    {
      rank[i] := t[i];
    }
    assert rank[..] == CharRanks(t);
    var tempRank := new int[n];
    var k := 1;
    ghost var finished := false;
    while k < n
      modifies sa, rank, tempRank
      invariant k >= 1 && !finished
      invariant IsPermutation(sa[..], n)
      invariant forall r :: 0 <= r < n ==> 0 <= sa[r] < n
      invariant NonNegative(rank[..]) && RanksByPrefix(t, rank[..], k)
      invariant k > 1 ==> DenseFromZero(RanksAlong(sa[..], rank[..]))
    {
      var done := DoublingIteration(t, sa, rank, tempRank, k);
      if done {
        finished := true;
        break;
      }
      // A pass that does not exit early had `2k < n`: doubling stays below `n`.
      assert 2 * k < n;
      k := 2 * k;
    }
    if !finished {
      FinishBuild(t, sa[..], rank[..], k);
    }
  }

  /**
   * The body of the doubling loop for gap `k`: one round, then the early
   * exit when the last offset along `sa` has rank `n - 1`, at which point
   * `sa` is the suffix array.
   */
  method DoublingIteration(t: Text, sa: array<int>, rank: array<int>, tempRank: array<int>, k: nat)
    returns (done: bool)
    requires sa.Length == rank.Length == tempRank.Length == |t| > 1 && k >= 1
    requires sa != rank && tempRank != sa && tempRank != rank
    requires IsPermutation(sa[..], |t|) && forall r :: 0 <= r < |t| ==> 0 <= sa[r] < |t|
    requires NonNegative(rank[..]) && RanksByPrefix(t, rank[..], k)
    modifies sa, rank, tempRank
    ensures IsPermutation(sa[..], |t|) && forall r :: 0 <= r < |t| ==> 0 <= sa[r] < |t|
    ensures NonNegative(rank[..]) && RanksByPrefix(t, rank[..], 2 * k)
    ensures DenseFromZero(RanksAlong(sa[..], rank[..]))
    ensures done <==> rank[sa[|t| - 1]] == |t| - 1
    ensures 2 * k >= |t| ==> done
    ensures done ==> IsSuffixArray(t, sa[..]) && forall r :: 0 <= r < |t| ==> rank[sa[r]] == r
  {
    var n := |t|;
    ghost var oldRank := rank[..];
    DoublingRound(sa, rank, tempRank, k);
    ghost var order, ranks := sa[..], rank[..];
    DoublingPass(t, oldRank, k, order, ranks);
    if 2 * k >= n {
      FullWindowBreaks(t, order, ranks, 2 * k);
    }
    done := tempRank[sa[n - 1]] == n - 1;
    assert ranks[order[n - 1]] == tempRank[sa[n - 1]] == rank[sa[n - 1]];
    if done {
      assert ranks[order[n - 1]] == n - 1;
      FinishBuild(t, order, ranks, 2 * k);
      forall r | 0 <= r < n
        ensures rank[sa[r]] == r
      {
        assert sa[r] == order[r] && rank[sa[r]] == ranks[order[r]];
      }
    }
  }

  /**
   * One pass of the doubling loop on the arrays: sort the offsets by the
   * pair key for `gap` into `sa`, re-rank along them into `tempRank`, and
   * copy the new ranks over `rank`.
   */
  method DoublingRound(sa: array<int>, rank: array<int>, tempRank: array<int>, gap: nat)
    requires sa.Length == rank.Length == tempRank.Length >= 1
    requires sa != rank && tempRank != sa && tempRank != rank
    requires NonNegative(rank[..])
    modifies sa, rank, tempRank
    ensures IsPermutation(sa[..], sa.Length)
    ensures forall r :: 0 <= r < sa.Length ==> 0 <= sa[r] < sa.Length
    ensures SortedByKey(old(rank[..]), gap, sa[..])
    ensures rank[..] == tempRank[..]
    ensures rank[sa[0]] == 0
    ensures forall r :: 0 < r < sa.Length ==>
      rank[sa[r]] == rank[sa[r - 1]] + (if Compare(old(rank[..]), gap, sa[r - 1], sa[r]) == 0 then 0 else 1)
  {
    var indices := new int[sa.Length];
    FillIdentity(indices);
    SortByKey(indices, rank[..], gap);
    CopyInto(indices, sa);
    PermutationFacts(sa[..], sa.Length);
    AssignRanks(sa, rank, tempRank, gap);
    CopyInto(tempRank, rank);
  }

  /** Fills `a` with its own indices `0, 1, ..., a.Length - 1`. */
  method FillIdentity(a: array<int>)
    modifies a
    ensures a[..] == Iota(a.Length)
  {
    for i := 0 to a.Length
      invariant forall x :: 0 <= x < i ==> a[x] == x
    {
      a[i] := i;
    }
  }

  /** Element-by-element copy of `src` over `dst`. */
  method CopyInto(src: array<int>, dst: array<int>)
    requires src.Length == dst.Length && src != dst
    modifies dst
    ensures dst[..] == src[..]
  {
    for i := 0 to src.Length
      invariant forall x :: 0 <= x < i ==> dst[x] == src[x]
    {
      dst[i] := src[i];
    }
  }

  /** Sorting `indices` by the comparator, as the library sort does. */
  method SortByKey(indices: array<int>, rank: seq<int>, gap: nat)
    requires forall x :: 0 <= x < indices.Length ==> 0 <= indices[x] < |rank|
    modifies indices
    ensures multiset(indices[..]) == old(multiset(indices[..]))
    ensures forall x :: 0 <= x < indices.Length ==> 0 <= indices[x] < |rank|
    ensures SortedByKey(rank, gap, indices[..])
  {
    var i := 0;
    while i < indices.Length
      invariant 0 <= i <= indices.Length
      invariant forall x :: 0 <= x < indices.Length ==> 0 <= indices[x] < |rank|
      invariant multiset(indices[..]) == old(multiset(indices[..]))
      invariant forall r :: 0 < r < i ==> KeyOrderedAt(rank, gap, indices[..], r)
    {
      InsertByKey(indices, rank, gap, i);
      i := i + 1;
    }
  }

  /** Moves `indices[i]` down past every larger key, extending the sorted prefix by one. */
  method InsertByKey(indices: array<int>, rank: seq<int>, gap: nat, i: int)
    requires 0 <= i < indices.Length
    requires forall x :: 0 <= x < indices.Length ==> 0 <= indices[x] < |rank|
    requires forall r :: 0 < r < i ==> KeyOrderedAt(rank, gap, indices[..], r)
    modifies indices
    ensures multiset(indices[..]) == old(multiset(indices[..]))
    ensures forall x :: 0 <= x < indices.Length ==> 0 <= indices[x] < |rank|
    ensures forall r :: 0 < r <= i ==> KeyOrderedAt(rank, gap, indices[..], r)
  {
    var j := i;
    while j > 0 && Compare(rank, gap, indices[j - 1], indices[j]) > 0
      invariant 0 <= j <= i
      invariant forall x :: 0 <= x < indices.Length ==> 0 <= indices[x] < |rank|
      invariant multiset(indices[..]) == old(multiset(indices[..]))
      invariant forall r :: 0 < r <= i && r != j ==> KeyOrderedAt(rank, gap, indices[..], r)
      invariant 0 < j < i ==> Compare(rank, gap, indices[j - 1], indices[j + 1]) <= 0
    {
      ghost var before := indices[..];
      SwapAdjacent(indices, j);
      forall r | 0 < r <= i && r != j - 1
        ensures KeyOrderedAt(rank, gap, indices[..], r)
      {
        if r < j - 1 || r > j + 1 {
          assert KeyOrderedAt(rank, gap, before, r);
        } else if r == j + 1 {
          assert indices[..][r - 1] == before[j - 1] && indices[..][r] == before[r];
        }
      }
      if 1 < j {
        assert KeyOrderedAt(rank, gap, before, j - 1);
      }
      j := j - 1;
    }
  }

  /** Exchanges `a[j - 1]` and `a[j]`. */
  method SwapAdjacent(a: array<int>, j: int)
    requires 0 < j < a.Length
    modifies a
    ensures a[..] == old(a[..])[j - 1 := old(a[j])][j := old(a[j - 1])]
    ensures multiset(a[..]) == old(multiset(a[..]))
  {
    a[j - 1], a[j] := a[j], a[j - 1];
  }

  /**
   * Re-ranking along the sorted offsets: the first gets 0, each next one
   * the predecessor's rank, plus one when its key differs.
   */
  method AssignRanks(sa: array<int>, rank: array<int>, tempRank: array<int>, gap: nat)
    requires sa.Length == rank.Length == tempRank.Length >= 1
    requires tempRank != rank && tempRank != sa
    requires NonNegative(rank[..])
    requires forall r :: 0 <= r < sa.Length ==> 0 <= sa[r] < sa.Length
    requires forall p, q :: 0 <= p < q < sa.Length ==> sa[p] != sa[q]
    modifies tempRank
    ensures tempRank[sa[0]] == 0
    ensures forall r :: 0 < r < sa.Length ==>
      tempRank[sa[r]] == tempRank[sa[r - 1]] + (if Compare(rank[..], gap, sa[r - 1], sa[r]) == 0 then 0 else 1)
  {
    var n := sa.Length;
    tempRank[sa[0]] := 0;
    for i := 1 to n
      invariant tempRank[sa[0]] == 0
      invariant forall r :: 0 < r < i ==>
        tempRank[sa[r]] == tempRank[sa[r - 1]] + (if Compare(rank[..], gap, sa[r - 1], sa[r]) == 0 then 0 else 1)
    {
      var prev := sa[i - 1];
      var curr := sa[i];
      var same := rank[prev] == rank[curr];
      if same && curr + gap < n && prev + gap < n {
        same := rank[prev + gap] == rank[curr + gap];
      } else if same {
        same := (curr + gap >= n) == (prev + gap >= n);
      }
      assert same <==> Compare(rank[..], gap, prev, curr) == 0;
      tempRank[curr] := if same then tempRank[prev] else tempRank[prev] + 1;
    }
  }

  /** Ranks read along the sorted order: `rank[sa[0]], rank[sa[1]], ...`. */
  ghost function RanksAlong(sa: seq<int>, rank: seq<int>): (s: seq<int>)
    requires forall r :: 0 <= r < |sa| ==> 0 <= sa[r] < |rank|
    ensures |s| == |sa| && forall r :: 0 <= r < |sa| ==> s[r] == rank[sa[r]]
  {
    seq(|sa|, r requires 0 <= r < |sa| => rank[sa[r]])
  }

  /**
   * One doubling pass on values: sorting the offsets by the pair key for
   * gap `k` and re-ranking along the result yields ranks for the first
   * `2k` symbols, dense from 0 along the sorted order.
   */
  lemma DoublingPass(t: Text, rank: seq<int>, k: nat, sa: seq<int>, newRank: seq<int>)
    requires |rank| == |t| == |newRank| == |sa| >= 1 && k >= 1
    requires RanksByPrefix(t, rank, k) && NonNegative(rank)
    requires IsPermutation(sa, |t|)
    requires forall r :: 0 <= r < |sa| ==> 0 <= sa[r] < |t|
    requires SortedByKey(rank, k, sa)
    requires newRank[sa[0]] == 0
    requires forall r :: 0 < r < |sa| ==>
      newRank[sa[r]] == newRank[sa[r - 1]] + (if Compare(rank, k, sa[r - 1], sa[r]) == 0 then 0 else 1)
    ensures RanksByPrefix(t, newRank, 2 * k) && NonNegative(newRank)
    ensures DenseFromZero(RanksAlong(sa, newRank))
  {
    PermutationFacts(sa, |t|);
    StepRanksByKey(rank, k, sa, newRank);
    DoubledRanks(t, rank, k, newRank);
    forall x | 0 <= x < |t|
      ensures newRank[x] >= 0
    {
      var p := PositionOf(sa, |t|, x);
      StepRanksAlong(rank, k, sa, newRank, 0, p);
    }
  }

  /**
   * The doubling loop ends either when the window covers the whole text or
   * when the last rank along the sorted order is `n - 1`; either way all
   * ranks are distinct and the arrangement is the suffix array.
   */
  lemma FinishBuild(t: Text, sa: seq<int>, rank: seq<int>, w: nat)
    requires |rank| == |t| == |sa| >= 1
    requires IsPermutation(sa, |t|)
    requires forall r :: 0 <= r < |sa| ==> 0 <= sa[r] < |t|
    requires RanksByPrefix(t, rank, w)
    requires |t| > 1 ==> DenseFromZero(RanksAlong(sa, rank))
    requires w >= |t| || rank[sa[|t| - 1]] == |t| - 1
    ensures IsSuffixArray(t, sa)
    ensures |t| > 1 ==> forall r :: 0 <= r < |t| ==> rank[sa[r]] == r
  {
    PermutationFacts(sa, |t|);
    if |t| > 1 {
      var s := RanksAlong(sa, rank);
      DenseTop(s);
      if w >= |t| {
        forall r | 0 < r < |t|
          ensures s[r - 1] < s[r]
        {
          NoTiesAtFullLength(t, rank, w, sa[r - 1], sa[r]);
        }
      }
    }
    forall r | 0 < r < |t|
      ensures SortedAt(t, sa, r)
    {
      assert RankAgrees(t, rank, w, sa[r - 1], sa[r]);
    }
  }
}
