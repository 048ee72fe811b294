/**
 * Permutations of the offsets `0 .. n-1` and sums of integer sequences.
 */
module Permutations {

  /** The identity arrangement `[0, 1, ..., n-1]`. */
  function Iota(n: nat): (s: seq<int>)
    ensures |s| == n
    ensures forall i :: 0 <= i < n ==> s[i] == i
  {
    seq(n, i => i)
  }

  /** `s` holds every offset `0 .. n-1` exactly once. */
  ghost predicate IsPermutation(s: seq<int>, n: nat) {
    multiset(s) == multiset(Iota(n))
  }

  lemma {:induction false} IotaCount(n: nat, x: int)
    ensures multiset(Iota(n))[x] == if 0 <= x < n then 1 else 0
  {
    if n > 0 {
      assert Iota(n) == Iota(n - 1) + [n - 1];
      IotaCount(n - 1, x);
    }
  }

  /** A permutation of `0 .. n-1` has length `n`, stays in range, repeats nothing and misses nothing. */
  lemma PermutationFacts(s: seq<int>, n: nat)
    requires IsPermutation(s, n)
    ensures |s| == n
    ensures forall r :: 0 <= r < |s| ==> 0 <= s[r] < n
    ensures forall p, q :: 0 <= p < q < |s| ==> s[p] != s[q]
    ensures forall x :: 0 <= x < n ==> x in s
  {
    assert |multiset(s)| == |s|;
    forall r | 0 <= r < |s|
      ensures 0 <= s[r] < n
    {
      assert s[r] in multiset(s);
      IotaCount(n, s[r]);
    }
    forall p, q | 0 <= p < q < |s|
      ensures s[p] != s[q]
    {
      assert s == s[..q] + s[q..];
      assert s[p] in multiset(s[..q]);
      assert s[q] in multiset(s[q..]);
      IotaCount(n, s[p]);
    }
    forall x | 0 <= x < n
      ensures x in s
    {
      IotaCount(n, x);
      assert x in multiset(s);
    }
  }

  /** Where offset `x` sits in the permutation `s`. */
  lemma PositionOf(s: seq<int>, n: nat, x: int) returns (r: int)
    requires IsPermutation(s, n) && 0 <= x < n
    ensures 0 <= r < |s| && s[r] == x
  {
    PermutationFacts(s, n);
    assert x in s;
    r :| 0 <= r < |s| && s[r] == x;
  }

  /** Sum of the elements of `s`. */
  function Sum(s: seq<int>): int {
    if |s| == 0 then 0 else Sum(s[..|s| - 1]) + s[|s| - 1]
  }

  /** Extending a prefix by one element adds that element to the sum. */
  lemma SumStep(s: seq<int>, k: int)
    requires 0 <= k < |s|
    ensures Sum(s[..k + 1]) == Sum(s[..k]) + s[k]
  {
    assert s[..k + 1][..k] == s[..k];
  }

  lemma {:induction false} SumAppend(s: seq<int>, t: seq<int>)
    ensures Sum(s + t) == Sum(s) + Sum(t)
  {
    if |t| > 0 {
      assert (s + t)[..|s + t| - 1] == s + t[..|t| - 1];
      SumAppend(s, t[..|t| - 1]);
    } else {
      assert s + t == s;
    }
  }

  /** The sum of a sequence depends only on its multiset of elements. */
  lemma {:induction false} SumPermuted(s: seq<int>, t: seq<int>)
    requires multiset(s) == multiset(t)
    ensures Sum(s) == Sum(t)
    decreases |s|
  {
    assert |s| == |multiset(s)| == |t|;
    if |s| > 0 {
      var x := s[|s| - 1];
      var s' := s[..|s| - 1];
      assert s == s' + [x];
      assert x in multiset(t);
      var j :| 0 <= j < |t| && t[j] == x;
      var t' := t[..j] + t[j + 1..];
      assert t == t[..j] + [x] + t[j + 1..];
      assert multiset(t') == multiset(t) - multiset{x};
      SumPermuted(s', t');
      SumAppend(t[..j] + [x], t[j + 1..]);
      SumAppend(t[..j], [x]);
      SumAppend(t[..j], t[j + 1..]);
    }
  }

  /** Twice `0 + 1 + ... + (n-1)` is `n(n-1)`. */
  lemma {:induction false} SumIota(n: nat)
    ensures 2 * Sum(Iota(n)) == n * (n - 1)
  {
    if n > 0 {
      assert Iota(n)[..n - 1] == Iota(n - 1);
      SumIota(n - 1);
    }
  }
}
