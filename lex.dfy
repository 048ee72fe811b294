/**
 * Lexicographic order on strings as Java's `String.compareTo` defines it:
 * the first differing symbol decides, and a proper prefix sorts before
 * any of its extensions. Everything here is stated through `Lcp`, the
 * length of the longest common prefix.
 */
module Lexicographic {

  /** A UTF-16 code unit, the value a Java `char` holds. */
  type CodeUnit = c: int | 0 <= c < 0x1_0000

  /** A Java `String`: a sequence of UTF-16 code units. */
  type Text = seq<CodeUnit>

  /** Length of the longest common prefix of `a` and `b`. */
  function Lcp(a: Text, b: Text): (h: nat)
    ensures h <= |a| && h <= |b|
    ensures a[..h] == b[..h]
    ensures h == |a| || h == |b| || a[h] != b[h]
  {
    if |a| == 0 || |b| == 0 || a[0] != b[0] then 0
    else
      var h' := Lcp(a[1..], b[1..]);
      assert a[..h' + 1] == [a[0]] + a[1..][..h'];
      assert b[..h' + 1] == [b[0]] + b[1..][..h'];
      1 + h'
  }

  /** `a` sorts strictly before `b` (Java: `a.compareTo(b) < 0`). */
  predicate Less(a: Text, b: Text) {
    var h := Lcp(a, b);
    h < |b| && (h == |a| || a[h] < b[h])
  }

  predicate LessEq(a: Text, b: Text) {
    a == b || Less(a, b)
  }

  /**
   * Java's `String.compareTo`: the difference of the first differing code
   * units, or of the lengths when one text is a prefix of the other.
   */
  function CompareTo(a: Text, b: Text): int {
    if |a| == 0 || |b| == 0 then |a| - |b|
    else if a[0] != b[0] then a[0] - b[0]
    else CompareTo(a[1..], b[1..])
  }

  /** `Less` is `compareTo` below zero, and `compareTo` is zero exactly on equal texts. */
  lemma {:induction false} LessIsCompareTo(a: Text, b: Text)
    ensures Less(a, b) <==> CompareTo(a, b) < 0
    ensures a == b <==> CompareTo(a, b) == 0
  {
    if |a| == 0 || |b| == 0 {
    } else if a[0] != b[0] {
    } else {
      LessIsCompareTo(a[1..], b[1..]);
      DropCommon(a, b, 1);
      assert a == [a[0]] + a[1..] && b == [b[0]] + b[1..];
    }
  }

  /** The first `m` symbols of `s`, or all of `s` when it is shorter. */
  function Prefix(s: Text, m: nat): (p: Text)
    ensures |p| == if |s| <= m then |s| else m
    ensures p == s[..|p|]
  {
    if |s| <= m then s else s[..m]
  }

  /** Any common prefix is at most as long as `Lcp`. */
  lemma LcpAtLeast(a: Text, b: Text, m: nat)
    requires m <= |a| && m <= |b| && a[..m] == b[..m]
    ensures m <= Lcp(a, b)
  {
    var h := Lcp(a, b);
    if h < m {
      assert a[..m][h] == b[..m][h];
    }
  }

  /** Cuts longer than the common prefix differ. */
  lemma PrefixesDiffer(a: Text, b: Text, m: nat)
    requires m <= |a| && m <= |b| && Lcp(a, b) < m
    ensures a[..m] != b[..m]
  {
    if a[..m] == b[..m] {
      LcpAtLeast(a, b, m);
    }
  }

  /** A common prefix that cannot be extended is the longest one. */
  lemma LcpExact(a: Text, b: Text, h: nat)
    requires h <= |a| && h <= |b| && a[..h] == b[..h]
    requires h == |a| || h == |b| || a[h] != b[h]
    ensures Lcp(a, b) == h
  {
    LcpAtLeast(a, b, h);
  }

  lemma LcpSymmetric(a: Text, b: Text)
    ensures Lcp(a, b) == Lcp(b, a)
  {
    LcpExact(b, a, Lcp(a, b));
  }

  /** Two strings whose common prefix covers both are equal. */
  lemma LcpFull(a: Text, b: Text)
    requires Lcp(a, b) == |a| == |b|
    ensures a == b
  {
    assert a == a[..|a|] && b == b[..|b|];
  }

  /** Exactly one of `Less(a, b)`, `a == b`, `Less(b, a)` holds. */
  lemma Trichotomy(a: Text, b: Text)
    ensures Less(a, b) || a == b || Less(b, a)
    ensures !(Less(a, b) && Less(b, a))
    ensures Less(a, b) ==> a != b
  {
    LcpSymmetric(a, b);
    var h := Lcp(a, b);
    if h == |a| && h == |b| {
      LcpFull(a, b);
    }
  }

  lemma LessTransitive(a: Text, b: Text, c: Text)
    requires Less(a, b) && Less(b, c)
    ensures Less(a, c)
  {
    var h1, h2 := Lcp(a, b), Lcp(b, c);
    var h := if h1 < h2 then h1 else h2;
    assert a[..h] == b[..h] == c[..h] by {
      assert a[..h] == a[..h1][..h] && b[..h] == b[..h1][..h];
      assert b[..h] == b[..h2][..h] && c[..h] == c[..h2][..h];
    }
    if h1 < h2 {
      assert b[h1] == b[..h2][h1] == c[..h2][h1] == c[h1];
    } else if h2 < h1 {
      assert a[h2] == a[..h1][h2] == b[..h1][h2] == b[h2];
    }
    LcpExact(a, c, h);
  }

  /** A string sandwiched below `c` shares at least as long a prefix with `c`. */
  lemma Sandwich(a: Text, b: Text, c: Text)
    requires LessEq(a, b) && Less(b, c)
    ensures Lcp(a, c) <= Lcp(b, c)
  {
    if a != b {
      var l, m := Lcp(a, c), Lcp(b, c);
      if m < l {
        assert a[..m] == c[..m] by { assert a[..m] == a[..l][..m] && c[..m] == c[..l][..m]; }
        assert b[..m] == c[..m];
        assert a[m] == a[..l][m] == c[..l][m] == c[m];
        LcpExact(b, a, m);
        Trichotomy(a, b);
      }
    }
  }

  /**
   * Once the first `k` symbols agree, the rest decides: the common prefix
   * grows by `k` and the order is that of the remainders.
   */
  lemma DropCommon(a: Text, b: Text, k: nat)
    requires k <= Lcp(a, b)
    ensures Lcp(a, b) == k + Lcp(a[k..], b[k..])
    ensures Less(a, b) <==> Less(a[k..], b[k..])
  {
    LcpDrop(a, b, k);
    var h' := Lcp(a[k..], b[k..]);
    if k + h' < |a| { assert a[k..][h'] == a[k + h']; }
    if k + h' < |b| { assert b[k..][h'] == b[k + h']; }
  }

  /** The common prefix of `a` and `b` is `k` plus that of what follows their first `k` symbols. */
  lemma {:induction false} LcpDrop(a: Text, b: Text, k: nat)
    requires k <= Lcp(a, b)
    ensures Lcp(a, b) == k + Lcp(a[k..], b[k..])
  {
    if k == 0 {
      assert a[k..] == a && b[k..] == b;
    } else {
      LcpDrop(a[1..], b[1..], k - 1);
      assert a[1..][k - 1..] == a[k..] && b[1..][k - 1..] == b[k..];
    }
  }

  /**
   * Cutting two strings to their first `m` symbols: equal cuts exactly when
   * the common prefix reaches `m`, and otherwise the cuts compare as the
   * strings do.
   */
  lemma PrefixCompare(s: Text, t: Text, m: nat)
    ensures Prefix(s, m) == Prefix(t, m) <==> Lcp(s, t) >= m || s == t
    ensures Lcp(s, t) < m && s != t ==>
      (Less(Prefix(s, m), Prefix(t, m)) <==> Less(s, t))
  {
    if Lcp(s, t) < m {
      ShortCut(s, t, m);
    } else {
      LongCut(s, t, m);
    }
  }

  /** Cuts longer than the common prefix keep both the common prefix and the order. */
  lemma ShortCut(s: Text, t: Text, m: nat)
    requires Lcp(s, t) < m
    ensures Prefix(s, m) == Prefix(t, m) <==> s == t
    ensures s != t ==> (Less(Prefix(s, m), Prefix(t, m)) <==> Less(s, t))
  {
    var ps, pt := Prefix(s, m), Prefix(t, m);
    var h := Lcp(s, t);
    assert s[..h] == ps[..h] && t[..h] == pt[..h];
    if h < |s| { assert ps[h] == s[h]; }
    if h < |t| { assert pt[h] == t[h]; }
    LcpExact(ps, pt, h);
    if s != t && h == |s| && h == |t| {
      LcpFull(s, t);
    }
  }

  /** Cuts no longer than the common prefix are equal. */
  lemma LongCut(s: Text, t: Text, m: nat)
    requires Lcp(s, t) >= m
    ensures Prefix(s, m) == Prefix(t, m)
  {
    var h := Lcp(s, t);
    assert Prefix(s, m) == s[..m] && Prefix(t, m) == t[..m];
    assert s[..m] == s[..h][..m] && t[..m] == t[..h][..m];
  }

  /** Cutting to the first `m` symbols keeps a strict order weakly. */
  lemma PrefixMonotone(s: Text, t: Text, m: nat)
    requires Less(s, t)
    ensures LessEq(Prefix(s, m), Prefix(t, m))
  {
    PrefixCompare(s, t, m);
  }
}
