/**
 * The library's test cases, stated against the definitions: the
 * suffix and LCP arrays of "banana", and the longest repeated substring and
 * distinct-substring count of "abcabc". Because a text has one suffix
 * array, these are the values the class's operations return. The suffix and
 * LCP arrays of "abcabc" are derived here; its test does not check them.
 */
module Examples {
  import opened Lexicographic
  import opened Permutations
  import opened SuffixOrder
  import opened DistinctSubstrings
  import opened SuffixArrays

  /** "banana" as UTF-16 code units. */
  const Banana: Text := [0x62, 0x61, 0x6E, 0x61, 0x6E, 0x61]

  /** "abcabc" as UTF-16 code units. */
  const AbcAbc: Text := [0x61, 0x62, 0x63, 0x61, 0x62, 0x63]

  /** "banana$", the text the class builds from "banana". */
  const BananaText: Text := [0x62, 0x61, 0x6E, 0x61, 0x6E, 0x61, 0x24]

  /** The suffix array the library documents for "banana". */
  const BananaOrder: seq<int> := [6, 5, 3, 1, 0, 4, 2]

  /** The constructor appends the sentinel to "banana". */
  lemma BananaNormalized()
    ensures Normalize(Banana) == BananaText
  {
    assert !EndsWithSentinel(Banana);
  }

  /** The suffix array of "banana$" is [6, 5, 3, 1, 0, 4, 2], and no other arrangement is one. */
  lemma BananaSuffixArray()
    ensures IsSuffixArray(BananaText, BananaOrder)
    ensures forall sa :: IsSuffixArray(BananaText, sa) ==> sa == BananaOrder
  {
    BananaPermutation();
    BananaSorted();
    assert IsSuffixArray(BananaText, BananaOrder);
    forall other | IsSuffixArray(BananaText, other)
      ensures other == BananaOrder
    {
      SuffixArrayUnique(BananaText, other, BananaOrder);
    }
  }

  /** The offsets are in range and adjacent suffixes of "banana$" are strictly ordered. */
  lemma BananaSorted()
    ensures forall r :: 0 <= r < |BananaOrder| ==> 0 <= BananaOrder[r] < |BananaText|
    ensures forall r :: 0 < r < |BananaOrder| ==> SortedAt(BananaText, BananaOrder, r)
  {
    forall r | 0 < r < 7
      ensures Less(BananaText[BananaOrder[r - 1]..], BananaText[BananaOrder[r]..])
    {
      BananaAdjacent(r);
    }
  }

  /** The LCP array of "banana$" is [0, 0, 1, 3, 0, 0, 2]. */
  lemma BananaLcp()
    ensures forall r :: 0 <= r < |BananaOrder| ==> 0 <= BananaOrder[r] < |BananaText|
    ensures LcpArray(BananaText, BananaOrder) == BananaLcpTable
  {
    var table := LcpArray(BananaText, BananaOrder);
    forall r | 0 < r < 7
      ensures table[r] == BananaLcpTable[r]
    {
      BananaAdjacent(r);
    }
  }

  /** The LCP array the library documents for "banana". */
  const BananaLcpTable: seq<int> := [0, 0, 1, 3, 0, 0, 2]

  /** The suffixes ranked `r - 1` and `r` in "banana$": in order, sharing the documented prefix. */
  lemma BananaAdjacent(r: int)
    requires 0 < r < 7
    ensures Less(BananaText[BananaOrder[r - 1]..], BananaText[BananaOrder[r]..])
    ensures Lcp(BananaText[BananaOrder[r - 1]..], BananaText[BananaOrder[r]..]) == BananaLcpTable[r]
  {
    var t := BananaText;
    if r == 1 {
      assert BananaOrder[r - 1] == 6 && BananaOrder[r] == 5 && BananaLcpTable[r] == 0;
      assert t[6..] == [0x24] && t[5..] == [0x61, 0x24];
      Below([0x24], [0x61, 0x24], 0);
    } else if r == 2 {
      assert BananaOrder[r - 1] == 5 && BananaOrder[r] == 3 && BananaLcpTable[r] == 1;
      assert t[5..] == [0x61, 0x24] && t[3..] == [0x61, 0x6E, 0x61, 0x24];
      Below([0x61, 0x24], [0x61, 0x6E, 0x61, 0x24], 1);
    } else if r == 3 {
      assert BananaOrder[r - 1] == 3 && BananaOrder[r] == 1 && BananaLcpTable[r] == 3;
      assert t[3..] == [0x61, 0x6E, 0x61, 0x24] && t[1..] == [0x61, 0x6E, 0x61, 0x6E, 0x61, 0x24];
      Below([0x61, 0x6E, 0x61, 0x24], [0x61, 0x6E, 0x61, 0x6E, 0x61, 0x24], 3);
    } else if r == 4 {
      assert BananaOrder[r - 1] == 1 && BananaOrder[r] == 0 && BananaLcpTable[r] == 0;
      assert t[1..] == [0x61, 0x6E, 0x61, 0x6E, 0x61, 0x24] && t[0..] == t;
      Below([0x61, 0x6E, 0x61, 0x6E, 0x61, 0x24], t, 0);
    } else if r == 5 {
      assert BananaOrder[r - 1] == 0 && BananaOrder[r] == 4 && BananaLcpTable[r] == 0;
      assert t[0..] == t && t[4..] == [0x6E, 0x61, 0x24];
      Below(t, [0x6E, 0x61, 0x24], 0);
    } else {
      assert BananaOrder[r - 1] == 4 && BananaOrder[r] == 2 && BananaLcpTable[r] == 2;
      assert t[4..] == [0x6E, 0x61, 0x24] && t[2..] == [0x6E, 0x61, 0x6E, 0x61, 0x24];
      Below([0x6E, 0x61, 0x24], [0x6E, 0x61, 0x6E, 0x61, 0x24], 2);
    }
  }

  /** [6, 5, 3, 1, 0, 4, 2] is a permutation of 0..6. */
  lemma BananaPermutation()
    ensures IsPermutation(BananaOrder, 7)
  {
    assert Iota(7) == [0, 1, 2, 3, 4, 5, 6];
    calc {
      multiset(BananaOrder);
      multiset{6, 5, 3, 1, 0, 4, 2};
      multiset{0, 1, 2, 3, 4, 5, 6};
      multiset([0, 1, 2, 3, 4, 5, 6]);
    }
  }

  /** "abcabc$", the text the class builds from "abcabc". */
  const AbcAbcText: Text := [0x61, 0x62, 0x63, 0x61, 0x62, 0x63, 0x24]

  /** The suffix array of "abcabc$". */
  const AbcAbcOrder: seq<int> := [6, 3, 0, 4, 1, 5, 2]

  /** The LCP array of "abcabc$". */
  const AbcAbcLcpTable: seq<int> := [0, 0, 3, 0, 2, 0, 1]

  /** "abc" as UTF-16 code units. */
  const Abc: Text := [0x61, 0x62, 0x63]

  /** The constructor appends the sentinel to "abcabc". */
  lemma AbcAbcNormalized()
    ensures Normalize(AbcAbc) == AbcAbcText
  {
    assert !EndsWithSentinel(AbcAbc);
  }

  /** The suffix array of "abcabc$" is [6, 3, 0, 4, 1, 5, 2], and no other arrangement is one. */
  lemma AbcAbcSuffixArray()
    ensures IsSuffixArray(AbcAbcText, AbcAbcOrder)
    ensures forall sa :: IsSuffixArray(AbcAbcText, sa) ==> sa == AbcAbcOrder
  {
    AbcAbcPermutation();
    AbcAbcSorted();
    assert IsSuffixArray(AbcAbcText, AbcAbcOrder);
    forall other | IsSuffixArray(AbcAbcText, other)
      ensures other == AbcAbcOrder
    {
      SuffixArrayUnique(AbcAbcText, other, AbcAbcOrder);
    }
  }

  /** The offsets are in range and adjacent suffixes of "abcabc$" are strictly ordered. */
  lemma AbcAbcSorted()
    ensures forall r :: 0 <= r < |AbcAbcOrder| ==> 0 <= AbcAbcOrder[r] < |AbcAbcText|
    ensures forall r :: 0 < r < |AbcAbcOrder| ==> SortedAt(AbcAbcText, AbcAbcOrder, r)
  {
    forall r | 0 < r < 7
      ensures Less(AbcAbcText[AbcAbcOrder[r - 1]..], AbcAbcText[AbcAbcOrder[r]..])
    {
      AbcAbcAdjacent(r);
    }
  }

  /** The LCP array of "abcabc$" is [0, 0, 3, 0, 2, 0, 1]. */
  lemma AbcAbcLcp()
    ensures forall r :: 0 <= r < |AbcAbcOrder| ==> 0 <= AbcAbcOrder[r] < |AbcAbcText|
    ensures LcpArray(AbcAbcText, AbcAbcOrder) == AbcAbcLcpTable
  {
    var table := LcpArray(AbcAbcText, AbcAbcOrder);
    forall r | 0 < r < 7
      ensures table[r] == AbcAbcLcpTable[r]
    {
      AbcAbcAdjacent(r);
    }
  }

  /**
   * The longest repeated substring of "abcabc" is "abc": it is the one
   * answer the scan's specification admits for the suffix and LCP arrays.
   */
  lemma AbcAbcLongestRepeat()
    ensures forall s :: LongestRepeatOf(AbcAbcText, AbcAbcOrder, AbcAbcLcpTable, s) <==> s == Abc
  {
    AbcAbcRepeatFound();
    forall s | LongestRepeatOf(AbcAbcText, AbcAbcOrder, AbcAbcLcpTable, s)
      ensures s == Abc
    {
      AbcAbcRepeatOnly(s);
    }
  }

  lemma AbcAbcRepeatFound()
    ensures LongestRepeatOf(AbcAbcText, AbcAbcOrder, AbcAbcLcpTable, Abc)
  {
    var t, sa, lcp := AbcAbcText, AbcAbcOrder, AbcAbcLcpTable;
    AbcAbcSuffixArray();
    AbcAbcLcp();
    AbcAbcFirstMax(2);
    AbcAbcPrefix();
    LongestRepeatChosen(t, sa, lcp, 2, 0, 3);
  }

  /** "abc" is the three-unit prefix of "abcabc$". */
  lemma AbcAbcPrefix()
    ensures AbcAbcText[0..0 + 3] == Abc
  {
  }

  lemma AbcAbcRepeatOnly(s: Text)
    requires LongestRepeatOf(AbcAbcText, AbcAbcOrder, AbcAbcLcpTable, s)
    ensures s == Abc
  {
    var t, sa, lcp := AbcAbcText, AbcAbcOrder, AbcAbcLcpTable;
    assert lcp[2] != 0;
    var r :| FirstMaxAt(lcp, r) && 0 < r && |s| == lcp[r] && OccursAt(t, s, sa[r]);
    AbcAbcFirstMax(r);
    assert sa[2] == 0 && lcp[2] == 3;
    AbcAbcPrefix();
  }

  /** Rank 2 is the only first maximum of the LCP array of "abcabc$". */
  lemma AbcAbcFirstMax(r: int)
    ensures FirstMaxAt(AbcAbcLcpTable, r) <==> r == 2
  {
    var lcp := AbcAbcLcpTable;
    assert lcp[2] == 3;
    assert forall q :: 0 <= q < 7 && q != 2 ==> lcp[q] < 3;
  }

  /** "abcabc$" has 28 - 6 = 22 distinct non-empty substrings. */
  lemma AbcAbcDistinctCount()
    ensures |Substrings(AbcAbcText)| == 22
  {
    AbcAbcSuffixArray();
    AbcAbcLcp();
    DistinctSubstringCount(AbcAbcText, AbcAbcOrder);
    AbcAbcLcpSum();
  }

  /** The LCP entries of "abcabc$" add up to 6. */
  lemma AbcAbcLcpSum()
    ensures Sum(AbcAbcLcpTable) == 6
  {
    var s := AbcAbcLcpTable;
    SumStep(s, 0); SumStep(s, 1); SumStep(s, 2); SumStep(s, 3);
    SumStep(s, 4); SumStep(s, 5); SumStep(s, 6);
    assert s[..7] == s;
  }

  /** [6, 3, 0, 4, 1, 5, 2] is a permutation of 0..6. */
  lemma AbcAbcPermutation()
    ensures IsPermutation(AbcAbcOrder, 7)
  {
    assert Iota(7) == [0, 1, 2, 3, 4, 5, 6];
    calc {
      multiset(AbcAbcOrder);
      multiset{6, 3, 0, 4, 1, 5, 2};
      multiset{0, 1, 2, 3, 4, 5, 6};
      multiset([0, 1, 2, 3, 4, 5, 6]);
    }
  }

  /** The suffixes ranked `r - 1` and `r` in "abcabc$": in order, sharing the listed prefix. */
  lemma AbcAbcAdjacent(r: int)
    requires 0 < r < 7
    ensures Less(AbcAbcText[AbcAbcOrder[r - 1]..], AbcAbcText[AbcAbcOrder[r]..])
    ensures Lcp(AbcAbcText[AbcAbcOrder[r - 1]..], AbcAbcText[AbcAbcOrder[r]..]) == AbcAbcLcpTable[r]
  {
    var t := AbcAbcText;
    if r == 1 {
      assert AbcAbcOrder[r - 1] == 6 && AbcAbcOrder[r] == 3 && AbcAbcLcpTable[r] == 0;
      assert t[6..] == [0x24] && t[3..] == [0x61, 0x62, 0x63, 0x24];
      Below([0x24], [0x61, 0x62, 0x63, 0x24], 0);
    } else if r == 2 {
      assert AbcAbcOrder[r - 1] == 3 && AbcAbcOrder[r] == 0 && AbcAbcLcpTable[r] == 3;
      assert t[3..] == [0x61, 0x62, 0x63, 0x24] && t[0..] == t;
      Below([0x61, 0x62, 0x63, 0x24], t, 3);
    } else if r == 3 {
      assert AbcAbcOrder[r - 1] == 0 && AbcAbcOrder[r] == 4 && AbcAbcLcpTable[r] == 0;
      assert t[0..] == t && t[4..] == [0x62, 0x63, 0x24];
      Below(t, [0x62, 0x63, 0x24], 0);
    } else if r == 4 {
      assert AbcAbcOrder[r - 1] == 4 && AbcAbcOrder[r] == 1 && AbcAbcLcpTable[r] == 2;
      assert t[4..] == [0x62, 0x63, 0x24] && t[1..] == [0x62, 0x63, 0x61, 0x62, 0x63, 0x24];
      Below([0x62, 0x63, 0x24], [0x62, 0x63, 0x61, 0x62, 0x63, 0x24], 2);
    } else if r == 5 {
      assert AbcAbcOrder[r - 1] == 1 && AbcAbcOrder[r] == 5 && AbcAbcLcpTable[r] == 0;
      assert t[1..] == [0x62, 0x63, 0x61, 0x62, 0x63, 0x24] && t[5..] == [0x63, 0x24];
      Below([0x62, 0x63, 0x61, 0x62, 0x63, 0x24], [0x63, 0x24], 0);
    } else {
      assert AbcAbcOrder[r - 1] == 5 && AbcAbcOrder[r] == 2 && AbcAbcLcpTable[r] == 1;
      assert t[5..] == [0x63, 0x24] && t[2..] == [0x63, 0x61, 0x62, 0x63, 0x24];
      Below([0x63, 0x24], [0x63, 0x61, 0x62, 0x63, 0x24], 1);
    }
  }

  /** `a` is below `b` when they share `h` units and then `a` ends or has the smaller unit. */
  lemma Below(a: Text, b: Text, h: nat)
    requires h <= |a| && h < |b| && a[..h] == b[..h]
    requires h == |a| || a[h] < b[h]
    ensures Lcp(a, b) == h && Less(a, b)
  {
    LcpExact(a, b, h);
  }
}
