/** Worked examples of the highlighting pipeline on short texts, one stage
    at a time. */
module SegmenterCases {
  import opened TextSearch
  import opened Ranges
  import opened Segmenter

  /** Matches are found overlapping: the scan resumes one character after
      each hit, so "aa" occurs in "aaa" at 0 and at 1. */
  lemma OverlappingStarts()
    ensures Starts("aaa", "aa", 0) == [0, 1]
  {
    assert "aaa"[0..2] == "aa";
    assert "aaa"[1..3] == "aa";
  }

  /** Asking for the second occurrence keeps only the overlapping one. */
  lemma SecondOccurrence()
    ensures Matches("aaa", Pattern("aa", 2)) == [Range(1, 3)]
    ensures Matches("aaa", Pattern("aa", 0)) == [Range(0, 2), Range(1, 3)]
    ensures Matches("aaa", Pattern("aa", 3)) == []
    ensures Matches("aaa", Pattern("aa", -1)) == []
  {
    OverlappingStarts();
    MatchesSelect("aaa", Pattern("aa", 2));
    MatchesSelect("aaa", Pattern("aa", 0));
    MatchesSelect("aaa", Pattern("aa", 3));
    MatchesSelect("aaa", Pattern("aa", -1));
  }

  /** Selecting the second of three separated occurrences. */
  lemma SecondOfThree()
    ensures Matches("ab ab ab", Pattern("ab", 2)) == [Range(3, 5)]
  {
    var t := "ab ab ab";
    assert t[0..2] == "ab" && t[3..5] == "ab" && t[6..8] == "ab";
    assert t[1..3][0] == 'b' && t[2..4][0] == ' ' && t[4..6][0] == 'b' && t[5..7][0] == ' ';
    assert Starts(t, "ab", 0) == [0, 3, 6];
    MatchesSelect(t, Pattern("ab", 2));
  }

  /** The sort orders by start offset. */
  lemma SortExample()
    ensures SortByStart([Range(2, 5), Range(0, 3)]) == [Range(0, 3), Range(2, 5)]
  {
  }

  /** Overlapping ranges coalesce; touching ones stay separate. */
  lemma MergeExamples()
    ensures Merge([Range(0, 3), Range(2, 5)]) == [Range(0, 5)]
    ensures Merge([Range(0, 2), Range(2, 4)]) == [Range(0, 2), Range(2, 4)]
  {
  }

  /** What the grouping facts of the merge rule out: joining two touching
      matches into one range leaves a cut point inside it that lies strictly
      inside neither match, and splitting two overlapping matches leaves one
      of them inside no single range. */
  lemma GroupingExcludes()
    ensures !Justified([Range(0, 4)], [Range(0, 2), Range(2, 4)])
    ensures !Absorbs([Range(0, 3), Range(3, 5)], [Range(0, 3), Range(2, 5)])
  {
    var joined := [Range(0, 4)];
    var touching := [Range(0, 2), Range(2, 4)];
    assert Interior(joined[0], 2);
    assert !Interior(touching[0], 2) && !Interior(touching[1], 2);
    var split := [Range(0, 3), Range(3, 5)];
    var overlapping := [Range(0, 3), Range(2, 5)];
    assert !Inside(overlapping[1], split[0]) && !Inside(overlapping[1], split[1]);
  }

  /** The walk emits the highlighted run and then the plain tail. */
  lemma BuildExample()
    ensures Build("abcdef", [Range(0, 5)], 0, 0) == [Highlighted("abcde", 0), Plain("f")]
  {
    assert "abcdef"[0..5] == "abcde";
    assert "abcdef"[5..] == "f";
  }

  /** Two touching ranges give two adjacent highlighted runs with
      consecutive indices and no plain run between them. */
  lemma BuildTouching()
    ensures Build("abcd", [Range(0, 2), Range(2, 4)], 0, 0) == [Highlighted("ab", 0), Highlighted("cd", 1)]
  {
    assert "abcd"[0..2] == "ab";
    assert "abcd"[2..4] == "cd";
  }
}
