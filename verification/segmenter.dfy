/** The highlight segmenter of `BlurHighlight`: it finds every kept match of
    every pattern in the flattened text, sorts and merges the matches, and
    cuts the text into alternating plain and highlighted segments. */
module Segmenter {
  import opened TextSearch
  import opened Ranges

  /** An entry of `highlightedBits`: a bare string, or a string with an
      occurrence selector (0 selects every occurrence, `k` only the k-th). */
  datatype Bit = Word(text: string) | Nth(text: string, occurrence: int)

  /** A normalized pattern: `{text, occurrence}`. */
  datatype Pattern = Pattern(text: string, occurrence: int)

  /** One output segment; highlighted ones carry their running index. */
  datatype Segment = Plain(text: string) | Highlighted(text: string, index: nat)

  /** A bare string becomes `{text, occurrence: 0}`. */
  function Normalize(b: Bit): Pattern {
    match b
    case Word(t) => Pattern(t, 0)
    case Nth(t, k) => Pattern(t, k)
  }

  /** The scan loop only terminates for non-empty pattern text. */
  predicate NonEmptyPatterns(bits: seq<Bit>) {
    forall i :: 0 <= i < |bits| ==> |bits[i].text| > 0
  }

  // ---------------------------------------------------------------------
  // Occurrence selection
  // ---------------------------------------------------------------------

  /** Reference selection: position `i` is a kept match of `p` when it is the
      start of an occurrence of `p.text` whose 1-based rank among all
      (overlapping) occurrences is what the selector asks for. */
  ghost predicate Kept(text: string, p: Pattern, i: int) {
    var s := Starts(text, p.text, 0);
    exists k :: 0 <= k < |s| && s[k] == i && (p.occurrence == 0 || p.occurrence == k + 1)
  }

  /** Position `x` lies inside some kept match of `p`. */
  ghost predicate KeptCovers(text: string, p: Pattern, x: int) {
    exists i :: Kept(text, p, i) && i <= x < i + |p.text|
  }

  /** `R` is the range of a kept match of `p`. */
  ghost predicate KeptMatch(text: string, p: Pattern, R: Range) {
    Kept(text, p, R.start) && R.end == R.start + |p.text|
  }

  /** The occurrences the selector keeps, out of the occurrences `occs` that
      follow `count` already-counted ones. */
  function Pick(occs: seq<nat>, occurrence: int, count: nat): seq<nat> {
    if occurrence == 0 then occs
    else if count < occurrence <= count + |occs| then [occs[occurrence - count - 1]]
    else []
  }

  /** One range `[i, i + len)` per start `i`. */
  function ToRanges(starts: seq<nat>, len: nat): seq<Range> {
    if |starts| == 0 then [] else [Range(starts[0], starts[0] + len)] + ToRanges(starts[1..], len)
  }

  lemma {:induction false} ToRangesSpec(starts: seq<nat>, len: nat)
    ensures |ToRanges(starts, len)| == |starts|
    ensures forall k :: 0 <= k < |starts| ==> ToRanges(starts, len)[k] == Range(starts[k], starts[k] + len)
  {
    if |starts| > 0 {
      ToRangesSpec(starts[1..], len);
    }
  }

  /** Picking from a list whose head is the next occurrence: the head is
      kept iff the selector is 0 or names the current count plus one. */
  lemma PickStep(idx: nat, rest: seq<nat>, occurrence: int, count: nat)
    ensures Pick([idx] + rest, occurrence, count)
         == (if occurrence == 0 || occurrence == count + 1 then [idx] else []) + Pick(rest, occurrence, count + 1)
  {
    var s := [idx] + rest;
    if occurrence != 0 && occurrence != count + 1 && count + 1 < occurrence <= count + |s| {
      assert s[occurrence - count - 1] == rest[occurrence - (count + 1) - 1];
    }
  }

  lemma {:induction false} ToRangesConcat(a: seq<nat>, b: seq<nat>, len: nat)
    ensures ToRanges(a + b, len) == ToRanges(a, len) + ToRanges(b, len)
  {
    if |a| == 0 {
      assert a + b == b;
    } else {
      var head := [Range(a[0], a[0] + len)];
      assert (a + b)[0] == a[0];
      assert (a + b)[1..] == a[1..] + b;
      ToRangesConcat(a[1..], b, len);
      assert ToRanges(a + b, len) == head + (ToRanges(a[1..], len) + ToRanges(b, len));
      assert ToRanges(a, len) == head + ToRanges(a[1..], len);
    }
  }

  /** The `while (true)` loop for one pattern, resuming at `startIdx` after
      `count` occurrences: each hit is counted, kept if the selector matches
      the count, and the search resumes one position after the hit, so
      overlapping occurrences are all counted. */
  function Scan(text: string, pat: string, occurrence: int, startIdx: nat, count: nat): (r: seq<Range>)
    requires |pat| > 0
    decreases |text| - startIdx
    ensures r == ToRanges(Pick(Starts(text, pat, startIdx), occurrence, count), |pat|)
  {
    var idx := IndexOf(text, pat, startIdx);
    StartsAfterIndexOf(text, pat, startIdx);
    if idx == -1 then
      assert Pick([], occurrence, count) == [];
      []
    else
      var tail := Scan(text, pat, occurrence, idx + 1, count + 1);
      ScanStep(text, pat, occurrence, startIdx, count, idx, tail);
      (if occurrence == 0 || occurrence == count + 1 then [Range(idx, idx + |pat|)] else []) + tail
  }

  /** One hit of the scan peels the next occurrence off the reference list:
      the ranges the scan keeps from `startIdx` on are the hit (if the
      selector names it) followed by whatever it keeps after the hit. */
  lemma ScanStep(text: string, pat: string, occurrence: int, startIdx: nat, count: nat, idx: nat, tail: seq<Range>)
    requires |pat| > 0
    requires Starts(text, pat, startIdx) == [idx] + Starts(text, pat, idx + 1)
    requires tail == ToRanges(Pick(Starts(text, pat, idx + 1), occurrence, count + 1), |pat|)
    ensures ToRanges(Pick(Starts(text, pat, startIdx), occurrence, count), |pat|)
         == (if occurrence == 0 || occurrence == count + 1 then [Range(idx, idx + |pat|)] else []) + tail
  {
    PickRangesStep(idx, Starts(text, pat, idx + 1), occurrence, count, |pat|);
  }

  /** Picking from, then building ranges of, a list headed by `idx`. */
  lemma PickRangesStep(idx: nat, rest: seq<nat>, occurrence: int, count: nat, len: nat)
    ensures ToRanges(Pick([idx] + rest, occurrence, count), len)
         == (if occurrence == 0 || occurrence == count + 1 then [Range(idx, idx + len)] else [])
            + ToRanges(Pick(rest, occurrence, count + 1), len)
  {
    var kept := occurrence == 0 || occurrence == count + 1;
    var later := Pick(rest, occurrence, count + 1);
    var head: seq<nat> := if kept then [idx] else [];
    PickStep(idx, rest, occurrence, count);
    ToRangesConcat(head, later, len);
    assert ToRanges(head, len) == (if kept then [Range(idx, idx + len)] else []) by {
      if kept {
        assert ToRanges(head, len) == [Range(idx, idx + len)] + ToRanges([], len);
      }
    }
  }

  /** Membership in the picked list is exactly the reference selection. */
  lemma PickIsKept(text: string, p: Pattern, i: int)
    ensures i in Pick(Starts(text, p.text, 0), p.occurrence, 0) <==> Kept(text, p, i)
  {
    var s := Starts(text, p.text, 0);
    if i in Pick(s, p.occurrence, 0) {
      if p.occurrence == 0 {
        var k :| 0 <= k < |s| && s[k] == i;
      } else {
        assert s[p.occurrence - 1] == i;
      }
    }
  }

  lemma {:induction false} CoversToRanges(s: seq<nat>, len: nat, x: int)
    ensures Covers(ToRanges(s, len), x) <==> exists i :: i in s && i <= x < i + len
  {
    if |s| > 0 {
      CoversToRanges(s[1..], len, x);
      CoversConcat([Range(s[0], s[0] + len)], ToRanges(s[1..], len), x);
      CoversSingleton(Range(s[0], s[0] + len), x);
      assert s == [s[0]] + s[1..];
      if exists i :: i in s && i <= x < i + len {
        var i :| i in s && i <= x < i + len;
        assert i == s[0] || i in s[1..];
      }
      if Covers(ToRanges(s[1..], len), x) {
        var i :| i in s[1..] && i <= x < i + len;
        assert i in s;
      }
      assert s[0] in s;
    }
  }

  /** The picked occurrences are among all occurrences. */
  lemma PickSubset(s: seq<nat>, occurrence: int, count: nat)
    ensures forall i :: i in Pick(s, occurrence, count) ==> i in s
  {
  }

  /** The matches of one pattern: one range `[i, i + |p.text|)` for each
      kept occurrence start `i`; together they cover exactly the positions
      inside kept occurrences, and all lie inside the text. */
  function Matches(text: string, p: Pattern): (r: seq<Range>)
    requires |p.text| > 0
    ensures WellFormed(r, |text|)
    ensures forall R :: R in r <==> KeptMatch(text, p, R)
    ensures forall x :: Covers(r, x) <==> KeptCovers(text, p, x)
  {
    var s := Starts(text, p.text, 0);
    var picked := Pick(s, p.occurrence, 0);
    PickSubset(s, p.occurrence, 0);
    StartsSpec(text, p.text, 0);
    ToRangesSpec(picked, |p.text|);
    assert forall x :: Covers(ToRanges(picked, |p.text|), x) <==> KeptCovers(text, p, x) by {
      forall x
        ensures Covers(ToRanges(picked, |p.text|), x) <==> KeptCovers(text, p, x)
      {
        CoversToRanges(picked, |p.text|, x);
        if KeptCovers(text, p, x) {
          var i :| Kept(text, p, i) && i <= x < i + |p.text|;
          PickIsKept(text, p, i);
        }
        if exists i :: i in picked && i <= x < i + |p.text| {
          var i :| i in picked && i <= x < i + |p.text|;
          PickIsKept(text, p, i);
        }
      }
    }
    assert WellFormed(ToRanges(picked, |p.text|), |text|) by {
      forall k | 0 <= k < |picked|
        ensures Occurs(text, p.text, picked[k])
      {
        assert picked[k] in s;
      }
    }
    assert forall R :: R in ToRanges(picked, |p.text|) <==> KeptMatch(text, p, R) by {
      forall R
        ensures R in ToRanges(picked, |p.text|) <==> KeptMatch(text, p, R)
      {
        InToRanges(picked, |p.text|, R);
        PickIsKept(text, p, R.start);
      }
    }
    Scan(text, p.text, p.occurrence, 0, 0)
  }

  /** A range is among those built from `starts` iff it starts at one of
      them and has length `len`. */
  lemma InToRanges(starts: seq<nat>, len: nat, R: Range)
    ensures R in ToRanges(starts, len) <==> R.start in starts && R.end == R.start + len
  {
    ToRangesSpec(starts, len);
    var rs := ToRanges(starts, len);
    if R in rs {
      var k :| 0 <= k < |rs| && rs[k] == R;
      assert starts[k] == R.start;
    }
    if R.start in starts && R.end == R.start + len {
      var k :| 0 <= k < |starts| && starts[k] == R.start;
      assert rs[k] == R;
    }
  }

  /** Selection on a list of occurrences, turned into ranges. */
  lemma SelectRanges(s: seq<nat>, occurrence: int, len: nat)
    ensures occurrence == 0 ==>
      |ToRanges(Pick(s, occurrence, 0), len)| == |s|
      && forall k :: 0 <= k < |s| ==> ToRanges(Pick(s, occurrence, 0), len)[k] == Range(s[k], s[k] + len)
    ensures 0 < occurrence <= |s| ==>
      ToRanges(Pick(s, occurrence, 0), len) == [Range(s[occurrence - 1], s[occurrence - 1] + len)]
    ensures occurrence < 0 || occurrence > |s| ==> ToRanges(Pick(s, occurrence, 0), len) == []
  {
    if occurrence == 0 {
      ToRangesSpec(s, len);
    } else if 0 < occurrence <= |s| {
      assert Pick(s, occurrence, 0) == [s[occurrence - 1]];
      ToRangesSpec([s[occurrence - 1]], len);
    }
  }

  /** Occurrence selection: selector 0 keeps every (overlapping) occurrence,
      `k > 0` keeps only the k-th one, and a `k` beyond the number of
      occurrences (or a negative one) keeps nothing. */
  lemma MatchesSelect(text: string, p: Pattern)
    requires |p.text| > 0
    ensures var s := Starts(text, p.text, 0);
      && (p.occurrence == 0 ==>
            (|Matches(text, p)| == |s|
             && forall k :: 0 <= k < |s| ==> Matches(text, p)[k] == Range(s[k], s[k] + |p.text|)))
      && (0 < p.occurrence <= |s| ==>
            Matches(text, p) == [Range(s[p.occurrence - 1], s[p.occurrence - 1] + |p.text|)])
      && (p.occurrence < 0 || p.occurrence > |s| ==> Matches(text, p) == [])
  {
    var s := Starts(text, p.text, 0);
    assert Matches(text, p) == ToRanges(Pick(s, p.occurrence, 0), |p.text|) by {
      assert Matches(text, p) == Scan(text, p.text, p.occurrence, 0, 0);
    }
    SelectRanges(s, p.occurrence, |p.text|);
  }

  /** The pooled matches of all patterns, in pattern order (`forEach` with
      `push`). */
  function Positions(text: string, bits: seq<Bit>): (r: seq<Range>)
    requires NonEmptyPatterns(bits)
    ensures WellFormed(r, |text|)
    ensures forall R :: R in r <==> exists j :: 0 <= j < |bits| && KeptMatch(text, Normalize(bits[j]), R)
    ensures forall x :: Covers(r, x) <==> exists j :: 0 <= j < |bits| && KeptCovers(text, Normalize(bits[j]), x)
  {
    if |bits| == 0 then []
    else
      var first := Matches(text, Normalize(bits[0]));
      var rest := Positions(text, bits[1..]);
      PoolCovers(text, bits, first, rest);
      PoolMatches(text, bits, first, rest);
      first + rest
  }

  /** Pooling the first pattern's matches with the others' pools the
      positions they cover. */
  lemma PoolCovers(text: string, bits: seq<Bit>, first: seq<Range>, rest: seq<Range>)
    requires |bits| > 0
    requires forall x :: Covers(first, x) <==> KeptCovers(text, Normalize(bits[0]), x)
    requires forall x :: Covers(rest, x) <==>
      exists j :: 0 <= j < |bits[1..]| && KeptCovers(text, Normalize(bits[1..][j]), x)
    ensures forall x :: Covers(first + rest, x) <==>
      exists j :: 0 <= j < |bits| && KeptCovers(text, Normalize(bits[j]), x)
  {
    forall x
      ensures Covers(first + rest, x) <==> exists j :: 0 <= j < |bits| && KeptCovers(text, Normalize(bits[j]), x)
    {
      CoversConcat(first, rest, x);
      if exists j :: 0 <= j < |bits| && KeptCovers(text, Normalize(bits[j]), x) {
        var j :| 0 <= j < |bits| && KeptCovers(text, Normalize(bits[j]), x);
        if j > 0 {
          assert bits[1..][j - 1] == bits[j];
        }
      }
      if Covers(rest, x) {
        var j :| 0 <= j < |bits[1..]| && KeptCovers(text, Normalize(bits[1..][j]), x);
        assert bits[1..][j] == bits[j + 1];
      }
    }
  }

  /** Pooling the first pattern's matches with the others' pools the
      matches themselves. */
  lemma PoolMatches(text: string, bits: seq<Bit>, first: seq<Range>, rest: seq<Range>)
    requires |bits| > 0
    requires forall R :: R in first <==> KeptMatch(text, Normalize(bits[0]), R)
    requires forall R :: R in rest <==>
      exists j :: 0 <= j < |bits[1..]| && KeptMatch(text, Normalize(bits[1..][j]), R)
    ensures forall R :: R in first + rest <==>
      exists j :: 0 <= j < |bits| && KeptMatch(text, Normalize(bits[j]), R)
  {
    forall R
      ensures R in first + rest <==> exists j :: 0 <= j < |bits| && KeptMatch(text, Normalize(bits[j]), R)
    {
      if exists j :: 0 <= j < |bits| && KeptMatch(text, Normalize(bits[j]), R) {
        var j :| 0 <= j < |bits| && KeptMatch(text, Normalize(bits[j]), R);
        if j > 0 {
          assert bits[1..][j - 1] == bits[j];
        }
      }
      if R in rest {
        var j :| 0 <= j < |bits[1..]| && KeptMatch(text, Normalize(bits[1..][j]), R);
        assert bits[1..][j] == bits[j + 1];
      }
    }
  }

  // ---------------------------------------------------------------------
  // Segments
  // ---------------------------------------------------------------------

  /** The segment texts joined in order. */
  function Concat(segs: seq<Segment>): string {
    if |segs| == 0 then "" else segs[0].text + Concat(segs[1..])
  }

  /** `n` copies of `b`. */
  function Repeat(n: nat, b: bool): (r: seq<bool>)
    ensures |r| == n && forall i :: 0 <= i < n ==> r[i] == b
  {
    seq(n, _ => b)
  }

  /** Per character of the joined text: does it belong to a highlighted
      segment? */
  function Mask(segs: seq<Segment>): seq<bool> {
    if |segs| == 0 then [] else Repeat(|segs[0].text|, segs[0].Highlighted?) + Mask(segs[1..])
  }

  /** The indices of the highlighted segments, left to right. */
  function HighlightIndices(segs: seq<Segment>): seq<nat> {
    if |segs| == 0 then []
    else (if segs[0].Highlighted? then [segs[0].index] else []) + HighlightIndices(segs[1..])
  }

  /** The highlighted segments, left to right. */
  function Highlights(segs: seq<Segment>): seq<Segment> {
    if |segs| == 0 then []
    else (if segs[0].Highlighted? then [segs[0]] else []) + Highlights(segs[1..])
  }

  /** No segment is empty, and a plain segment is never followed by another
      plain one. */
  predicate WellSegmented(segs: seq<Segment>) {
    forall i :: 0 <= i < |segs| ==>
      |segs[i].text| > 0 && (segs[i].Plain? && i + 1 < |segs| ==> segs[i + 1].Highlighted?)
  }

  /** Joining, masking and index collection all distribute over `+`. */
  lemma ConcatAppend(a: seq<Segment>, b: seq<Segment>)
    ensures Concat(a + b) == Concat(a) + Concat(b)
    ensures Mask(a + b) == Mask(a) + Mask(b)
    ensures HighlightIndices(a + b) == HighlightIndices(a) + HighlightIndices(b)
  {
    TextAppend(a, b);
    MaskAppend(a, b);
    IndicesAppend(a, b);
  }

  lemma Assoc<T>(x: seq<T>, y: seq<T>, z: seq<T>)
    ensures x + (y + z) == (x + y) + z
  {
  }

  lemma {:induction false} TextAppend(a: seq<Segment>, b: seq<Segment>)
    ensures Concat(a + b) == Concat(a) + Concat(b)
  {
    if |a| == 0 {
      assert a + b == b;
    } else {
      var head := a[0].text;
      TextAppend(a[1..], b);
      assert Concat(a) == head + Concat(a[1..]);
      assert Concat(a + b) == head + Concat(a[1..] + b) by {
        assert (a + b)[0] == a[0];
        assert (a + b)[1..] == a[1..] + b;
      }
      Assoc(head, Concat(a[1..]), Concat(b));
    }
  }

  lemma {:induction false} MaskAppend(a: seq<Segment>, b: seq<Segment>)
    ensures Mask(a + b) == Mask(a) + Mask(b)
  {
    if |a| == 0 {
      assert a + b == b;
    } else {
      var head := Repeat(|a[0].text|, a[0].Highlighted?);
      MaskAppend(a[1..], b);
      assert Mask(a + b) == head + (Mask(a[1..]) + Mask(b)) by {
        assert (a + b)[0] == a[0];
        assert (a + b)[1..] == a[1..] + b;
      }
      Assoc(head, Mask(a[1..]), Mask(b));
    }
  }

  lemma {:induction false} IndicesAppend(a: seq<Segment>, b: seq<Segment>)
    ensures HighlightIndices(a + b) == HighlightIndices(a) + HighlightIndices(b)
  {
    if |a| == 0 {
      assert a + b == b;
    } else {
      var head: seq<nat> := if a[0].Highlighted? then [a[0].index] else [];
      IndicesAppend(a[1..], b);
      assert HighlightIndices(a + b) == head + (HighlightIndices(a[1..]) + HighlightIndices(b)) by {
        assert (a + b)[0] == a[0];
        assert (a + b)[1..] == a[1..] + b;
      }
      Assoc(head, HighlightIndices(a[1..]), HighlightIndices(b));
    }
  }

  lemma {:induction false} HighlightsAppend(a: seq<Segment>, b: seq<Segment>)
    ensures Highlights(a + b) == Highlights(a) + Highlights(b)
  {
    if |a| == 0 {
      assert a + b == b;
    } else {
      var head := if a[0].Highlighted? then [a[0]] else [];
      HighlightsAppend(a[1..], b);
      assert Highlights(a + b) == head + (Highlights(a[1..]) + Highlights(b)) by {
        assert (a + b)[0] == a[0];
        assert (a + b)[1..] == a[1..] + b;
      }
      Assoc(head, Highlights(a[1..]), Highlights(b));
    }
  }

  lemma {:induction false} WellSegmentedJoin(a: seq<Segment>, b: seq<Segment>)
    requires WellSegmented(a) && WellSegmented(b)
    requires |a| > 0 && |b| > 0 && a[|a| - 1].Plain? ==> b[0].Highlighted?
    ensures WellSegmented(a + b)
  {
  }

  /** The segment walk over the merged ranges (`merged.forEach`) from
      `cursor`, numbering highlighted segments from `hl`. */
  function Build(text: string, merged: seq<Range>, cursor: nat, hl: nat): seq<Segment>
    requires cursor <= |text|
    requires WellFormed(merged, |text|) && Separated(merged)
    requires |merged| > 0 ==> cursor <= merged[0].start
    decreases |merged|
  {
    if |merged| == 0 then
      if cursor < |text| then [Plain(text[cursor..])] else []
    else
      var m := merged[0];
      (if cursor < m.start then [Plain(text[cursor..m.start])] else [])
        + [Highlighted(text[m.start..m.end], hl)]
        + Build(text, merged[1..], m.end, hl + 1)
  }

  lemma SplitThree(s: string, a: nat, b: nat, c: nat)
    requires a <= b <= c <= |s|
    ensures s[a..] == s[a..b] + s[b..c] + s[c..]
  {
  }

  /** One step of the walk: the tail of the ranges still meets the walk's
      preconditions, and the walk is the gap, the first range and the rest. */
  lemma BuildUnfold(text: string, merged: seq<Range>, cursor: nat, hl: nat)
    requires cursor <= |text|
    requires WellFormed(merged, |text|) && Separated(merged)
    requires |merged| > 0 && cursor <= merged[0].start
    ensures cursor <= merged[0].start < merged[0].end <= |text|
    ensures WellFormed(merged[1..], |text|) && Separated(merged[1..])
    ensures |merged| > 1 ==> merged[0].end <= merged[1].start
    ensures Build(text, merged, cursor, hl)
         == (if cursor < merged[0].start then [Plain(text[cursor..merged[0].start])] else [])
            + [Highlighted(text[merged[0].start..merged[0].end], hl)]
            + Build(text, merged[1..], merged[0].end, hl + 1)
  {
  }

  /** The walk reproduces the text from `cursor` on. */
  lemma {:induction false} BuildConcat(text: string, merged: seq<Range>, cursor: nat, hl: nat)
    requires cursor <= |text|
    requires WellFormed(merged, |text|) && Separated(merged)
    requires |merged| > 0 ==> cursor <= merged[0].start
    ensures Concat(Build(text, merged, cursor, hl)) == text[cursor..]
    decreases |merged|
  {
    if |merged| == 0 {
      if cursor < |text| {
        assert Concat([Plain(text[cursor..])]) == text[cursor..] + Concat([]);
      }
    } else {
      var m := merged[0];
      var gap := if cursor < m.start then [Plain(text[cursor..m.start])] else [];
      var h := [Highlighted(text[m.start..m.end], hl)];
      var rest := Build(text, merged[1..], m.end, hl + 1);
      BuildUnfold(text, merged, cursor, hl);
      BuildConcat(text, merged[1..], m.end, hl + 1);
      ConcatOfStep(text, cursor, m.start, m.end, gap, h, rest);
    }
  }

  /** One step of the walk: the gap before a range, the range and the rest
      of the walk join to the text from the cursor on. */
  lemma ConcatOfStep(text: string, a: nat, b: nat, c: nat, gap: seq<Segment>, h: seq<Segment>, rest: seq<Segment>)
    requires a <= b <= c <= |text|
    requires gap == if a < b then [Plain(text[a..b])] else []
    requires |h| == 1 && h[0].text == text[b..c]
    requires Concat(rest) == text[c..]
    ensures Concat(gap + h + rest) == text[a..]
  {
    TextAppend(gap + h, rest);
    TextAppend(gap, h);
    assert Concat(h) == text[b..c] + Concat([]);
    if a < b {
      assert Concat(gap) == text[a..b] + Concat([]);
    }
    SplitThree(text, a, b, c);
  }

  /** The walk never emits an empty segment or two plain segments in a
      row. */
  lemma {:induction false} BuildWellSegmented(text: string, merged: seq<Range>, cursor: nat, hl: nat)
    requires cursor <= |text|
    requires WellFormed(merged, |text|) && Separated(merged)
    requires |merged| > 0 ==> cursor <= merged[0].start
    ensures WellSegmented(Build(text, merged, cursor, hl))
    decreases |merged|
  {
    if |merged| > 0 {
      var m := merged[0];
      var gap := if cursor < m.start then [Plain(text[cursor..m.start])] else [];
      var h := [Highlighted(text[m.start..m.end], hl)];
      BuildUnfold(text, merged, cursor, hl);
      BuildWellSegmented(text, merged[1..], m.end, hl + 1);
      WellSegmentedJoin(gap, h);
      WellSegmentedJoin(gap + h, Build(text, merged[1..], m.end, hl + 1));
    }
  }

  /** The walk numbers its highlighted segments `hl, hl + 1, ...`, one per
      merged range, left to right. */
  lemma {:induction false} BuildIndices(text: string, merged: seq<Range>, cursor: nat, hl: nat)
    requires cursor <= |text|
    requires WellFormed(merged, |text|) && Separated(merged)
    requires |merged| > 0 ==> cursor <= merged[0].start
    ensures |HighlightIndices(Build(text, merged, cursor, hl))| == |merged|
    ensures forall k :: 0 <= k < |merged| ==> HighlightIndices(Build(text, merged, cursor, hl))[k] == hl + k
    decreases |merged|
  {
    if |merged| > 0 {
      var m := merged[0];
      var gap := if cursor < m.start then [Plain(text[cursor..m.start])] else [];
      var h := [Highlighted(text[m.start..m.end], hl)];
      var rest := Build(text, merged[1..], m.end, hl + 1);
      BuildUnfold(text, merged, cursor, hl);
      BuildIndices(text, merged[1..], m.end, hl + 1);
      IndicesOfStep(gap, h, rest, hl);
      NumberedCons(hl, HighlightIndices(rest));
    }
  }

  /** Prepending `hl` to a run numbered from `hl + 1` gives a run numbered
      from `hl`. */
  lemma NumberedCons(hl: nat, tail: seq<nat>)
    requires forall k :: 0 <= k < |tail| ==> tail[k] == hl + 1 + k
    ensures forall k :: 0 <= k < |[hl] + tail| ==> ([hl] + tail)[k] == hl + k
  {
  }

  lemma IndicesOfStep(gap: seq<Segment>, h: seq<Segment>, rest: seq<Segment>, hl: nat)
    requires forall i :: 0 <= i < |gap| ==> gap[i].Plain?
    requires |gap| <= 1
    requires |h| == 1 && h[0] == Highlighted(h[0].text, hl)
    ensures HighlightIndices(gap + h + rest) == [hl] + HighlightIndices(rest)
  {
    ConcatAppend(gap + h, rest);
    ConcatAppend(gap, h);
    assert HighlightIndices(h) == [hl] + HighlightIndices([]);
    if |gap| == 1 {
      assert HighlightIndices(gap) == [] + HighlightIndices([]);
    }
  }

  /** The walk emits exactly one highlighted segment per merged range, in
      order: the k-th holds the text of the k-th range and is numbered
      `hl + k`. */
  lemma {:induction false} BuildHighlights(text: string, merged: seq<Range>, cursor: nat, hl: nat)
    requires cursor <= |text|
    requires WellFormed(merged, |text|) && Separated(merged)
    requires |merged| > 0 ==> cursor <= merged[0].start
    ensures |Highlights(Build(text, merged, cursor, hl))| == |merged|
    ensures forall k :: 0 <= k < |merged| ==>
      Highlights(Build(text, merged, cursor, hl))[k] == Highlighted(text[merged[k].start..merged[k].end], hl + k)
    decreases |merged|
  {
    if |merged| > 0 {
      BuildUnfold(text, merged, cursor, hl);
      BuildHighlights(text, merged[1..], merged[0].end, hl + 1);
      HighlightsStep(text, merged, cursor, hl);
    }
  }

  /** The inductive step of `BuildHighlights`, given the property for the
      rest of the walk. */
  lemma HighlightsStep(text: string, merged: seq<Range>, cursor: nat, hl: nat)
    requires cursor <= |text|
    requires WellFormed(merged, |text|) && Separated(merged)
    requires |merged| > 0 && cursor <= merged[0].start
    requires WellFormed(merged[1..], |text|) && Separated(merged[1..])
    requires |merged| > 1 ==> merged[0].end <= merged[1].start
    requires var rest := Build(text, merged[1..], merged[0].end, hl + 1);
      |Highlights(rest)| == |merged| - 1
      && forall k :: 0 <= k < |merged| - 1 ==>
           Highlights(rest)[k] == Highlighted(text[merged[k + 1].start..merged[k + 1].end], hl + 1 + k)
    ensures |Highlights(Build(text, merged, cursor, hl))| == |merged|
    ensures forall k :: 0 <= k < |merged| ==>
      Highlights(Build(text, merged, cursor, hl))[k] == Highlighted(text[merged[k].start..merged[k].end], hl + k)
  {
    var m := merged[0];
    var gap := if cursor < m.start then [Plain(text[cursor..m.start])] else [];
    var h := Highlighted(text[m.start..m.end], hl);
    var rest := Build(text, merged[1..], m.end, hl + 1);
    BuildUnfold(text, merged, cursor, hl);
    HighlightsOfStep(gap, h, rest);
    SlicesCons(text, merged, hl, Highlights(rest));
  }

  lemma HighlightsOfStep(gap: seq<Segment>, h: Segment, rest: seq<Segment>)
    requires gap == [] || gap == [Plain(gap[0].text)]
    requires h.Highlighted?
    ensures Highlights(gap + [h] + rest) == [h] + Highlights(rest)
  {
    HighlightsAppend(gap + [h], rest);
    HighlightsAppend(gap, [h]);
    assert Highlights([h]) == [h] + Highlights([]);
    if gap != [] {
      assert Highlights(gap) == [] + Highlights([]);
    }
  }

  /** Prepending the first range's segment to the segments of the other
      ranges, numbered from `hl + 1`, gives the segments of all ranges
      numbered from `hl`. */
  lemma SlicesCons(text: string, merged: seq<Range>, hl: nat, tail: seq<Segment>)
    requires WellFormed(merged, |text|) && |merged| > 0
    requires |tail| == |merged| - 1
    requires forall k :: 0 <= k < |tail| ==>
      tail[k] == Highlighted(text[merged[k + 1].start..merged[k + 1].end], hl + 1 + k)
    ensures forall k :: 0 <= k < |merged| ==>
      ([Highlighted(text[merged[0].start..merged[0].end], hl)] + tail)[k]
        == Highlighted(text[merged[k].start..merged[k].end], hl + k)
  {
    forall k | 0 <= k < |merged|
      ensures ([Highlighted(text[merged[0].start..merged[0].end], hl)] + tail)[k]
           == Highlighted(text[merged[k].start..merged[k].end], hl + k)
    {
      if k > 0 {
        assert tail[k - 1] == Highlighted(text[merged[k].start..merged[k].end], hl + 1 + (k - 1));
      }
    }
  }

  /** Nothing before the first of separated ranges is covered. */
  lemma NotCoveredBefore(merged: seq<Range>, n: int, x: int)
    requires WellFormed(merged, n) && Separated(merged)
    requires |merged| > 0 && x < merged[0].start
    ensures !Covers(merged, x)
  {
  }

  lemma MaskOfStep(gap: seq<Segment>, h: Segment, rest: seq<Segment>, g: nat, w: nat)
    requires gap == [] || gap == [Plain(gap[0].text)]
    requires g == if gap == [] then 0 else |gap[0].text|
    requires h.Highlighted? && w == |h.text|
    ensures Mask(gap + [h] + rest) == Repeat(g, false) + Repeat(w, true) + Mask(rest)
  {
    ConcatAppend(gap + [h], rest);
    ConcatAppend(gap, [h]);
    assert Mask([h]) == Repeat(w, true) + Mask([]);
    if gap != [] {
      assert Mask(gap) == Repeat(g, false) + Mask([]);
    }
  }

  /** A character from `cursor` on is highlighted iff a merged range covers
      it. */
  lemma {:induction false} BuildMask(text: string, merged: seq<Range>, cursor: nat, hl: nat)
    requires cursor <= |text|
    requires WellFormed(merged, |text|) && Separated(merged)
    requires |merged| > 0 ==> cursor <= merged[0].start
    ensures |Mask(Build(text, merged, cursor, hl))| == |text| - cursor
    ensures forall i :: 0 <= i < |text| - cursor ==>
      Mask(Build(text, merged, cursor, hl))[i] == Covers(merged, cursor + i)
    decreases |merged|
  {
    if |merged| == 0 {
      var b := Build(text, merged, cursor, hl);
      if cursor < |text| {
        assert Mask(b) == Repeat(|text| - cursor, false) + Mask([]);
      }
    } else {
      BuildUnfold(text, merged, cursor, hl);
      BuildMask(text, merged[1..], merged[0].end, hl + 1);
      MaskStep(text, merged, cursor, hl);
    }
  }

  /** The inductive step of `BuildMask`, given the property for the rest of
      the walk. */
  lemma MaskStep(text: string, merged: seq<Range>, cursor: nat, hl: nat)
    requires cursor <= |text|
    requires WellFormed(merged, |text|) && Separated(merged)
    requires |merged| > 0 && cursor <= merged[0].start
    requires WellFormed(merged[1..], |text|) && Separated(merged[1..])
    requires |merged| > 1 ==> merged[0].end <= merged[1].start
    requires merged[0].end <= |text|
    requires var rest := Build(text, merged[1..], merged[0].end, hl + 1);
      |Mask(rest)| == |text| - merged[0].end
      && forall i :: 0 <= i < |text| - merged[0].end ==> Mask(rest)[i] == Covers(merged[1..], merged[0].end + i)
    ensures |Mask(Build(text, merged, cursor, hl))| == |text| - cursor
    ensures forall i :: 0 <= i < |text| - cursor ==>
      Mask(Build(text, merged, cursor, hl))[i] == Covers(merged, cursor + i)
  {
    var m := merged[0];
    var gap := if cursor < m.start then [Plain(text[cursor..m.start])] else [];
    var h := Highlighted(text[m.start..m.end], hl);
    var rest := Build(text, merged[1..], m.end, hl + 1);
    BuildUnfold(text, merged, cursor, hl);
    MaskOfStep(gap, h, rest, m.start - cursor, m.end - m.start);
    MaskPoints(merged, |text|, cursor, Mask(Build(text, merged, cursor, hl)), Mask(rest));
  }

  /** `MaskAt` at every position from the cursor on. */
  lemma MaskPoints(merged: seq<Range>, n: int, cursor: nat, mask: seq<bool>, mr: seq<bool>)
    requires WellFormed(merged, n) && Separated(merged) && |merged| > 0
    requires cursor <= merged[0].start
    requires |mr| == n - merged[0].end
    requires forall j :: 0 <= j < n - merged[0].end ==> mr[j] == Covers(merged[1..], merged[0].end + j)
    requires mask == Repeat(merged[0].start - cursor, false) + Repeat(merged[0].end - merged[0].start, true) + mr
    ensures |mask| == n - cursor
    ensures forall i :: 0 <= i < n - cursor ==> mask[i] == Covers(merged, cursor + i)
  {
    forall i | 0 <= i < n - cursor
      ensures mask[i] == Covers(merged, cursor + i)
    {
      MaskAt(merged, n, cursor, i, mask, mr);
    }
  }

  /** The pointwise step of `BuildMask`: a position in the gap is not
      covered, one in the first range is, and one after it is covered iff
      the remaining ranges cover it. */
  lemma MaskAt(merged: seq<Range>, n: int, cursor: nat, i: nat, mask: seq<bool>, mr: seq<bool>)
    requires WellFormed(merged, n) && Separated(merged) && |merged| > 0
    requires cursor <= merged[0].start && cursor + i < n
    requires |mr| == n - merged[0].end
    requires forall j :: 0 <= j < n - merged[0].end ==> mr[j] == Covers(merged[1..], merged[0].end + j)
    requires mask == Repeat(merged[0].start - cursor, false) + Repeat(merged[0].end - merged[0].start, true) + mr
    ensures mask[i] == Covers(merged, cursor + i)
  {
    var m := merged[0];
    var x := cursor + i;
    if x < m.start {
      NotCoveredBefore(merged, n, x);
    } else if x < m.end {
      assert Within(merged[0], x);
    } else {
      assert mask[i] == mr[x - m.end];
      assert merged == [m] + merged[1..];
      CoversConcat([m], merged[1..], x);
      CoversSingleton(m, x);
    }
  }

  /** The pooled matches, sorted by start and merged: well-formed,
      ascending, pairwise disjoint ranges covering exactly the positions
      inside some kept match of some pattern. */
  function Merged(text: string, bits: seq<Bit>): (merged: seq<Range>)
    requires NonEmptyPatterns(bits)
    ensures WellFormed(merged, |text|) && Separated(merged)
    ensures forall x :: Covers(merged, x) <==> exists j :: 0 <= j < |bits| && KeptCovers(text, Normalize(bits[j]), x)
  {
    var positions := Positions(text, bits);
    var sorted := SortByStart(positions);
    WellFormedPermutation(positions, sorted, |text|);
    MergeSound(sorted, |text|);
    assert forall x :: Covers(sorted, x) <==> Covers(positions, x) by {
      forall x
        ensures Covers(sorted, x) <==> Covers(positions, x)
      {
        CoversPermutation(positions, sorted, x);
      }
    }
    Merge(sorted)
  }

  /** Stated over the kept matches themselves: every kept match of every
      pattern lies inside a single merged range, and every point strictly
      inside a merged range is strictly inside some kept match. So matches
      that overlap end up in one range, and matches that merely touch stay
      in separate ones unless a third match bridges them. */
  lemma MergedGroups(text: string, bits: seq<Bit>)
    requires NonEmptyPatterns(bits)
    ensures var merged := Merged(text, bits);
      forall j, R :: 0 <= j < |bits| && KeptMatch(text, Normalize(bits[j]), R) ==>
        exists k :: 0 <= k < |merged| && Inside(R, merged[k])
    ensures var merged := Merged(text, bits);
      forall k, y :: 0 <= k < |merged| && Interior(merged[k], y) ==>
        exists j, R :: 0 <= j < |bits| && KeptMatch(text, Normalize(bits[j]), R) && Interior(R, y)
  {
    var merged := Merged(text, bits);
    var positions := Positions(text, bits);
    var sorted := SortByStart(positions);
    assert merged == Merge(sorted);
    MergeGroups(sorted);
    GroupsPermutation(merged, sorted, positions);
    forall j, R | 0 <= j < |bits| && KeptMatch(text, Normalize(bits[j]), R)
      ensures exists k :: 0 <= k < |merged| && Inside(R, merged[k])
    {
      assert R in positions;
      var i :| 0 <= i < |positions| && positions[i] == R;
      var k := AbsorbedIn(merged, positions, i);
    }
    forall k, y | 0 <= k < |merged| && Interior(merged[k], y)
      ensures exists j, R :: 0 <= j < |bits| && KeptMatch(text, Normalize(bits[j]), R) && Interior(R, y)
    {
      var i :| 0 <= i < |positions| && Interior(positions[i], y);
      var R := positions[i];
      assert R in positions;
      var j :| 0 <= j < |bits| && KeptMatch(text, Normalize(bits[j]), R);
    }
  }

  /** The whole text as one plain segment: what an empty pattern list
      yields. */
  lemma WholeTextPlain(text: string)
    ensures Concat([Plain(text)]) == text
    ensures |Mask([Plain(text)])| == |text|
    ensures forall x :: 0 <= x < |text| ==> !Mask([Plain(text)])[x]
  {
    assert Concat([Plain(text)]) == text + Concat([]);
    assert Mask([Plain(text)]) == Repeat(|text|, false) + Mask([]);
  }

  /** The walk over the merged matches of a non-empty pattern list. */
  function Walk(text: string, bits: seq<Bit>): seq<Segment>
    requires NonEmptyPatterns(bits)
  {
    Build(text, Merged(text, bits), 0, 0)
  }

  /** Walking the merged ranges of a non-empty pattern list yields
      well-shaped, consecutively numbered segments that reproduce the text,
      and highlight exactly the characters inside kept matches. */
  lemma WalkSound(text: string, bits: seq<Bit>)
    requires NonEmptyPatterns(bits)
    ensures Concat(Walk(text, bits)) == text
    ensures WellSegmented(Walk(text, bits))
    ensures forall k :: 0 <= k < |HighlightIndices(Walk(text, bits))| ==> HighlightIndices(Walk(text, bits))[k] == k
    ensures |Mask(Walk(text, bits))| == |text|
    ensures forall x :: 0 <= x < |text| ==>
      (Mask(Walk(text, bits))[x] <==> exists j :: 0 <= j < |bits| && KeptCovers(text, Normalize(bits[j]), x))
  {
    var merged := Merged(text, bits);
    BuildConcat(text, merged, 0, 0);
    BuildWellSegmented(text, merged, 0, 0);
    BuildIndices(text, merged, 0, 0);
    BuildMask(text, merged, 0, 0);
  }

  /** The walk holds one highlighted segment per merged range, in order:
      the k-th is exactly the text of the k-th merged range, with index k. */
  lemma WalkHighlights(text: string, bits: seq<Bit>)
    requires NonEmptyPatterns(bits)
    ensures |Highlights(Walk(text, bits))| == |Merged(text, bits)|
    ensures var merged := Merged(text, bits);
      forall k :: 0 <= k < |merged| ==>
        Highlights(Walk(text, bits))[k] == Highlighted(text[merged[k].start..merged[k].end], k)
  {
    BuildHighlights(text, Merged(text, bits), 0, 0);
  }

  /** The `segments` memo: the text cut into plain and highlighted runs.
      Without patterns it is the whole text as one plain segment; otherwise
      the pooled matches are sorted by start, merged, and walked. The
      joined segments reproduce the text, and a character is highlighted iff
      it lies inside a kept match of some pattern. */
  function Segments(text: string, bits: seq<Bit>): (segs: seq<Segment>)
    requires NonEmptyPatterns(bits)
    ensures Concat(segs) == text
    ensures |bits| == 0 ==> segs == [Plain(text)]
    ensures |bits| > 0 ==> WellSegmented(segs)
    ensures |bits| > 0 ==> forall k :: 0 <= k < |HighlightIndices(segs)| ==> HighlightIndices(segs)[k] == k
    ensures |Mask(segs)| == |text|
    ensures forall x :: 0 <= x < |text| ==>
      (Mask(segs)[x] <==> exists j :: 0 <= j < |bits| && KeptCovers(text, Normalize(bits[j]), x))
    ensures |bits| > 0 ==> var merged := Merged(text, bits);
      && |Highlights(segs)| == |merged|
      && forall k :: 0 <= k < |merged| ==>
           Highlights(segs)[k] == Highlighted(text[merged[k].start..merged[k].end], k)
  {
    if |bits| == 0 then
      WholeTextPlain(text);
      [Plain(text)]
    else
      WalkSound(text, bits);
      WalkHighlights(text, bits);
      Walk(text, bits)
  }

  // ---------------------------------------------------------------------
  // Empty patterns
  // ---------------------------------------------------------------------

  /** The patterns with non-empty text, in their original order. */
  function NonEmptyOnly(bits: seq<Bit>): (r: seq<Bit>)
    ensures NonEmptyPatterns(r)
    ensures forall b :: b in r <==> b in bits && |b.text| > 0
    ensures NonEmptyPatterns(bits) ==> r == bits
  {
    if |bits| == 0 then []
    else
      var rest := NonEmptyOnly(bits[1..]);
      assert bits == [bits[0]] + bits[1..];
      (if |bits[0].text| > 0 then [bits[0]] else []) + rest
  }

  /** The segmenter with empty patterns skipped, so that it is defined for
      every pattern list: an empty pattern matches nowhere, and a list of
      nothing but empty patterns leaves the text as one plain segment. On
      lists without empty patterns it is `Segments`. */
  function GuardedSegments(text: string, bits: seq<Bit>): (segs: seq<Segment>)
    ensures NonEmptyPatterns(bits) ==> segs == Segments(text, bits)
    ensures Concat(segs) == text
    ensures |Mask(segs)| == |text|
    ensures forall x :: 0 <= x < |text| ==>
      (Mask(segs)[x] <==> exists b :: b in bits && |b.text| > 0 && KeptCovers(text, Normalize(b), x))
  {
    var segs := Segments(text, NonEmptyOnly(bits));
    forall x | 0 <= x < |text|
      ensures Mask(segs)[x] <==> exists b :: b in bits && |b.text| > 0 && KeptCovers(text, Normalize(b), x)
    {
      AmongNonEmpty(bits, b => KeptCovers(text, Normalize(b), x));
    }
    segs
  }

  /** Some pattern of `NonEmptyOnly(bits)` has property `P` iff some
      non-empty pattern of `bits` has it. */
  lemma AmongNonEmpty(bits: seq<Bit>, P: Bit -> bool)
    ensures (exists j :: 0 <= j < |NonEmptyOnly(bits)| && P(NonEmptyOnly(bits)[j]))
        ==> (exists b :: b in bits && |b.text| > 0 && P(b))
    ensures (exists b :: b in bits && |b.text| > 0 && P(b))
        ==> (exists j :: 0 <= j < |NonEmptyOnly(bits)| && P(NonEmptyOnly(bits)[j]))
  {
    var kept := NonEmptyOnly(bits);
    if exists b :: b in bits && |b.text| > 0 && P(b) {
      var b :| b in bits && |b.text| > 0 && P(b);
      assert b in kept;
      var j :| 0 <= j < |kept| && kept[j] == b;
    }
    if exists j :: 0 <= j < |kept| && P(kept[j]) {
      var j :| 0 <= j < |kept| && P(kept[j]);
      var b := kept[j];
      assert b in kept;
      assert b in bits && |b.text| > 0 && P(b);
      assert exists b :: b in bits && |b.text| > 0 && P(b);
    }
  }
}
