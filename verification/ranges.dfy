/** Half-open character ranges `[start, end)` and the two passes the
    segmenter runs over its pooled matches: a sort by start offset and a
    left-to-right merge that coalesces only strictly overlapping ranges. */
module Ranges {

  datatype Range = Range(start: int, end: int)

  /** Position `x` lies inside `r`. */
  predicate Within(r: Range, x: int) {
    r.start <= x < r.end
  }

  /** Position `x` lies inside some range of `rs`. */
  predicate Covers(rs: seq<Range>, x: int) {
    exists i :: 0 <= i < |rs| && Within(rs[i], x)
  }

  /** Every range is non-empty and lies inside a text of length `n`. */
  predicate WellFormed(rs: seq<Range>, n: int) {
    forall i :: 0 <= i < |rs| ==> 0 <= rs[i].start < rs[i].end <= n
  }

  predicate SortedByStart(rs: seq<Range>) {
    forall i, j :: 0 <= i < j < |rs| ==> rs[i].start <= rs[j].start
  }

  /** Each range ends at or before every later range starts: the ranges are
      ascending and pairwise disjoint, though neighbours may touch. */
  predicate Separated(rs: seq<Range>) {
    forall i, j :: 0 <= i < j < |rs| ==> rs[i].end <= rs[j].start
  }

  function Last(rs: seq<Range>): Range
    requires |rs| > 0
  {
    rs[|rs| - 1]
  }

  function Max(a: int, b: int): int {
    if a >= b then a else b
  }

  lemma CoversConcat(a: seq<Range>, b: seq<Range>, x: int)
    ensures Covers(a + b, x) <==> Covers(a, x) || Covers(b, x)
  {
    if Covers(a + b, x) {
      var i :| 0 <= i < |a + b| && Within((a + b)[i], x);
      if i >= |a| {
        assert Within(b[i - |a|], x);
      }
    }
    if Covers(a, x) {
      var i :| 0 <= i < |a| && Within(a[i], x);
      assert (a + b)[i] == a[i];
    }
    if Covers(b, x) {
      var i :| 0 <= i < |b| && Within(b[i], x);
      assert (a + b)[|a| + i] == b[i];
    }
  }

  lemma CoversSingleton(r: Range, x: int)
    ensures Covers([r], x) <==> Within(r, x)
  {
    assert [r][0] == r;
  }

  /** Reordering the ranges does not change which positions they cover. */
  lemma CoversPermutation(a: seq<Range>, b: seq<Range>, x: int)
    requires multiset(a) == multiset(b)
    ensures Covers(a, x) <==> Covers(b, x)
  {
    if Covers(a, x) {
      var i :| 0 <= i < |a| && Within(a[i], x);
      assert a[i] in multiset(b);
      var j :| 0 <= j < |b| && b[j] == a[i];
    }
    if Covers(b, x) {
      var i :| 0 <= i < |b| && Within(b[i], x);
      assert b[i] in multiset(a);
      var j :| 0 <= j < |a| && a[j] == b[i];
    }
  }

  /** A permutation of well-formed ranges is well formed. */
  lemma WellFormedPermutation(a: seq<Range>, b: seq<Range>, n: int)
    requires multiset(a) == multiset(b)
    requires WellFormed(a, n)
    ensures WellFormed(b, n)
  {
    forall j | 0 <= j < |b|
      ensures 0 <= b[j].start < b[j].end <= n
    {
      assert b[j] in multiset(a);
      var i :| 0 <= i < |a| && a[i] == b[j];
    }
  }

  // ---------------------------------------------------------------------
  // Sorting: `positions.sort((a, b) => a.start - b.start)`
  // ---------------------------------------------------------------------

  /** Inserts `r` into a sorted sequence, before the first range whose start
      is not smaller, so that equal starts keep their original order. */
  function Insert(r: Range, s: seq<Range>): (t: seq<Range>)
    requires SortedByStart(s)
    ensures SortedByStart(t)
    ensures multiset(t) == multiset(s) + multiset{r}
    ensures |t| == |s| + 1
    ensures t[0] == r || (|s| > 0 && t[0] == s[0])
  {
    if |s| == 0 || r.start <= s[0].start then
      [r] + s
    else
      assert s == [s[0]] + s[1..];
      [s[0]] + Insert(r, s[1..])
  }

  /** A stable sort of the pooled matches by start offset. */
  function SortByStart(s: seq<Range>): (t: seq<Range>)
    ensures SortedByStart(t)
    ensures multiset(t) == multiset(s)
  {
    if |s| == 0 then []
    else
      assert s == [s[0]] + s[1..];
      Insert(s[0], SortByStart(s[1..]))
  }

  // ---------------------------------------------------------------------
  // Merging: the `for (const pos of positions)` loop
  // ---------------------------------------------------------------------

  /** One iteration of the merge loop: a range that starts strictly before
      the end of the last merged range extends it; any other range,
      including one that only touches it, opens a new merged range. */
  function Step(acc: seq<Range>, pos: Range): seq<Range> {
    if |acc| > 0 && pos.start < Last(acc).end then
      acc[..|acc| - 1] + [Range(Last(acc).start, Max(Last(acc).end, pos.end))]
    else
      acc + [pos]
  }

  function MergeFrom(acc: seq<Range>, rest: seq<Range>): seq<Range>
    decreases |rest|
  {
    if |rest| == 0 then acc else MergeFrom(Step(acc, rest[0]), rest[1..])
  }

  /** The merged ranges of a sorted sequence of matches. */
  function Merge(sorted: seq<Range>): seq<Range> {
    MergeFrom([], sorted)
  }

  /** One merge step keeps the merged ranges well formed and separated, and
      adds exactly the positions of `pos` to their coverage. */
  lemma StepSound(acc: seq<Range>, pos: Range, n: int)
    requires WellFormed(acc, n) && Separated(acc)
    requires 0 <= pos.start < pos.end <= n
    requires |acc| > 0 ==> Last(acc).start <= pos.start
    ensures WellFormed(Step(acc, pos), n) && Separated(Step(acc, pos))
    ensures |Step(acc, pos)| > 0
    ensures Last(Step(acc, pos)).start == pos.start || (|acc| > 0 && Last(Step(acc, pos)).start == Last(acc).start)
    ensures forall x :: Covers(Step(acc, pos), x) <==> Covers(acc, x) || Within(pos, x)
  {
    var r := Step(acc, pos);
    if |acc| > 0 && pos.start < Last(acc).end {
      var k := |acc| - 1;
      var m := Range(Last(acc).start, Max(Last(acc).end, pos.end));
      assert acc == acc[..k] + [Last(acc)];
      forall x
        ensures Covers(r, x) <==> Covers(acc, x) || Within(pos, x)
      {
        CoversConcat(acc[..k], [m], x);
        CoversConcat(acc[..k], [Last(acc)], x);
        CoversSingleton(m, x);
        CoversSingleton(Last(acc), x);
      }
    } else {
      forall x
        ensures Covers(r, x) <==> Covers(acc, x) || Within(pos, x)
      {
        CoversConcat(acc, [pos], x);
        CoversSingleton(pos, x);
      }
    }
  }

  /** The merge loop, from any accumulator it can reach, yields well-formed
      separated ranges covering exactly the accumulator's positions and the
      remaining matches' positions. */
  lemma {:induction false} MergeFromSound(acc: seq<Range>, rest: seq<Range>, n: int)
    requires WellFormed(acc, n) && Separated(acc)
    requires WellFormed(rest, n) && SortedByStart(rest)
    requires |acc| > 0 && |rest| > 0 ==> Last(acc).start <= rest[0].start
    ensures WellFormed(MergeFrom(acc, rest), n) && Separated(MergeFrom(acc, rest))
    ensures forall x :: Covers(MergeFrom(acc, rest), x) <==> Covers(acc, x) || Covers(rest, x)
    decreases |rest|
  {
    if |rest| > 0 {
      var pos := rest[0];
      var tail := rest[1..];
      var next := Step(acc, pos);
      StepSound(acc, pos, n);
      SortedTail(rest, n);
      MergeFromSound(next, tail, n);
      assert MergeFrom(acc, rest) == MergeFrom(next, tail);
      forall x
        ensures Covers(rest, x) <==> Within(pos, x) || Covers(tail, x)
      {
        CoversCons(rest, x);
      }
    }
  }

  /** The rest of a sorted well-formed list after its head. */
  lemma SortedTail(rest: seq<Range>, n: int)
    requires |rest| > 0 && WellFormed(rest, n) && SortedByStart(rest)
    ensures WellFormed(rest[1..], n) && SortedByStart(rest[1..])
    ensures |rest| > 1 ==> rest[0].start <= rest[1..][0].start
  {
  }

  /** A list covers a position iff its head or its tail does. */
  lemma CoversCons(rs: seq<Range>, x: int)
    requires |rs| > 0
    ensures Covers(rs, x) <==> Within(rs[0], x) || Covers(rs[1..], x)
  {
    assert rs == [rs[0]] + rs[1..];
    CoversConcat([rs[0]], rs[1..], x);
    CoversSingleton(rs[0], x);
  }

  /** The merged ranges of sorted well-formed matches are well formed,
      ascending and pairwise disjoint, and cover a position iff some match
      does. */
  lemma MergeSound(sorted: seq<Range>, n: int)
    requires WellFormed(sorted, n) && SortedByStart(sorted)
    ensures WellFormed(Merge(sorted), n) && Separated(Merge(sorted))
    ensures forall x :: Covers(Merge(sorted), x) <==> Covers(sorted, x)
    ensures Absorbs(Merge(sorted), sorted) && Justified(Merge(sorted), sorted)
  {
    MergeFromSound([], sorted, n);
    MergeGroups(sorted);
  }

  // ---------------------------------------------------------------------
  // Which matches are coalesced
  // ---------------------------------------------------------------------

  /** `r` lies inside `m`. */
  predicate Inside(r: Range, m: Range) {
    m.start <= r.start && r.end <= m.end
  }

  /** `y` lies strictly inside `r`: cutting `r` at `y` would split it. */
  predicate Interior(r: Range, y: int) {
    r.start < y < r.end
  }

  /** Every match of `done` lies inside a single range of `merged`: no
      match is split across merged ranges. */
  ghost predicate Absorbs(merged: seq<Range>, done: seq<Range>) {
    forall i :: 0 <= i < |done| ==> exists k :: 0 <= k < |merged| && Inside(done[i], merged[k])
  }

  /** Every point strictly inside a merged range is strictly inside some
      match of `done`: a merged range could not be cut in two without
      cutting a match, so ranges that merely touch are never joined. */
  ghost predicate Justified(merged: seq<Range>, done: seq<Range>) {
    forall k, y :: 0 <= k < |merged| && Interior(merged[k], y) ==>
      exists i :: 0 <= i < |done| && Interior(done[i], y)
  }

  /** The merged range a processed match lies inside. */
  lemma AbsorbedIn(merged: seq<Range>, done: seq<Range>, i: int) returns (k: int)
    requires Absorbs(merged, done) && 0 <= i < |done|
    ensures 0 <= k < |merged| && Inside(done[i], merged[k])
  {
    var m := done[i];
    k :| 0 <= k < |merged| && Inside(m, merged[k]);
  }

  /** One merge step keeps every processed match, the new one included,
      inside a single merged range. */
  lemma StepAbsorbs(acc: seq<Range>, done: seq<Range>, pos: Range)
    requires Absorbs(acc, done)
    requires |acc| > 0 ==> Last(acc).start <= pos.start
    ensures Absorbs(Step(acc, pos), done + [pos])
  {
    var r := Step(acc, pos);
    var d := done + [pos];
    var merging := |acc| > 0 && pos.start < Last(acc).end;
    // the merged range that receives `pos`
    var home := if merging then |acc| - 1 else |acc|;
    assert 0 <= home < |r| && Inside(pos, r[home]);
    forall i | 0 <= i < |d|
      ensures exists k :: 0 <= k < |r| && Inside(d[i], r[k])
    {
      if i < |done| {
        var k := AbsorbedIn(acc, done, i);
        assert d[i] == done[i];
        if merging && k == home {
          assert Inside(d[i], r[home]);
        } else {
          assert r[k] == acc[k];
          assert Inside(d[i], r[k]);
        }
      } else {
        assert Inside(d[i], r[home]);
      }
    }
  }

  /** One merge step only ever extends the last merged range across points
      that lie strictly inside the new match or were already justified. */
  lemma StepJustified(acc: seq<Range>, done: seq<Range>, pos: Range)
    requires Justified(acc, done)
    ensures Justified(Step(acc, pos), done + [pos])
  {
    var r := Step(acc, pos);
    var d := done + [pos];
    forall k, y | 0 <= k < |r| && Interior(r[k], y)
      ensures exists i :: 0 <= i < |d| && Interior(d[i], y)
    {
      if k < |acc| && (r[k] == acc[k] || y < acc[k].end) {
        assert Interior(acc[k], y);
        var i :| 0 <= i < |done| && Interior(done[i], y);
        assert d[i] == done[i];
      } else {
        assert Interior(d[|done|], y);
      }
    }
  }

  /** The merge loop from any accumulator: the invariants above extend to
      every match it goes on to process. */
  lemma {:induction false} MergeFromShape(acc: seq<Range>, done: seq<Range>, rest: seq<Range>)
    requires Absorbs(acc, done) && Justified(acc, done)
    requires SortedByStart(rest)
    requires |acc| > 0 && |rest| > 0 ==> Last(acc).start <= rest[0].start
    ensures Absorbs(MergeFrom(acc, rest), done + rest)
    ensures Justified(MergeFrom(acc, rest), done + rest)
    decreases |rest|
  {
    if |rest| == 0 {
      assert done + rest == done;
    } else {
      var pos := rest[0];
      StepAbsorbs(acc, done, pos);
      StepJustified(acc, done, pos);
      var next := Step(acc, pos);
      assert Last(next).start == pos.start || Last(next).start == Last(acc).start;
      MergeFromShape(next, done + [pos], rest[1..]);
      assert (done + [pos]) + rest[1..] == done + rest;
    }
  }

  /** The merged ranges are exactly the groups of matches chained together
      by strict overlap: every match lies inside one merged range, and every
      point strictly inside a merged range is strictly inside some match. */
  lemma MergeGroups(sorted: seq<Range>)
    requires SortedByStart(sorted)
    ensures Absorbs(Merge(sorted), sorted)
    ensures Justified(Merge(sorted), sorted)
  {
    MergeFromShape([], [], sorted);
    assert [] + sorted == sorted;
  }

  /** Reordering the matches changes neither property. */
  lemma GroupsPermutation(merged: seq<Range>, a: seq<Range>, b: seq<Range>)
    requires multiset(a) == multiset(b)
    requires Absorbs(merged, a) && Justified(merged, a)
    ensures Absorbs(merged, b) && Justified(merged, b)
  {
    forall j | 0 <= j < |b|
      ensures exists k :: 0 <= k < |merged| && Inside(b[j], merged[k])
    {
      assert b[j] in multiset(a);
      var i :| 0 <= i < |a| && a[i] == b[j];
    }
    forall k, y | 0 <= k < |merged| && Interior(merged[k], y)
      ensures exists j :: 0 <= j < |b| && Interior(b[j], y)
    {
      var i :| 0 <= i < |a| && Interior(a[i], y);
      assert a[i] in multiset(b);
      var j :| 0 <= j < |b| && b[j] == a[i];
    }
  }

  /** Only strictly overlapping ranges are coalesced: a range that starts
      exactly where the last merged range ends is kept apart. */
  lemma StepCoalescesOnlyOverlap(acc: seq<Range>, pos: Range)
    requires |acc| > 0
    ensures |Step(acc, pos)| == |acc| <==> pos.start < Last(acc).end
    ensures pos.start == Last(acc).end ==> Step(acc, pos) == acc + [pos]
  {
  }
}
