/** Plain, case-sensitive substring search, as JavaScript's
    `String.prototype.indexOf(search, fromIndex)` performs it, together with
    an independent reference list of every occurrence of a pattern. */
module TextSearch {

  /** `pat` occurs in `text` at position `i`. */
  predicate Occurs(text: string, pat: string, i: int) {
    0 <= i && i + |pat| <= |text| && text[i..i + |pat|] == pat
  }

  function Min(a: int, b: int): int {
    if a <= b then a else b
  }

  /** `text.indexOf(pat, from)`: the first position at or after `from` where
      `pat` occurs, or -1. A start beyond the end is clamped to `|text|`,
      which is where the empty pattern is then found. */
  function IndexOf(text: string, pat: string, from: nat): (r: int)
    decreases |text| - from
    ensures |pat| > 0 ==> (r == -1 <==> forall i :: from <= i ==> !Occurs(text, pat, i))
    ensures r != -1 ==> Occurs(text, pat, r)
    ensures r != -1 && (from <= |text| || |pat| > 0) ==> from <= r
    ensures forall i :: from <= i < r ==> !Occurs(text, pat, i)
    ensures |pat| == 0 ==> r == Min(from, |text|)
  {
    if from + |pat| > |text| then
      if |pat| == 0 then |text| else -1
    else if text[from..from + |pat|] == pat then
      assert Occurs(text, pat, from);
      from
    else
      IndexOf(text, pat, from + 1)
  }

  /** Strictly ascending sequence of positions. */
  predicate Ascending(s: seq<nat>) {
    forall i, j :: 0 <= i < j < |s| ==> s[i] < s[j]
  }

  /** Reference definition: every position at or after `from` where `pat`
      occurs, in ascending order. Occurrences may overlap. */
  function Starts(text: string, pat: string, from: nat): seq<nat>
    decreases |text| + 1 - from
  {
    if from > |text| then []
    else (if Occurs(text, pat, from) then [from] else []) + Starts(text, pat, from + 1)
  }

  /** The reference list holds exactly the occurrence positions at or after
      `from`, each once, in ascending order. */
  lemma {:induction false} StartsSpec(text: string, pat: string, from: nat)
    ensures forall i :: i in Starts(text, pat, from) <==> from <= i && Occurs(text, pat, i)
    ensures Ascending(Starts(text, pat, from))
    ensures forall k :: 0 <= k < |Starts(text, pat, from)| ==> from <= Starts(text, pat, from)[k]
    decreases |text| + 1 - from
  {
    if from <= |text| {
      StartsSpec(text, pat, from + 1);
    }
  }

  /** Skipping a stretch with no occurrence does not change the list. */
  lemma {:induction false} StartsSkip(text: string, pat: string, from: nat, to: nat)
    requires from <= to
    requires forall i :: from <= i < to ==> !Occurs(text, pat, i)
    ensures Starts(text, pat, from) == Starts(text, pat, to)
    decreases (to as int) - (from as int)
  {
    if from < to {
      if from <= |text| {
        assert !Occurs(text, pat, from);
        assert Starts(text, pat, from) == Starts(text, pat, from + 1);
      }
      StartsSkip(text, pat, from + 1, to);
    }
  }

  /** No occurrence at or after `from` leaves the reference list empty. */
  lemma {:induction false} StartsNone(text: string, pat: string, from: nat)
    requires forall i :: from <= i ==> !Occurs(text, pat, i)
    ensures Starts(text, pat, from) == []
    decreases |text| + 1 - from
  {
    if from <= |text| {
      assert !Occurs(text, pat, from);
      StartsNone(text, pat, from + 1);
    }
  }

  /** One `indexOf` step peels exactly the first element off the reference
      list: a miss means no occurrence is left, a hit at `idx` is the first
      one and the rest start at `idx + 1`. */
  lemma StartsAfterIndexOf(text: string, pat: string, from: nat)
    requires |pat| > 0
    ensures IndexOf(text, pat, from) == -1 ==> Starts(text, pat, from) == []
    ensures IndexOf(text, pat, from) != -1 ==>
      Starts(text, pat, from) == [IndexOf(text, pat, from)] + Starts(text, pat, IndexOf(text, pat, from) + 1)
  {
    var idx := IndexOf(text, pat, from);
    var s := Starts(text, pat, from);
    if idx == -1 {
      StartsNone(text, pat, from);
    } else {
      StartsSkip(text, pat, from, idx);
      assert idx <= |text|;
    }
  }

  /** With the empty pattern the search never reports a miss, and a search
      started past the end returns `|text|`, so resuming at `idx + 1` lands
      on the same start again: a scan loop over the empty pattern that
      stops only on a miss never finishes. */
  lemma EmptyPatternScanRepeats(text: string)
    ensures forall from: nat :: IndexOf(text, "", from) != -1
    ensures IndexOf(text, "", |text| + 1) + 1 == |text| + 1
    ensures IndexOf(text, "", 0) == 0
  {
  }
}
