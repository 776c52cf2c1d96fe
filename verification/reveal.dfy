/** The reveal animation of one highlighted segment (`HighlightSpan`): while
    the component is in view, a frame loop drives the eased progress from 0
    to 1 after a delay staggered by the segment's index; leaving the view
    resets it. Times are milliseconds of an abstract clock passed in as
    `now`; `delay` and `duration` are seconds, as in the props. */
module Reveal {

  /** Extra delay per highlighted segment, in seconds. */
  const StaggerSeconds: real := 0.25

  /** The animation parameters of one span. */
  datatype Timing = Timing(delay: real, duration: real, index: nat)

  /** The span's animation state: the rendered progress, the time at which
      sampling starts, and whether a frame callback is pending. */
  datatype Span = Span(progress: real, startTime: real, frameRequested: bool)

  function Min(a: real, b: real): real {
    if a <= b then a else b
  }

  /** `(delay + index * 0.25) * 1000`. */
  function TotalDelayMs(delay: real, index: nat): real {
    (delay + index as real * StaggerSeconds) * 1000.0
  }

  /** Cubic ease-out, `1 - (1 - p)^3`. */
  function Ease(p: real): real {
    1.0 - (1.0 - p) * (1.0 - p) * (1.0 - p)
  }

  /** The linear fraction `min(elapsed / dur, 1)`. */
  function Fraction(elapsed: real, durMs: real): real
    requires durMs > 0.0
  {
    Min(elapsed / durMs, 1.0)
  }

  /** The progress a frame at `elapsed` milliseconds (not negative) sets. */
  function ProgressAt(elapsed: real, durMs: real): real
    requires durMs > 0.0
  {
    Ease(Fraction(elapsed, durMs))
  }

  /** Cubing preserves order. */
  lemma CubeMonotone(a: real, b: real)
    requires a <= b
    ensures a * a * a <= b * b * b
  {
    var c := a + b / 2.0;
    var q := a * a + a * b + b * b;
    assert q == c * c + 3.0 * (b * b) / 4.0;
    assert c * c >= 0.0 && b * b >= 0.0;
    assert (b - a) * q >= 0.0;
    assert b * b * b - a * a * a == (b - a) * q;
  }

  /** The easing curve starts at 0, ends at 1, stays in `[0, 1]` on `[0, 1]`
      and never decreases. */
  lemma EaseShape(p: real, q: real)
    ensures Ease(0.0) == 0.0 && Ease(1.0) == 1.0
    ensures 0.0 <= p <= 1.0 ==> 0.0 <= Ease(p) <= 1.0
    ensures p <= q ==> Ease(p) <= Ease(q)
  {
    if p <= q {
      CubeMonotone(1.0 - q, 1.0 - p);
    }
    if 0.0 <= p <= 1.0 {
      CubeMonotone(0.0, 1.0 - p);
      CubeMonotone(1.0 - p, 1.0);
    }
  }

  /** Dividing by a positive number preserves order. */
  lemma DivMonotone(x: real, y: real, d: real)
    requires d > 0.0 && x <= y
    ensures x / d <= y / d
    ensures d / d == 1.0
  {
    var qx := x / d;
    var qy := y / d;
    assert qx * d == x && qy * d == y;
  }

  /** Dividing by a positive number keeps a number below it below 1. */
  lemma DivBelowOne(x: real, d: real)
    requires d > 0.0
    ensures x < d ==> x / d < 1.0
  {
    var q := x / d;
    assert q * d == x;
  }

  /** Sampled progress is 0 when sampling starts, 1 from the end of the
      duration on, within `[0, 1]`, and non-decreasing in elapsed time. */
  lemma ProgressShape(e1: real, e2: real, durMs: real)
    requires durMs > 0.0
    requires 0.0 <= e1 <= e2
    ensures ProgressAt(0.0, durMs) == 0.0
    ensures e1 >= durMs ==> ProgressAt(e1, durMs) == 1.0
    ensures 0.0 <= ProgressAt(e1, durMs) <= 1.0
    ensures ProgressAt(e1, durMs) <= ProgressAt(e2, durMs)
  {
    DivMonotone(e1, e2, durMs);
    DivMonotone(0.0, e1, durMs);
    if e1 >= durMs {
      DivMonotone(durMs, e1, durMs);
    }
    EaseShape(Fraction(e1, durMs), Fraction(e2, durMs));
    EaseShape(0.0, 0.0);
  }

  /** The span before anything happens: `useState(0)`, no frame pending. */
  function Initial(): Span {
    Span(0.0, 0.0, false)
  }

  /** Progress within `[0, 1]`. */
  predicate Valid(s: Span) {
    0.0 <= s.progress <= 1.0
  }

  /** The effect re-run on a change of `isInView` (or of the timing): the
      previous run's cleanup cancels any pending frame; out of view the
      progress is reset to 0 and nothing is scheduled; in view the start time
      is pushed back by the staggered delay and a frame is requested, the
      progress itself left as it is. */
  function OnViewChange(s: Span, isInView: bool, now: real, t: Timing): (s': Span)
    ensures !isInView ==> s'.progress == 0.0 && !s'.frameRequested
    ensures isInView ==> s'.progress == s.progress && s'.frameRequested
    ensures isInView ==> s'.startTime - now == (t.delay + t.index as real * 0.25) * 1000.0
  {
    if !isInView then Span(0.0, s.startTime, false)
    else Span(s.progress, now + TotalDelayMs(t.delay, t.index), true)
  }

  /** One `animate` callback at time `now`: before the start time it only
      asks for another frame; afterwards it sets the eased progress and asks
      for another frame only while the fraction is below 1. Without a
      pending frame nothing runs. */
  function OnFrame(s: Span, now: real, t: Timing): (s': Span)
    requires t.duration > 0.0
    ensures Valid(s) ==> Valid(s')
    ensures s'.startTime == s.startTime
    ensures !s.frameRequested ==> s' == s
    ensures s.frameRequested && now < s.startTime ==> s' == s
    ensures s.frameRequested && now - s.startTime >= t.duration * 1000.0 ==>
      s'.progress == 1.0 && !s'.frameRequested
    ensures s.frameRequested && now >= s.startTime ==>
      s'.progress == ProgressAt(now - s.startTime, t.duration * 1000.0)
    ensures s.frameRequested && now >= s.startTime ==>
      (s'.frameRequested <==> now - s.startTime < t.duration * 1000.0)
  {
    if !s.frameRequested then s
    else
      var elapsed := now - s.startTime;
      if elapsed < 0.0 then s
      else
        var p := Fraction(elapsed, t.duration * 1000.0);
        ProgressShape(elapsed, elapsed, t.duration * 1000.0);
        DivBelowOne(elapsed, t.duration * 1000.0);
        Span(Ease(p), s.startTime, p < 1.0)
  }

  /** Within one activation, later frames never show less progress. */
  lemma FramesMonotone(s: Span, t1: real, t2: real, t: Timing)
    requires t.duration > 0.0
    requires s.frameRequested && s.startTime <= t1 <= t2
    ensures OnFrame(OnFrame(s, t1, t), t2, t).progress >= OnFrame(s, t1, t).progress
  {
    var s1 := OnFrame(s, t1, t);
    if s1.frameRequested {
      ProgressShape(t1 - s.startTime, t2 - s.startTime, t.duration * 1000.0);
    }
  }

  /** Leaving the view discards all progress: whatever happened before, a
      re-activation starts again from 0 and the first frame after the start
      shows the eased value of the elapsed time alone. */
  lemma ReactivationRestarts(s: Span, tOut: real, tIn: real, tFrame: real, t: Timing)
    requires t.duration > 0.0
    ensures var s1 := OnViewChange(OnViewChange(s, false, tOut, t), true, tIn, t);
      && s1.progress == 0.0
      && (tFrame >= s1.startTime ==>
            OnFrame(s1, tFrame, t).progress == ProgressAt(tFrame - s1.startTime, t.duration * 1000.0))
  {
  }

  /** Stagger: two spans activated together, with the same delay and
      indices `i` and `i + 1`, start exactly 250 ms apart, and at any moment
      the later span shows no more progress than the earlier one. */
  lemma StaggerOrder(s: Span, now: real, delay: real, duration: real, i: nat, frameTime: real)
    requires duration > 0.0
    ensures var a := OnViewChange(s, true, now, Timing(delay, duration, i));
      var b := OnViewChange(s, true, now, Timing(delay, duration, i + 1));
      && b.startTime == a.startTime + 250.0
      && (frameTime >= b.startTime ==>
            ProgressAt(frameTime - b.startTime, duration * 1000.0)
              <= ProgressAt(frameTime - a.startTime, duration * 1000.0))
  {
    var a := OnViewChange(s, true, now, Timing(delay, duration, i));
    var b := OnViewChange(s, true, now, Timing(delay, duration, i + 1));
    assert b.startTime == a.startTime + 250.0;
    if frameTime >= b.startTime {
      ProgressShape(frameTime - b.startTime, frameTime - a.startTime, duration * 1000.0);
    }
  }

  /** Frames sampled at the given times, in order. */
  function Frames(s: Span, times: seq<real>, t: Timing): Span
    requires t.duration > 0.0
    decreases |times|
  {
    if |times| == 0 then s else Frames(OnFrame(s, times[0], t), times[1..], t)
  }

  /** The frame loop terminates: once a frame lands at or after the end of
      the duration, progress is 1 and no later frame changes anything. */
  lemma {:induction false} CompletionIsFinal(s: Span, times: seq<real>, t: Timing)
    requires t.duration > 0.0
    requires !s.frameRequested
    ensures Frames(s, times, t) == s
    decreases |times|
  {
    if |times| > 0 {
      CompletionIsFinal(OnFrame(s, times[0], t), times[1..], t);
    }
  }

  /** The frame loop ends: once a frame lands at or after the end of the
      duration, no frame is pending and progress is exactly 1, whatever
      frames follow. */
  lemma {:induction false} FramesComplete(s: Span, times: seq<real>, t: Timing)
    requires t.duration > 0.0
    requires !s.frameRequested ==> s.progress == 1.0
    requires !s.frameRequested || exists i :: 0 <= i < |times| && times[i] - s.startTime >= t.duration * 1000.0
    ensures !Frames(s, times, t).frameRequested && Frames(s, times, t).progress == 1.0
    decreases |times|
  {
    if !s.frameRequested {
      CompletionIsFinal(s, times, t);
    } else {
      var i :| 0 <= i < |times| && times[i] - s.startTime >= t.duration * 1000.0;
      var s1 := OnFrame(s, times[0], t);
      if s1.frameRequested {
        assert i != 0;
        assert times[1..][i - 1] == times[i];
      }
      FramesComplete(s1, times[1..], t);
    }
  }

  /** Before the component enters the view no frame runs, and after it has
      entered, progress stays within `[0, 1]` through any run of frames. */
  lemma FromInitial(now: real, times: seq<real>, t: Timing)
    requires t.duration > 0.0
    ensures Frames(Initial(), times, t) == Initial()
    ensures Valid(Frames(OnViewChange(Initial(), true, now, t), times, t))
  {
    CompletionIsFinal(Initial(), times, t);
    FramesValid(OnViewChange(Initial(), true, now, t), times, t);
  }

  /** Progress stays within `[0, 1]` through any run of frames. */
  lemma {:induction false} FramesValid(s: Span, times: seq<real>, t: Timing)
    requires t.duration > 0.0
    requires Valid(s)
    ensures Valid(Frames(s, times, t))
    decreases |times|
  {
    if |times| > 0 {
      FramesValid(OnFrame(s, times[0], t), times[1..], t);
    }
  }
}
