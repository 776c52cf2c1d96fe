/** The in-view gate of `BlurHighlight`: an intersection observer reports
    whether the container is intersecting, and the component keeps an
    `isInView` flag. In `once` mode the first intersection sets the flag for
    good and stops the observation. */
module Visibility {

  /** `isInView`, and whether the observer still delivers entries. */
  datatype Gate = Gate(inView: bool, observing: bool)

  /** `useState(false)` and `observer.observe(el)`. */
  function Initial(): Gate {
    Gate(false, true)
  }

  /** The observer callback for one entry. An intersecting entry sets the
      flag (and, in `once` mode, unobserves); a non-intersecting entry clears
      it unless in `once` mode. An unobserved element receives no entries. */
  function OnEntry(g: Gate, isIntersecting: bool, once: bool): (g': Gate)
    ensures !g.observing ==> g' == g
    ensures g.observing && isIntersecting ==> g'.inView && (g'.observing <==> !once)
    ensures g.observing && !isIntersecting ==> g'.observing && (g'.inView <==> g.inView && once)
  {
    if !g.observing then g
    else if isIntersecting then Gate(true, !once)
    else if !once then Gate(false, true)
    else g
  }

  /** A run of observer callbacks, in delivery order. Each element is the
      `isIntersecting` flag of the first entry of one callback: the callback
      destructures `[entry]` and reads no other entry of its batch. */
  function Run(g: Gate, entries: seq<bool>, once: bool): Gate
    decreases |entries|
  {
    if |entries| == 0 then g else Run(OnEntry(g, entries[0], once), entries[1..], once)
  }

  /** In `once` mode the flag never returns to false. */
  lemma {:induction false} OnceSticky(g: Gate, entries: seq<bool>)
    requires g.inView
    ensures Run(g, entries, true).inView
    decreases |entries|
  {
    if |entries| > 0 {
      OnceSticky(OnEntry(g, entries[0], true), entries[1..]);
    }
  }

  /** In `once` mode the component is in view after a run iff it already
      was, or it was still observed and some entry intersected. */
  lemma {:induction false} OnceInViewIff(g: Gate, entries: seq<bool>)
    ensures Run(g, entries, true).inView <==> g.inView || (g.observing && true in entries)
    decreases |entries|
  {
    if |entries| > 0 {
      var g1 := OnEntry(g, entries[0], true);
      OnceInViewIff(g1, entries[1..]);
      assert entries == [entries[0]] + entries[1..];
      if g.observing && !g.inView && !entries[0] {
        assert g1 == g;
      }
    }
  }

  /** From mount, in `once` mode: the component ends up in view iff some
      callback reported an intersection. */
  lemma OnceFromInitial(entries: seq<bool>)
    ensures Run(Initial(), entries, true).inView <==> true in entries
  {
    OnceInViewIff(Initial(), entries);
  }

  /** Without `once`, the observer stays attached and the flag follows the
      most recent entry. */
  lemma {:induction false} TracksLastEntry(g: Gate, entries: seq<bool>)
    requires g.observing
    ensures Run(g, entries, false).observing
    ensures |entries| > 0 ==> Run(g, entries, false).inView == entries[|entries| - 1]
    ensures |entries| == 0 ==> Run(g, entries, false) == g
    decreases |entries|
  {
    if |entries| > 0 {
      var g1 := OnEntry(g, entries[0], false);
      TracksLastEntry(g1, entries[1..]);
      if |entries| > 1 {
        assert entries[1..][|entries[1..]| - 1] == entries[|entries| - 1];
      }
    }
  }
}
