/** The background sweep of a highlighted segment (`getHighlightStyle`): the
    highlight colour is painted as a background whose size grows with the
    eased progress along one axis, anchored at a fixed corner. */
module HighlightStyle {
  import opened Wrappers

  datatype Direction = Left | Right | Top | Bottom

  /** Percentages of a CSS `background-size` / `background-position` pair. */
  datatype Percent2 = Percent2(x: real, y: real)

  datatype Style = Style(size: Percent2, position: Percent2)

  /** The `highlightDirection` prop: omitted means `"left"`, and any value
      other than `"right"`, `"top"` or `"bottom"` falls to the `left` /
      `default` case of the switch. */
  function ParseDirection(d: Option<string>): Direction {
    var s := d.GetOr("left");
    if s == "right" then Right
    else if s == "top" then Top
    else if s == "bottom" then Bottom
    else Left
  }

  predicate Horizontal(d: Direction) {
    d == Left || d == Right
  }

  /** `getHighlightStyle(progress)` for direction `d`. The sweep runs along
      the direction's axis: the other axis is always fully painted, and the
      painted share of the box equals the progress. */
  function StyleFor(d: Direction, progress: real): (st: Style)
    ensures Horizontal(d) ==> st.size.y == 100.0
    ensures !Horizontal(d) ==> st.size.x == 100.0
    ensures (st.size.x / 100.0) * (st.size.y / 100.0) == progress
  {
    var p := progress * 100.0;
    match d
    case Right => Style(Percent2(p, 100.0), Percent2(100.0, 0.0))
    case Top => Style(Percent2(100.0, p), Percent2(0.0, 0.0))
    case Bottom => Style(Percent2(100.0, p), Percent2(0.0, 100.0))
    case Left => Style(Percent2(p, 100.0), Percent2(0.0, 0.0))
  }

  /** The anchor corner depends on the direction only, never on progress:
      `right` grows from the right edge, `bottom` from the bottom edge, and
      `left` and `top` from the top-left corner. */
  lemma AnchorFixed(d: Direction, p: real, q: real)
    ensures StyleFor(d, p).position == StyleFor(d, q).position
    ensures StyleFor(d, p).position
         == (match d
             case Right => Percent2(100.0, 0.0)
             case Bottom => Percent2(0.0, 100.0)
             case _ => Percent2(0.0, 0.0))
  {
  }

  /** Every direction paints nothing at progress 0 and the whole box at 1. */
  lemma SweepEnds(d: Direction)
    ensures StyleFor(d, 1.0).size == Percent2(100.0, 100.0)
    ensures StyleFor(d, 0.0).size.x * StyleFor(d, 0.0).size.y == 0.0
  {
  }

  /** An unrecognised direction string styles exactly like `left`. */
  lemma UnknownDirectionIsLeft(s: string, progress: real)
    requires s != "right" && s != "top" && s != "bottom"
    ensures StyleFor(ParseDirection(Some(s)), progress) == StyleFor(Left, progress)
    ensures StyleFor(ParseDirection(None), progress) == StyleFor(Left, progress)
  {
  }
}
