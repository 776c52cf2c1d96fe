# BlurHighlight and ThemeToggle, modelled in Dafny

This project models the two pieces of logic in the component gallery that
compute something. Everything else in the gallery renders markup.

- **`BlurHighlight`** turns a tree of children into plain text. It finds every
  kept occurrence of each highlight pattern, sorts and merges the matches, and
  cuts the text into alternating plain and highlighted segments. Highlighted
  segments are numbered left to right. When the container scrolls into view,
  each highlighted segment sweeps its background in along one axis. The sweep
  uses cubic ease-out and is staggered by 250 ms per segment index.
- **`ThemeToggle`** cycles light → dark → system. It persists the choice under
  the storage key `theme` and applies it to the document root: a `dark` class
  plus a `color-scheme` value. It re-applies the system theme when the
  operating system's preference changes, if the stored choice is `system`.

Modules (one file each):

| module | file | models |
|---|---|---|
| `Wrappers` | `wrappers.dfy` | `Option` |
| `TextFlatten` | `text_flatten.dfy` | `extract` and the text source of the component |
| `TextSearch` | `text_search.dfy` | `String.prototype.indexOf` and a reference list of occurrence positions |
| `Ranges` | `ranges.dfy` | the sort of the pooled matches and the overlap merge |
| `Segmenter` | `segmenter.dfy` | the per-pattern scan loop, pooling, the segment walk, the whole `segments` memo |
| `SegmenterCases` | `segmenter_cases.dfy` | worked examples of each pipeline stage |
| `HighlightStyle` | `highlight_style.dfy` | `getHighlightStyle` and the direction prop |
| `Reveal` | `reveal.dfy` | the `HighlightSpan` effect: delay, stagger, frame loop, easing |
| `Visibility` | `visibility.dfy` | the intersection-observer callback and `once` mode |
| `ThemeToggle` | `theme_toggle.dfy` | stored-value validation, `getSystemTheme`, `applyTheme`, `cycleTheme`, mount, the media-query listener |

Modelling choices:

- **Positions and text.** Text positions are unbounded integers. Strings are
  `seq<char>`, and a string index is a sequence index. A Dafny `char` is a
  Unicode scalar value, while JavaScript indexes strings by UTF-16 code unit.
  So the model's positions and lengths agree with the component's only for
  text within the Basic Multilingual Plane. A character outside it, such as
  an emoji, is two positions in the component and one in the model.
- **Reference definitions.** The segmenter and the text flattening are
  checked against independent reference definitions.
  - `Starts` lists all overlapping occurrence positions.
  - `Kept` / `KeptCovers` / `KeptMatch` say which occurrences a selector
    keeps, by rank.
  - `Covers` is the set of positions a list of ranges covers.
  - `Inside` / `Interior` say which matches a merged range absorbs, and
    where it could be cut.
  - `Leaves` / `Join` give the text leaves of a node tree in order.

  The other modules state each operation's effect directly in terms of its
  inputs. `Run` folds a sequence of observer callbacks for the lemmas about
  `once` mode.
- **Time and numbers.** Time is a `real` number of milliseconds passed in as
  a parameter. Progress, delays and durations are `real`, not IEEE doubles.

Three behaviours of the code are easy to misread:

- **Touching ranges.** The merge test is a strict `pos.start < last.end`, so
  matches that only touch are not coalesced. They become adjacent
  highlighted segments with consecutive indices.
  `Ranges.StepCoalescesOnlyOverlap`, `Ranges.MergeGroups` and
  `SegmenterCases.BuildTouching` state this.
- **Empty patterns.** Nothing guards against an empty pattern, and the scan
  loop does not terminate on one (see "Findings").
- **Zero duration.** Nothing guards against a zero duration, and the frame
  callback divides by it. The model requires a positive duration.

## Model

| member | source | states |
|---|---|---|
| TextSearch.IndexOf | components/ui/blur-highlight.tsx:91 | For a non-empty pattern: -1 iff there is no occurrence at or after `from`. Any other result is an occurrence at or after `from`, and no occurrence lies before it. For the empty pattern the result is `min(from, |text|)`. |
| TextSearch.StartsSpec | components/ui/blur-highlight.tsx:88-98 | The reference list holds exactly the occurrence positions at or after `from`, overlapping ones included, strictly ascending. |
| TextSearch.StartsAfterIndexOf | components/ui/blur-highlight.tsx:90-97 | A miss of `indexOf` means no occurrences remain. A hit is the first remaining occurrence, and the rest are exactly those from `idx + 1` on, so resuming one past the hit loses no overlapping occurrence. |
| TextSearch.EmptyPatternScanRepeats | components/ui/blur-highlight.tsx:90-97 | With the empty pattern, `indexOf` never returns -1. From `|text| + 1` the next start is `|text| + 1` again, so the loop never exits. |
| Segmenter.Scan | components/ui/blur-highlight.tsx:88-98 | From any start index and count, the loop emits one range `[idx, idx + |pat|)` for each remaining occurrence the selector keeps, in order. Selector 0 keeps all; selector k keeps the one whose running count is k. |
| Segmenter.ScanStep | components/ui/blur-highlight.tsx:91-97 | One iteration: the hit is emitted iff the selector is 0 or equals the count plus one, and the rest is what the loop emits from `idx + 1` with the count incremented. |
| Segmenter.Matches | components/ui/blur-highlight.tsx:87-99 | One pattern's ranges lie inside the text. They are exactly the ranges `[i, i + |p|)` of the occurrences whose 1-based rank is what the selector asks for. They cover a position iff it lies inside such an occurrence. |
| Segmenter.MatchesSelect | components/ui/blur-highlight.tsx:93-95 | Selector 0 gives one range per occurrence, in order. A selector k from 1 to the number of occurrences gives exactly the k-th. A negative selector, or one past the number of occurrences, gives nothing. |
| Segmenter.Positions | components/ui/blur-highlight.tsx:81-99 | The pooled list holds exactly the ranges `[i, i + |pattern|)` of every pattern's kept occurrences. Bare strings are normalized to selector 0. All lie inside the text. They cover a position iff some pattern's kept occurrence does. |
| Ranges.SortByStart | components/ui/blur-highlight.tsx:101 | The result is ordered by start offset and is a permutation (same multiset) of the input. |
| Ranges.StepSound | components/ui/blur-highlight.tsx:106-110 | One merge step keeps the merged list well formed and separated, and adds exactly the positions of the new match to its coverage. |
| Ranges.MergeSound | components/ui/blur-highlight.tsx:104-111 | Merging sorted in-bounds matches yields non-empty, ascending, pairwise disjoint ranges. They cover a position iff some match does. Every match lies inside a single merged range, and every point strictly inside a merged range is strictly inside some match. So overlapping matches share a range, and touching ones are joined only when a third match spans the join. |
| Ranges.StepAbsorbs | components/ui/blur-highlight.tsx:106-110 | After one merge step, every match processed so far, the new one included, lies inside a single merged range. |
| Ranges.StepJustified | components/ui/blur-highlight.tsx:106-110 | One merge step extends the last range only across points that are strictly inside the new match or were already strictly inside an earlier match. |
| Ranges.MergeFromShape | components/ui/blur-highlight.tsx:104-111 | From any accumulator that absorbs and is justified by the matches processed so far, the rest of the loop keeps both properties for all matches. |
| Ranges.MergeGroups | components/ui/blur-highlight.tsx:104-111 | The merged ranges of sorted matches absorb every match, and can be cut nowhere that is not strictly inside some match. |
| Ranges.GroupsPermutation | components/ui/blur-highlight.tsx:101-111 | Reordering the matches, as the sort does, keeps both properties. |
| Ranges.StepCoalescesOnlyOverlap | components/ui/blur-highlight.tsx:106 | A match is folded into the last merged range iff it starts strictly before that range's end. A match starting exactly at the end is appended as a new range. |
| Segmenter.Merged | components/ui/blur-highlight.tsx:101-111 | The sorted and merged matches of all patterns are in bounds, ascending and disjoint. They cover exactly the positions inside some kept match. |
| Segmenter.MergedGroups | components/ui/blur-highlight.tsx:81-111 | Which kept matches the sorted and merged ranges group together: each kept occurrence of each pattern lies inside one merged range, and every point strictly inside a merged range is strictly inside some kept occurrence. |
| Segmenter.BuildConcat | components/ui/blur-highlight.tsx:114-130 | The segments the walk emits from `cursor` join to exactly the text from `cursor` on. |
| Segmenter.BuildWellSegmented | components/ui/blur-highlight.tsx:117-130 | The walk never emits an empty segment, and a plain segment is always followed by a highlighted one or by nothing. |
| Segmenter.BuildIndices | components/ui/blur-highlight.tsx:116-125 | The walk emits one highlighted segment per merged range, numbered `hl, hl + 1, …` from left to right. |
| Segmenter.BuildHighlights | components/ui/blur-highlight.tsx:116-125 | The walk emits exactly one highlighted segment per merged range, in order. The k-th holds the text of the k-th range and has index `hl + k`. |
| Segmenter.BuildMask | components/ui/blur-highlight.tsx:117-130 | A character from `cursor` on belongs to a highlighted segment iff a merged range covers it. |
| Segmenter.WalkSound | components/ui/blur-highlight.tsx:113-131 | For a non-empty pattern list, the walk reproduces the text with no two plain segments in a row and highlight indices 0, 1, 2, …. A character is highlighted iff it is inside a kept match of some pattern. |
| Segmenter.WalkHighlights | components/ui/blur-highlight.tsx:113-131 | For a non-empty pattern list, the walk holds one highlighted segment per merged range. The k-th is exactly the text of the k-th merged range, with index k. |
| Segmenter.Segments | components/ui/blur-highlight.tsx:78-132 | The segments join to the text. With no patterns the whole text is one plain segment. Otherwise there are no empty segments and no two plain segments in a row, and highlight indices run 0, 1, 2, …. A character is highlighted iff it is inside a kept match of some pattern. There is one highlighted segment per merged range, and the k-th is exactly the text of the k-th merged range, with index k. |
| Segmenter.GuardedSegments | components/ui/blur-highlight.tsx:79-98 | Corrected segmenter, defined for every pattern list. It equals `Segments` when no pattern is empty. It always joins to the text, and highlights exactly the characters inside kept matches of the non-empty patterns. |
| SegmenterCases.OverlappingStarts | components/ui/blur-highlight.tsx:97 | "aa" occurs in "aaa" at 0 and 1: the scan counts overlapping occurrences. |
| SegmenterCases.SecondOccurrence | components/ui/blur-highlight.tsx:93-95 | In "aaa", "aa" with selector 2 gives `[1, 3)`, selector 0 gives both, and selectors 3 and -1 give nothing. |
| SegmenterCases.SecondOfThree | components/ui/blur-highlight.tsx:90-97 | In "ab ab ab", "ab" with selector 2 gives exactly `[3, 5)`. |
| SegmenterCases.SortExample | components/ui/blur-highlight.tsx:101 | Two matches given out of order come back ordered by start. |
| SegmenterCases.MergeExamples | components/ui/blur-highlight.tsx:104-111 | `[0,3)` and `[2,5)` merge into `[0,5)`. `[0,2)` and `[2,4)` stay apart. |
| SegmenterCases.GroupingExcludes | components/ui/blur-highlight.tsx:104-111 | Joining `[0,2)` and `[2,4)` into `[0,4)` violates the rule that every point strictly inside a merged range is strictly inside a match. Splitting `[0,3)` and `[2,5)` into `[0,3)` and `[3,5)` violates the rule that every match lies inside a single merged range. |
| SegmenterCases.BuildExample | components/ui/blur-highlight.tsx:117-130 | Walking `[0,5)` over "abcdef" gives highlighted "abcde" (index 0), then plain "f". |
| SegmenterCases.BuildTouching | components/ui/blur-highlight.tsx:117-127 | Touching ranges give two adjacent highlighted segments, indices 0 and 1, with no plain segment between them. |
| TextFlatten.ExtractIsLeaves | components/ui/blur-highlight.tsx:68-73 | `extract` of any node is the concatenation of its string leaves in document order. The truthiness test on `props.children` drops no text. |
| TextFlatten.ExtractAllIsLeaves | components/ui/blur-highlight.tsx:70 | Extracting an array joins its children's leaves in order. |
| TextFlatten.ExtractAllAppend | components/ui/blur-highlight.tsx:70 | Extracting the concatenation of two child arrays gives the concatenation of their texts. |
| TextFlatten.TextContentIsExtract | components/ui/blur-highlight.tsx:64-75 | The component's text is the in-order concatenation of the leaves, whether `children` is a string or a tree. |
| HighlightStyle.StyleFor | components/ui/blur-highlight.tsx:135-148 | Left and right sweep the width (height fixed at 100%). Top and bottom sweep the height (width fixed at 100%). The painted share of the box equals the progress. |
| HighlightStyle.AnchorFixed | components/ui/blur-highlight.tsx:137-147 | The background position depends only on the direction: right at (100%, 0%), bottom at (0%, 100%), left and top at (0%, 0%). |
| HighlightStyle.SweepEnds | components/ui/blur-highlight.tsx:136-147 | At progress 1 the whole box is painted. At progress 0 nothing is. |
| HighlightStyle.UnknownDirectionIsLeft | components/ui/blur-highlight.tsx:144-146 | A missing direction, or any value other than right/top/bottom, styles exactly like left. |
| Reveal.EaseShape | components/ui/blur-highlight.tsx:226 | Cubic ease-out maps 0 to 0 and 1 to 1, stays within [0, 1] on [0, 1], and is monotone. |
| Reveal.ProgressShape | components/ui/blur-highlight.tsx:225-226 | Eased progress is 0 at the start, exactly 1 once the duration has elapsed, always within [0, 1], and non-decreasing in elapsed time. |
| Reveal.OnViewChange | components/ui/blur-highlight.tsx:209-217 | Leaving the view resets progress to 0 and cancels the frame. Entering it keeps the progress, requests a frame, and puts the start `(delay + index·0.25)·1000` ms after now. |
| Reveal.OnFrame | components/ui/blur-highlight.tsx:219-229 | Before the start time a frame changes nothing. After it, progress is the eased fraction of the duration. A frame at or after the start requests another frame iff the duration has not yet elapsed, and once it has, progress is 1. Progress stays in [0, 1]. |
| Reveal.FramesMonotone | components/ui/blur-highlight.tsx:220-228 | Within one activation, a later frame never shows less progress than an earlier one. |
| Reveal.ReactivationRestarts | components/ui/blur-highlight.tsx:210-217 | After leaving and re-entering the view, progress starts again from 0. The first frame shows the eased value of the time since the new start alone. |
| Reveal.StaggerOrder | components/ui/blur-highlight.tsx:215-217 | Spans with indices i and i+1 activated together start exactly 250 ms apart. From the later span's start on, it never shows more progress than the earlier one. Before that start it keeps whatever progress it had, which may be more. |
| Reveal.CompletionIsFinal | components/ui/blur-highlight.tsx:219-228 | Once no frame is pending, any further frames change nothing. |
| Reveal.FramesComplete | components/ui/blur-highlight.tsx:219-228 | The animation terminates: a run of frames that includes one at or after the end of the duration ends with no frame pending and progress exactly 1. |
| Reveal.FramesValid | components/ui/blur-highlight.tsx:219-229 | Progress stays within [0, 1] over any sequence of frames. |
| Reveal.FromInitial | components/ui/blur-highlight.tsx:206-231 | From the initial state (progress 0), frames change nothing until the component enters the view. After it enters, progress stays within [0, 1] over any sequence of frames. |
| Visibility.OnEntry | components/ui/blur-highlight.tsx:46-52 | An intersecting entry sets in-view, and in once mode stops observation. A non-intersecting entry clears in-view unless in once mode. An unobserved element is unaffected. |
| Visibility.OnceSticky | components/ui/blur-highlight.tsx:46-52 | In once mode, in-view never reverts to false. |
| Visibility.OnceInViewIff | components/ui/blur-highlight.tsx:46-52 | In once mode, from any gate, after any entries the element is in view iff it already was, or it was observed and some entry intersected. |
| Visibility.OnceFromInitial | components/ui/blur-highlight.tsx:39-59 | From mount (not in view, observed), in once mode the element ends up in view iff some callback reported an intersection. |
| Visibility.TracksLastEntry | components/ui/blur-highlight.tsx:45-52 | Without once mode, observation never stops, and in-view equals the `isIntersecting` of the first entry of the most recent callback. |
| ThemeToggle.ParseStored | components/theme-toggle.tsx:30 | A stored value yields light or dark iff it is exactly "light" or "dark". Anything else, missing included, yields system. |
| ThemeToggle.StoredRoundTrip | components/theme-toggle.tsx:21-30 | Every theme's stored name parses back to that theme. |
| ThemeToggle.SystemTheme | components/theme-toggle.tsx:9-12 | The system theme is never `system`. It is dark iff running in a browser whose preference is dark; during server rendering it is light. |
| ThemeToggle.Resolve | components/theme-toggle.tsx:17 | The applied theme is never `system`: light and dark stand for themselves, and `system` becomes the system theme. |
| ThemeToggle.ApplyTheme | components/theme-toggle.tsx:14-22 | Without a document nothing changes. Otherwise the `dark` class is set iff the color scheme is "dark". The scheme is always light or dark, and is dark iff the theme is dark or is system with a dark preference. The unresolved theme name is stored. |
| ThemeToggle.ApplyThenReload | components/theme-toggle.tsx:14-30 | What `applyTheme` stores reads back, on the next mount, as the theme that was applied, `system` included. |
| ThemeToggle.ApplyIdempotent | components/theme-toggle.tsx:14-22 | Applying the same theme twice equals applying it once. |
| ThemeToggle.IndexIn | components/theme-toggle.tsx:49 | `indexOf` returns the first position holding the value, or -1 iff it is absent. |
| ThemeToggle.Cycle | components/theme-toggle.tsx:47-50 | The next theme always differs from the current one, and its position in the order is the current position plus one, modulo 3. |
| ThemeToggle.CycleOrder | components/theme-toggle.tsx:48-50 | Light goes to dark, dark to system, and system to light. |
| ThemeToggle.CyclePeriod | components/theme-toggle.tsx:47-53 | Three clicks return to the start, and the two intermediate themes are the other two. |
| ThemeToggle.Mount | components/theme-toggle.tsx:28-34 | After mounting, the component is mounted and holds the validated stored theme. The stored value is now exactly that theme's name, so it reads back as that theme, and a missing or invalid value is replaced by "system". The document shows the resolved theme: the `dark` class iff it resolves to dark, and the matching color scheme. |
| ThemeToggle.MountIdempotent | components/theme-toggle.tsx:28-34 | Mounting again over the document a mount produced changes nothing. |
| ThemeToggle.Click | components/theme-toggle.tsx:47-53 | A click moves to the next theme in the cycle, never the same one, and stores exactly its name, so that it reads back. The document then shows the new theme resolved: the `dark` class iff it resolves to dark, and the matching color scheme. |
| ThemeToggle.OnSchemeChange | components/theme-toggle.tsx:38-42 | The listener changes nothing unless the stored value is exactly "system". If it is, the stored value is kept and the `dark` class follows the new preference. |
| ThemeToggle.SchemeChangeFollowsPreference | components/theme-toggle.tsx:38-42 | In system mode, after a preference change the color scheme is "dark" iff the new preference is dark. |

## Left out

- React state, effects, memoization and re-rendering are not modelled. Each
  effect is a pure state transition, and its dependency arrays are not.
- `IntersectionObserver` is not modelled: `rootMargin`, `threshold`
  (`amount`), re-creating the observer when its options change, and
  `disconnect` on unmount. The callback is modelled on a sequence of
  `isIntersecting` values.
- Visibility.OnEntry: each modelled entry is the first entry of one observer
  callback. The callback reads only `entries[0]`, so later entries of the
  same batch are ignored, and the model does not represent them.
- `requestAnimationFrame`, `cancelAnimationFrame` and `Date.now` are not
  modelled. Frames are explicit calls with a time argument. A frame id of 0
  (falsy, so never cancelled) is not modelled.
- Reveal.OnFrame: numbers are exact reals, not IEEE doubles, and the duration
  must be positive. With a zero duration the code computes `0/0` (NaN) or
  `x/0` (Infinity), which this model does not represent.
- Segmenter.Scan: requires non-empty pattern text, because the code's loop
  does not terminate on an empty pattern. Segmenter.Matches,
  Segmenter.Positions, Segmenter.Merged and Segmenter.Segments inherit this
  precondition. Segmenter.GuardedSegments is defined for every pattern list.
- Occurrence selectors are integers. Fractional or non-numeric selectors
  (which match no count) are not modelled.
- Ranges.SortByStart: stability (the order of equal starts) is not stated.
  The merge result does not depend on it.
- The container's opacity, blur and CSS transition are not modelled, nor
  `getIcon`, class names and colours. They are rendering only.
- `localStorage` and `matchMedia` are not modelled as I/O. The stored value is
  a field of the document state. The preference is a parameter of the
  platform. Registering and removing the change listener is not modelled.
- TextFlatten.Extract: values other than strings, arrays and nodes with
  `props.children` (numbers, booleans, `null`) are one opaque kind of node.
  Only their truthiness is kept.

## Findings

| source | as written | input that shows it | evidently intended | confidence | as-written member | corrected member |
|---|---|---|---|---|---|---|
| components/ui/blur-highlight.tsx:90-97 | The scan loop stops only when `indexOf` returns -1 and resumes at `idx + 1`. With the empty pattern, `indexOf` never returns -1, and past the end it returns the text length, so the start index stays at `length + 1` forever. | `highlightedBits = [""]` with any text | An empty pattern matches nowhere and is skipped, as if absent | high; derived from the `indexOf` semantics, not executed | TextSearch.EmptyPatternScanRepeats | Segmenter.GuardedSegments |
