/** The `ThemeToggle` button: a three-way choice between light, dark and
    following the operating system, persisted under the storage key
    "theme" and applied to the document root as a `dark` class plus a
    `color-scheme` value. */
module ThemeToggle {
  import opened Wrappers

  datatype Theme = Light | Dark | System

  /** The string a theme is stored and compared as. */
  function Name(t: Theme): string {
    match t
    case Light => "light"
    case Dark => "dark"
    case System => "system"
  }

  /** Where the code runs: during server rendering `window` and `document`
      are undefined; in a browser the `prefers-color-scheme: dark` media
      query has some current answer. */
  datatype Platform = Server | Browser(prefersDark: bool)

  /** What `applyTheme` leaves behind: the root's `dark` class, its
      `color-scheme` style and the stored value. */
  datatype Document = Document(darkClass: bool, colorScheme: string, stored: Option<string>)

  /** Reading back a stored value: only the three theme names are accepted,
      anything else (including nothing stored) means `System`. */
  function ParseStored(saved: Option<string>): (t: Theme)
    ensures t != System <==> saved == Some("light") || saved == Some("dark")
    ensures t == Light <==> saved == Some("light")
  {
    if saved == Some("dark") then Dark
    else if saved == Some("light") then Light
    else if saved == Some("system") then System
    else System
  }

  /** Every theme survives being stored and read back. */
  lemma StoredRoundTrip(t: Theme)
    ensures ParseStored(Some(Name(t))) == t
  {
  }

  /** The operating system's preference; during server rendering it is
      taken to be light. */
  function SystemTheme(p: Platform): (t: Theme)
    ensures t != System
    ensures t == Dark <==> p.Browser? && p.prefersDark
  {
    if p.Server? then Light else if p.prefersDark then Dark else Light
  }

  /** The theme actually shown: `System` is replaced by the platform's
      preference, the others stand for themselves. */
  function Resolve(t: Theme, p: Platform): (a: Theme)
    ensures a != System
    ensures t != System ==> a == t
    ensures t == System ==> a == SystemTheme(p)
  {
    if t == System then SystemTheme(p) else t
  }

  /** `applyTheme`: without a document nothing happens; otherwise the dark
      class and the color scheme follow the resolved theme and the chosen
      (unresolved) theme is stored. */
  function ApplyTheme(doc: Document, t: Theme, p: Platform): (d: Document)
    ensures p.Server? ==> d == doc
    ensures p.Browser? ==> d.stored == Some(Name(t))
    ensures p.Browser? ==> (d.darkClass <==> d.colorScheme == "dark")
    ensures p.Browser? ==> (d.colorScheme == "light" || d.colorScheme == "dark")
    ensures p.Browser? ==> (d.darkClass <==> t == Dark || (t == System && p.prefersDark))
  {
    if p.Server? then doc
    else
      var actual := Resolve(t, p);
      Document(actual == Dark, Name(actual), Some(Name(t)))
  }

  /** What is stored after applying a theme reads back as that theme, so a
      reload restores the user's choice, `System` included. */
  lemma ApplyThenReload(doc: Document, t: Theme, p: Platform)
    requires p.Browser?
    ensures ParseStored(ApplyTheme(doc, t, p).stored) == t
  {
    StoredRoundTrip(t);
  }

  /** Applying the same theme twice is the same as applying it once. */
  lemma ApplyIdempotent(doc: Document, t: Theme, p: Platform)
    ensures ApplyTheme(ApplyTheme(doc, t, p), t, p) == ApplyTheme(doc, t, p)
  {
  }

  /** The fixed cycling order. */
  const ThemeOrder: seq<Theme> := [Light, Dark, System]

  /** `Array.prototype.indexOf` over a sequence: the first position holding
      `x`, or -1. */
  function IndexIn<T(==)>(s: seq<T>, x: T): (i: int)
    ensures -1 <= i < |s|
    ensures i >= 0 ==> s[i] == x && forall j :: 0 <= j < i ==> s[j] != x
    ensures i == -1 <==> x !in s
  {
    if |s| == 0 then -1
    else if s[0] == x then 0
    else
      var k := IndexIn(s[1..], x);
      if k == -1 then -1 else k + 1
  }

  /** `cycleTheme`: the theme after the current one in `ThemeOrder`,
      wrapping around at the end. */
  function Cycle(t: Theme): (n: Theme)
    ensures n != t
    ensures IndexIn(ThemeOrder, n) == (IndexIn(ThemeOrder, t) + 1) % 3
  {
    ThemeOrder[(IndexIn(ThemeOrder, t) + 1) % |ThemeOrder|]
  }

  /** The order of the cycle. */
  lemma CycleOrder()
    ensures Cycle(Light) == Dark && Cycle(Dark) == System && Cycle(System) == Light
  {
  }

  /** Three clicks bring every theme back, and the two intermediate themes
      are the other two, so every theme is reached from every other. */
  lemma CyclePeriod(t: Theme)
    ensures Cycle(Cycle(Cycle(t))) == t
    ensures Cycle(Cycle(t)) != t && Cycle(Cycle(t)) != Cycle(t)
  {
    CycleOrder();
  }

  /** The component's state: whether it has mounted, the chosen theme and
      the document it writes to. */
  datatype Toggle = Toggle(mounted: bool, theme: Theme, doc: Document)

  /** The mount effect: read the stored value, adopt it (or `System`),
      apply it and mark the component mounted. */
  function Mount(before: Document, p: Platform): (s: Toggle)
    requires p.Browser?
    ensures s.mounted
    ensures s.theme == ParseStored(before.stored)
    ensures ParseStored(s.doc.stored) == s.theme
    ensures s.doc.stored == Some(Name(s.theme))
    ensures (s.doc.darkClass <==> Resolve(s.theme, p) == Dark) && s.doc.colorScheme == Name(Resolve(s.theme, p))
  {
    var initial := ParseStored(before.stored);
    StoredRoundTrip(initial);
    Toggle(true, initial, ApplyTheme(before, initial, p))
  }

  /** Mounting again over the document the first mount produced changes
      nothing: the stored value is already normalised. */
  lemma MountIdempotent(before: Document, p: Platform)
    requires p.Browser?
    ensures Mount(Mount(before, p).doc, p) == Mount(before, p)
  {
    StoredRoundTrip(ParseStored(before.stored));
  }

  /** A click: move to the next theme and apply it. */
  function Click(s: Toggle, p: Platform): (s': Toggle)
    requires p.Browser?
    ensures s'.mounted == s.mounted
    ensures s'.theme == Cycle(s.theme) && s'.theme != s.theme
    ensures ParseStored(s'.doc.stored) == s'.theme
    ensures s'.doc.stored == Some(Name(s'.theme))
    ensures (s'.doc.darkClass <==> Resolve(s'.theme, p) == Dark) && s'.doc.colorScheme == Name(Resolve(s'.theme, p))
  {
    var next := Cycle(s.theme);
    StoredRoundTrip(next);
    Toggle(s.mounted, next, ApplyTheme(s.doc, next, p))
  }

  /** The media-query listener: when the operating system's preference
      changes and the stored value is exactly "system", the system theme is
      re-applied; otherwise the document is left alone. */
  function OnSchemeChange(doc: Document, p: Platform): (d: Document)
    requires p.Browser?
    ensures doc.stored != Some("system") ==> d == doc
    ensures doc.stored == Some("system") ==> d.stored == doc.stored && (d.darkClass <==> p.prefersDark)
  {
    if doc.stored == Some(Name(System)) then ApplyTheme(doc, System, p) else doc
  }

  /** After the listener runs in system mode the document agrees with the
      new preference, whatever it showed before. */
  lemma SchemeChangeFollowsPreference(doc: Document, prefersDark: bool)
    requires doc.stored == Some("system")
    ensures OnSchemeChange(doc, Browser(prefersDark)).colorScheme == (if prefersDark then "dark" else "light")
  {
  }
}
