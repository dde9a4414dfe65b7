/** Start-up theme resolution and the ambient-preference watcher
    (frontend/src/hexdocs/setup.ffi.mjs). */
module Setup {
  import opened Browser

  /** The two colour themes. */
  datatype Theme = Light | Dark

  /** Where an effective theme came from: a stored user choice, or the
      ambient system preference. */
  datatype Provenance = User | System

  /** The pair `[custom, theme]` that `doReadDarkMode` returns. */
  datatype Resolved = Resolved(provenance: Provenance, theme: Theme)

  /** One `change` event of the `(prefers-color-scheme: dark)` media query. */
  datatype ChangeEvent = ChangeEvent(matches: bool)

  /** The storage key the chosen theme is kept under. */
  const ThemeKey: string := "theme"

  /** The string the source uses for a theme, both in storage and as a class name. */
  function Name(t: Theme): (s: string)
    ensures |s| > 0 && (s == "light" || s == "dark")
  {
    match t
    case Light => "light"
    case Dark => "dark"
  }

  /** The two names are distinct, so `Name` can be inverted. */
  lemma NameInjective(t: Theme, u: Theme)
    ensures Name(t) == Name(u) <==> t == u
  {
  }

  /** `["light", "dark"].includes(s)`. */
  predicate IsThemeName(s: string) {
    s == "light" || s == "dark"
  }

  /** The theme whose name is `s`, if any. */
  function ParseTheme(s: string): (r: Option<Theme>)
    ensures r.Some? <==> IsThemeName(s)
    ensures r.Some? ==> Name(r.value) == s
  {
    if s == "light" then Some(Light)
    else if s == "dark" then Some(Dark)
    else None
  }

  /** `readSystemMode`: the theme the ambient preference asks for. */
  function ReadSystemMode(prefersDark: bool): (r: Resolved)
    ensures r.provenance == System
    ensures r.theme == Dark <==> prefersDark
    ensures r.theme == Light <==> !prefersDark
  {
    if prefersDark then Resolved(System, Dark) else Resolved(System, Light)
  }

  /** `doReadDarkMode`: a valid stored theme wins; a missing or unrecognised
      one falls back to the ambient preference. */
  function DoReadDarkMode(storage: map<string, string>, prefersDark: bool): (r: Resolved)
    ensures r.provenance == User <==> ThemeKey in storage && IsThemeName(storage[ThemeKey])
    ensures r.provenance == User ==> Name(r.theme) == storage[ThemeKey]
    ensures r.provenance == System ==> r == ReadSystemMode(prefersDark)
  {
    var stored := GetItem(storage, ThemeKey);
    if stored.None? then ReadSystemMode(prefersDark)
    else if !IsThemeName(stored.value) then ReadSystemMode(prefersDark)
    else Resolved(User, ParseTheme(stored.value).value)
  }

  /** A stored "light" or "dark" is returned as the user's choice, whatever the
      ambient preference says. */
  lemma StoredThemeWins(storage: map<string, string>, t: Theme)
    requires GetItem(storage, ThemeKey) == Some(Name(t))
    ensures DoReadDarkMode(storage, true) == Resolved(User, t)
    ensures DoReadDarkMode(storage, false) == Resolved(User, t)
  {
  }

  /** With nothing stored, resolution is the system mode. */
  lemma AbsentIsSystem(storage: map<string, string>, prefersDark: bool)
    requires ThemeKey !in storage
    ensures DoReadDarkMode(storage, prefersDark) == ReadSystemMode(prefersDark)
  {
  }

  /** A stored value that is neither "light" nor "dark" (say "purple") is
      treated exactly as if nothing were stored. */
  lemma InvalidIsAbsent(storage: map<string, string>, prefersDark: bool)
    requires ThemeKey in storage && !IsThemeName(storage[ThemeKey])
    ensures DoReadDarkMode(storage, prefersDark) == DoReadDarkMode(storage - {ThemeKey}, prefersDark)
  {
  }

  /** What `readDarkMode` does to the class list: add the theme's class,
      remove nothing. */
  function AddThemeClass(classes: set<string>, t: Theme): (r: set<string>)
    ensures Name(t) in r
    ensures classes <= r
    ensures forall c :: c in r ==> c in classes || c == Name(t)
  {
    classes + {Name(t)}
  }

  /** `readDarkMode` only adds: when the class list already holds the other
      theme's class, both "light" and "dark" are present afterwards. */
  lemma ReadDarkModeCanKeepBoth(classes: set<string>, t: Theme)
    requires Name(if t == Light then Dark else Light) in classes
    ensures "light" in AddThemeClass(classes, t) && "dark" in AddThemeClass(classes, t)
  {
  }

  /** `readDarkMode`: resolve the theme, add its class to the root element,
      and return the same pair. */
  method ReadDarkMode(w: Window) returns (r: Resolved)
    modifies w`classList
    ensures r == DoReadDarkMode(w.localStorage, w.prefersDark)
    ensures w.classList == AddThemeClass(old(w.classList), r.theme)
  {
    r := DoReadDarkMode(w.localStorage, w.prefersDark);
    if r.theme == Dark {
      w.classList := w.classList + {"dark"};
    }
    if r.theme == Light {
      w.classList := w.classList + {"light"};
    }
  }

  /** The `change` listener: the theme it passes to the callback for one
      event is the one system-mode resolution gives for the new ambient value. */
  function OnChange(e: ChangeEvent): (t: Theme)
    ensures t == ReadSystemMode(e.matches).theme
  {
    if e.matches then Dark else Light
  }

  /** `watchIsDark`: the listener runs once per delivered `change` event, in
      order, and each run calls the callback exactly once. `calls` is the
      sequence of arguments the callback receives. */
  method WatchIsDark(events: seq<ChangeEvent>) returns (calls: seq<Theme>)
    ensures |calls| == |events|
    ensures forall i :: 0 <= i < |events| ==> calls[i] == ReadSystemMode(events[i].matches).theme
  {
    calls := [];
    var i := 0;
    while i < |events|
      invariant 0 <= i <= |events|
      invariant |calls| == i
      invariant forall j :: 0 <= j < i ==> calls[j] == ReadSystemMode(events[j].matches).theme
    {
      calls := calls + [OnChange(events[i])];
      i := i + 1;
    }
  }
}
