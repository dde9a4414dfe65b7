/** The theme switch and the search-input focus hand-over
    (frontend/src/hexdocs.ffi.mjs). */
module Hexdocs {
  import opened Browser
  import opened Setup

  /** Id of the element `submitPackageInput` acts on. */
  const SearchPackageInput: string := "search-package-input"

  // ---------------------------------------------------------------------------
  // Focus hand-over: submitPackageInput and focusNode
  // ---------------------------------------------------------------------------

  /** The `disabled` attribute of the version input: absent, or present with
      the value `getAttribute` reports (which the source also allows to be `null`). */
  datatype Disabled = NoAttribute | Attribute(value: Option<string>)

  /** What `document.getElementById("search-version-input")` finds in one
      animation frame. */
  datatype Lookup = Missing | Found(disabled: Disabled)

  /** How a run of `focusNode` ends: the node is focused in frame `frame`;
      the node is missing in frame `frame` and nothing more happens; or it is
      still being retried when the observed frames run out. */
  datatype FocusOutcome = Focused(frame: nat) | NodeMissing(frame: nat) | Retrying

  /** What `submitPackageInput` does: nothing, or blur the active element and
      hand over to `focusNode`. */
  datatype Submit = Ignored | Blurred(focus: FocusOutcome)

  /** The attribute values that `focusNode` reads as "still disabled". */
  const DisabledValues: set<Option<string>> := {None, Some(""), Some("true")}

  /** Whether `focusNode` schedules another frame instead of focusing. */
  function StillDisabled(d: Disabled): (b: bool)
    ensures b <==> d.Attribute? && d.value in DisabledValues
  {
    match d
    case NoAttribute => false
    case Attribute(v) => v == None || v == Some("") || v == Some("true")
  }

  /** The first `n` frames all found the node and all saw it still disabled. */
  ghost predicate RetriedThrough(frames: seq<Lookup>, n: nat)
    requires n <= |frames|
  {
    forall j :: 0 <= j < n ==> frames[j].Found? && StillDisabled(frames[j].disabled)
  }

  /** `o` is how `focusNode` ends when frame `i` observes `frames[i]`. */
  ghost predicate IsFocusOutcome(frames: seq<Lookup>, o: FocusOutcome) {
    match o
    case Focused(i) =>
      i < |frames| && RetriedThrough(frames, i)
      && frames[i].Found? && !StillDisabled(frames[i].disabled)
    case NodeMissing(i) =>
      i < |frames| && RetriedThrough(frames, i) && frames[i].Missing?
    case Retrying =>
      RetriedThrough(frames, |frames|)
  }

  /** A sequence of frames has at most one outcome. */
  lemma FocusOutcomeUnique(frames: seq<Lookup>, o: FocusOutcome, p: FocusOutcome)
    requires IsFocusOutcome(frames, o) && IsFocusOutcome(frames, p)
    ensures o == p
  {
  }

  /** `focusNode`, run once per animation frame until it stops rescheduling
      itself; `frames[i]` is what the lookup finds in the i-th frame. */
  method FocusNode(frames: seq<Lookup>) returns (o: FocusOutcome)
    ensures IsFocusOutcome(frames, o)
  {
    var i := 0;
    while i < |frames|
      invariant 0 <= i <= |frames|
      invariant RetriedThrough(frames, i)
    {
      var node := frames[i];
      if node.Missing? {
        return NodeMissing(i);
      }
      if node.disabled.Attribute? {
        var disabled := node.disabled.value;
        if disabled == None || disabled == Some("") || disabled == Some("true") {
          i := i + 1;
          continue;
        }
      }
      return Focused(i);
    }
    o := Retrying;
  }

  /** `submitPackageInput`: acts only when the active element is the package
      input; then the version input is focused as `focusNode` decides,
      starting in the next frame. */
  method SubmitPackageInput(activeId: string, frames: seq<Lookup>) returns (r: Submit)
    ensures r.Ignored? <==> activeId != SearchPackageInput
    ensures r.Blurred? ==> IsFocusOutcome(frames, r.focus)
  {
    if activeId != SearchPackageInput {
      return Ignored;
    }
    var o := FocusNode(frames);
    r := Blurred(o);
  }

  // ---------------------------------------------------------------------------
  // Theme switch: updateColorTheme
  // ---------------------------------------------------------------------------

  /** `localStorage.setItem("theme", mode)`: the theme key now holds `mode`,
      every other key is as before. */
  function StoreTheme(storage: map<string, string>, mode: string): (r: map<string, string>)
    ensures ThemeKey in r && r[ThemeKey] == mode
    ensures r.Keys == storage.Keys + {ThemeKey}
    ensures forall k :: k in storage && k != ThemeKey ==> r[k] == storage[k]
  {
    storage[ThemeKey := mode]
  }

  /** The class list after `updateColorTheme(mode)`: "light" and "dark" made
      mutually exclusive for a recognised mode, untouched otherwise. */
  function ThemeClasses(classes: set<string>, mode: string): (r: set<string>)
    ensures mode == "light" ==> "light" in r && "dark" !in r
    ensures mode == "dark" ==> "dark" in r && "light" !in r
    ensures !IsThemeName(mode) ==> r == classes
    ensures forall c :: c != "light" && c != "dark" ==> (c in r <==> c in classes)
  {
    if mode == "light" then classes - {"dark"} + {"light"}
    else if mode == "dark" then classes - {"light"} + {"dark"}
    else classes
  }

  /** `updateColorTheme`: store the mode, then switch the root element's
      classes if the mode is a theme name. */
  method UpdateColorTheme(w: Window, mode: string)
    modifies w`localStorage, w`classList
    ensures w.localStorage == StoreTheme(old(w.localStorage), mode)
    ensures w.classList == ThemeClasses(old(w.classList), mode)
  {
    w.localStorage := w.localStorage[ThemeKey := mode];
    if mode == "light" {
      w.classList := w.classList - {"dark"};
      w.classList := w.classList + {"light"};
    }
    if mode == "dark" {
      w.classList := w.classList - {"light"};
      w.classList := w.classList + {"dark"};
    }
  }

  /** Applying `updateColorTheme(mode)` a second time changes nothing. */
  lemma UpdateIdempotent(storage: map<string, string>, classes: set<string>, mode: string)
    ensures StoreTheme(StoreTheme(storage, mode), mode) == StoreTheme(storage, mode)
    ensures ThemeClasses(ThemeClasses(classes, mode), mode) == ThemeClasses(classes, mode)
  {
  }

  /** After `updateColorTheme(mode)` the start-up resolution gives the user's
      theme when `mode` names one, and the system mode otherwise. */
  lemma StoredModeResolves(storage: map<string, string>, mode: string, prefersDark: bool)
    ensures IsThemeName(mode) ==>
      DoReadDarkMode(StoreTheme(storage, mode), prefersDark) == Resolved(User, ParseTheme(mode).value)
    ensures !IsThemeName(mode) ==>
      DoReadDarkMode(StoreTheme(storage, mode), prefersDark) == ReadSystemMode(prefersDark)
  {
  }

  /** Round trip: writing a theme and resolving again returns that theme as
      the user's choice. */
  lemma ThemeRoundTrip(storage: map<string, string>, t: Theme, prefersDark: bool)
    ensures DoReadDarkMode(StoreTheme(storage, Name(t)), prefersDark) == Resolved(User, t)
  {
  }

  /** After switching to theme `t`, start-up's class addition for `t` leaves
      the classes as they are: the two paths agree on the root element. */
  lemma UpdateThenAddAgree(classes: set<string>, t: Theme)
    ensures AddThemeClass(ThemeClasses(classes, Name(t)), t) == ThemeClasses(classes, Name(t))
  {
  }

  /** The round trip on the page itself: switch to `t`, then run start-up
      resolution on the same window. */
  method SwitchThenReload(w: Window, t: Theme) returns (r: Resolved)
    modifies w`localStorage, w`classList
    ensures r == Resolved(User, t)
    ensures Name(t) in w.classList
    ensures Name(if t == Light then Dark else Light) !in w.classList
  {
    UpdateColorTheme(w, Name(t));
    ThemeRoundTrip(old(w.localStorage), t, w.prefersDark);
    UpdateThenAddAgree(old(w.classList), t);
    r := ReadDarkMode(w);
  }
}
