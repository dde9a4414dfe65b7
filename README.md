# hexdocs colour theme and search-focus logic, in Dafny

This project models the decision logic of the hexdocs frontend's browser glue.

- **Start-up theme resolution** (`setup.dfy`, module `Setup`). `doReadDarkMode` picks the effective theme and its provenance. A `"light"` or `"dark"` stored under the `localStorage` key `"theme"` is the user's choice. Anything else, including no value at all, falls back to the `(prefers-color-scheme: dark)` media query (`readSystemMode`). `readDarkMode` adds the theme's class to the root element. `watchIsDark` turns every media-query `change` event into one `"dark"` or `"light"` callback.
- **Theme switch** (`hexdocs.dfy`, module `Hexdocs`). `updateColorTheme(mode)` always stores `mode` under `"theme"`. For `"light"` or `"dark"` it makes the two classes mutually exclusive on the root element. For any other mode it leaves the classes alone.
- **Focus hand-over** (`hexdocs.dfy`). `submitPackageInput` acts only when the active element is `search-package-input`. `focusNode` then retries once per animation frame while the version input's `disabled` attribute is `null`, `""` or `"true"`. It focuses the input on any other value or when the attribute is absent, and stops silently if the node is missing.

The shared page state lives in `browser.dfy`, module `Browser`. The class `Window` holds `localStorage` as a `map<string, string>`, the root element's class list as a `set<string>` and the media-query answer as a `bool`. The methods that write the page (`ReadDarkMode`, `UpdateColorTheme`) update these fields in place. Their effect is specified by pure functions (`AddThemeClass`, `StoreTheme`, `ThemeClasses`), and the lemmas are proved about those functions. Themes and provenances are the datatypes `Theme` and `Provenance`. `Setup.Name` maps a theme to the string the source stores and uses as a class name. The pair `[custom, theme]` is the datatype `Resolved`.

Animation frames and `change` events are modelled as input sequences. `frames[i]` is what `getElementById("search-version-input")` finds in the i-th frame. `events[i]` is the i-th `change` event delivered to the listener.

Where the code and the design description differ, the model follows the code:
- The design says the two theme classes are never active together. `readDarkMode` only adds a class and never removes the other one (`Setup.ReadDarkModeCanKeepBoth`). Only `updateColorTheme` keeps them exclusive.
- The design describes an unsubscribe handle for the watcher. `watchIsDark` registers its listener and never removes it, so no unsubscribe is modelled.
- The design says the watcher reacts to a *new* ambient state. The code calls the callback on every `change` event, with no comparison against the previous value.

## Model

| member | source | states |
|---|---|---|
| `Browser.GetItem` | frontend/src/hexdocs/setup.ffi.mjs:9 | `getItem` gives the stored value exactly when the key is present, and `null` otherwise |
| `Setup.ParseTheme` | frontend/src/hexdocs/setup.ffi.mjs:11-12 | a string is accepted as a theme iff it is `"light"` or `"dark"`, and the accepted theme's name is that string |
| `Setup.ReadSystemMode` | frontend/src/hexdocs/setup.ffi.mjs:15-19 | provenance is always system; the theme is dark iff the media query matches, light iff it does not |
| `Setup.DoReadDarkMode` | frontend/src/hexdocs/setup.ffi.mjs:8-13 | provenance is user iff `"theme"` is stored and is `"light"` or `"dark"`; then the theme is the stored one; otherwise the result is exactly `readSystemMode`'s; the theme is always one of the two |
| `Setup.StoredThemeWins` | frontend/src/hexdocs/setup.ffi.mjs:9-12 | a stored `"light"`/`"dark"` yields `(user, that theme)` for both values of the ambient flag |
| `Setup.AbsentIsSystem` | frontend/src/hexdocs/setup.ffi.mjs:9-10 | with no stored value the result equals `readSystemMode` |
| `Setup.InvalidIsAbsent` | frontend/src/hexdocs/setup.ffi.mjs:10-11 | a stored value other than `"light"`/`"dark"` resolves exactly as if the key were absent |
| `Setup.AddThemeClass` | frontend/src/hexdocs/setup.ffi.mjs:3-4 | the theme's class is present afterwards, no class is removed, and nothing else is added |
| `Setup.ReadDarkModeCanKeepBoth` | frontend/src/hexdocs/setup.ffi.mjs:3-4 | if the other theme's class is already present, both `"light"` and `"dark"` are present afterwards |
| `Setup.ReadDarkMode` | frontend/src/hexdocs/setup.ffi.mjs:1-6 | returns the pair `doReadDarkMode` computes from the window's storage and media query; the class list becomes the old one plus that theme's class |
| `Setup.OnChange` | frontend/src/hexdocs/setup.ffi.mjs:24-27 | the listener passes the same theme that `readSystemMode` gives for the event's `matches` value |
| `Setup.WatchIsDark` | frontend/src/hexdocs/setup.ffi.mjs:21-28 | one callback per event, in order, and the i-th callback gets `"dark"` iff the i-th event matches |
| `Hexdocs.StillDisabled` | frontend/src/hexdocs.ffi.mjs:10-13 | the retry condition holds iff the attribute is present with value `null`, `""` or `"true"` |
| `Hexdocs.FocusNode` | frontend/src/hexdocs.ffi.mjs:7-18 | focuses in frame i iff frames before i saw the node still disabled and frame i sees it not disabled; stops with no action in the first frame where the node is missing; retries while every observed frame is still disabled |
| `Hexdocs.FocusOutcomeUnique` | frontend/src/hexdocs.ffi.mjs:7-18 | a sequence of frames determines the outcome of `focusNode` uniquely |
| `Hexdocs.SubmitPackageInput` | frontend/src/hexdocs.ffi.mjs:1-5 | does nothing iff the active element's id is not `search-package-input`; otherwise the outcome is `focusNode`'s |
| `Hexdocs.StoreTheme` | frontend/src/hexdocs.ffi.mjs:21 | `"theme"` holds the mode, whatever the mode is; no key is removed and every other key keeps its value |
| `Hexdocs.ThemeClasses` | frontend/src/hexdocs.ffi.mjs:22-29 | mode `"light"` gives light and not dark; mode `"dark"` gives dark and not light; any other mode leaves the set unchanged; classes other than the two are always preserved |
| `Hexdocs.UpdateColorTheme` | frontend/src/hexdocs.ffi.mjs:20-30 | the window's storage and class list become `StoreTheme` and `ThemeClasses` of their old values |
| `Hexdocs.UpdateIdempotent` | frontend/src/hexdocs.ffi.mjs:20-30 | applying the update twice gives the same storage and class set as applying it once |
| `Hexdocs.StoredModeResolves` | frontend/src/hexdocs.ffi.mjs:20-21 | after storing a mode, resolution gives `(user, mode)` if the mode names a theme, and the system mode otherwise (for example after `"purple"`) |
| `Hexdocs.ThemeRoundTrip` | frontend/src/hexdocs.ffi.mjs:21 | after storing `"light"` or `"dark"`, `doReadDarkMode` returns `(user, that theme)` |
| `Hexdocs.UpdateThenAddAgree` | frontend/src/hexdocs.ffi.mjs:22-29 | after switching to a theme, adding that theme's class at start-up leaves the class set unchanged |
| `Hexdocs.SwitchThenReload` | frontend/src/hexdocs.ffi.mjs:20-30 | on one window, `updateColorTheme(t)` followed by `readDarkMode` returns `(user, t)`, with `t`'s class present and the other theme's absent |

## Left out

- `copyUrl` (frontend/src/hexdocs.ffi.mjs:32-35): a clipboard write through a promise, with no decision in it.
- `requestAnimationFrame` scheduling, `blur()` and `focus()`: browser timing and side effects. Frames are an input sequence, and the model returns which frame focuses, if any.
- Hexdocs.FocusNode: the source can retry forever. The model observes a finite sequence of frames and reports `Retrying` when it runs out.
- The `hasAttribute` and `getAttribute` reads within one frame are assumed to see the same attribute. A `null` value from `getAttribute` on a present attribute is kept as a possible input because the code tests for it.
- `window.matchMedia` and `addEventListener` registration: the ambient preference is a boolean field and the delivered events are a sequence. The callback's own effect belongs to the caller and is not modelled.
- Unsubscribing the `watchIsDark` listener: the source never removes it.
- The order of the class list and of storage keys: both are modelled as a set and a map.
- Exceptions the browser may raise, such as a storage quota error in `setItem` or a `null` `document.activeElement`: the model assumes these calls succeed.
- frontend/src/browser/window/location.ffi.mjs and frontend/src/browser/document.ffi.mjs: an environment check, one-field accessors and one click-listener wrapper, with no logic to verify.
