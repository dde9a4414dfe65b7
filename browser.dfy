/** The page state that the theme code reads and writes: the `localStorage`
    key-value store, the class list of `document.documentElement`, and the
    current answer of the `(prefers-color-scheme: dark)` media query. */
module Browser {

  /** A JavaScript value that may be `null`. */
  datatype Option<+T> = None | Some(value: T)

  /** The browser window as the theme code sees it. */
  class Window {
    /** `window.localStorage`: string keys to string values. */
    var localStorage: map<string, string>
    /** `document.documentElement.classList`, as a set (order is not modelled). */
    var classList: set<string>
    /** `window.matchMedia("(prefers-color-scheme: dark)").matches`. */
    var prefersDark: bool

    constructor (storage: map<string, string>, classes: set<string>, dark: bool)
      ensures localStorage == storage && classList == classes && prefersDark == dark
    {
      localStorage := storage;
      classList := classes;
      prefersDark := dark;
    }
  }

  /** `localStorage.getItem(key)`: the stored value, or `null` when the key is absent. */
  function GetItem(storage: map<string, string>, key: string): (r: Option<string>)
    ensures r.Some? <==> key in storage
    ensures r.Some? ==> r.value == storage[key]
  {
    if key in storage then Some(storage[key]) else None
  }
}
