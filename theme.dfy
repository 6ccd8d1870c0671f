/** The application's theme handling: the initial theme (stored choice,
    else the system preference), the light/dark toggle, the effect that
    applies and stores the theme, and the `useTheme` guard. Storage, the
    root element's class list and the colour-scheme query are plain state
    and inputs here. */
module AppTheme {
  import opened Wrappers

  datatype Theme = Light | Dark

  /** The storage key the provider reads and writes. */
  const StorageKey := "lu-theme"

  /** The class the root element carries in dark mode. */
  const DarkClass := "dark"

  function ThemeName(theme: Theme): string {
    match theme
    case Light => "light"
    case Dark => "dark"
  }

  /** The initial theme: light without a window; a stored value that is
      exactly 'light' or 'dark'; otherwise dark iff the system prefers dark
      (a missing `matchMedia` counts as not preferring dark). */
  function InitialTheme(hasWindow: bool, stored: Option<string>, prefersDark: bool): (theme: Theme)
    ensures !hasWindow ==> theme == Light
    ensures hasWindow && (stored == Some("light") || stored == Some("dark")) ==> stored == Some(ThemeName(theme))
    ensures hasWindow && stored != Some("light") && stored != Some("dark") ==> (theme == Dark <==> prefersDark)
  {
    if !hasWindow then Light
    else if stored == Some("light") then Light
    else if stored == Some("dark") then Dark
    else if prefersDark then Dark
    else Light
  }

  /** A stored theme is restored on the next mount, whatever the system
      preference. */
  lemma StoredThemeRestored(theme: Theme, prefersDark: bool)
    ensures InitialTheme(true, Some(ThemeName(theme)), prefersDark) == theme
  {
  }

  /** The updater of `toggleTheme`. */
  function Toggle(theme: Theme): (next: Theme)
    ensures next != theme
  {
    if theme == Light then Dark else Light
  }

  /** Toggling twice restores the theme. */
  lemma ToggleTwice(theme: Theme)
    ensures Toggle(Toggle(theme)) == theme
  {
  }

  /** The value the provider puts in context (the toggle callback omitted). */
  datatype ThemeContextValue = ThemeContextValue(theme: Theme)

  /** `useTheme()`: the context value, or the error it throws outside a provider. */
  function UseTheme(context: Option<ThemeContextValue>): (r: Result<ThemeContextValue, string>)
    ensures r.Failure? <==> context.None?
    ensures r.Success? ==> r.value == context.value
    ensures r.Failure? ==> r.error == "useTheme must be used within ThemeProvider"
  {
    match context
    case None => Failure("useTheme must be used within ThemeProvider")
    case Some(value) => Success(value)
  }

  function Lookup(storage: map<string, string>, key: string): Option<string> {
    if key in storage then Some(storage[key]) else None
  }

  /** The provider in a browser: its theme state, the window's storage and
      the root element's classes. */
  class ThemeProvider {
    var theme: Theme
    var storage: map<string, string>
    var rootClasses: set<string>

    /** The effect has run for the current theme: storage holds its name and
      the root carries the dark class iff the theme is dark. */
    ghost predicate Applied()
      reads this
    {
      Lookup(storage, StorageKey) == Some(ThemeName(theme)) && (DarkClass in rootClasses <==> theme == Dark)
    }

    /** Mounting: the lazy initial state, then the effect. */
    constructor (storage: map<string, string>, rootClasses: set<string>, prefersDark: bool)
      ensures theme == InitialTheme(true, Lookup(storage, StorageKey), prefersDark)
      ensures this.storage == storage[StorageKey := ThemeName(theme)]
      ensures this.rootClasses == if theme == Dark then rootClasses + {DarkClass} else rootClasses - {DarkClass}
      ensures Applied()
    {
      theme := InitialTheme(true, Lookup(storage, StorageKey), prefersDark);
      this.storage := storage;
      this.rootClasses := rootClasses;
      new;
      ApplyTheme();
    }

    /** The effect: add or remove the dark class, then store the theme. */
    method ApplyTheme()
      modifies this
      ensures theme == old(theme)
      ensures rootClasses == if theme == Dark then old(rootClasses) + {DarkClass} else old(rootClasses) - {DarkClass}
      ensures storage == old(storage)[StorageKey := ThemeName(theme)]
      ensures Applied()
    {
      if theme == Dark {
        rootClasses := rootClasses + {DarkClass};
      } else {
        rootClasses := rootClasses - {DarkClass};
      }
      storage := storage[StorageKey := ThemeName(theme)];
    }

    /** `toggleTheme()`, followed by the effect the change triggers. */
    method ToggleTheme()
      modifies this
      ensures theme == Toggle(old(theme))
      ensures rootClasses == if theme == Dark then old(rootClasses) + {DarkClass} else old(rootClasses) - {DarkClass}
      ensures storage == old(storage)[StorageKey := ThemeName(theme)]
      ensures Applied()
    {
      theme := Toggle(theme);
      ApplyTheme();
    }
  }
}
