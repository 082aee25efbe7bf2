/** The theme controller: maps a theme name to the body's theme class tokens,
    persists the name in one storage slot (`portfolio-theme`), and keeps the
    theme selector buttons' `active` class in sync with the current theme.
    A theme name is `Option<string>`: a button without a `data-theme`
    attribute hands `undefined` (here `None`) to `setTheme`. */
module Theme {
  import opened Options
  import opened ActiveMarks

  /** The four mutually exclusive theme tokens that `setTheme` removes first. */
  const ThemeTokens: set<string> := {"light", "dark", "theme-neon", "theme-gradient"}

  /** The theme names that `setTheme` recognises. */
  const KnownThemes: set<string> := {"light", "dark", "neon", "gradient"}

  /** Theme used when the storage slot holds nothing usable. */
  const DefaultTheme: string := "dark"

  /** A theme selector button: its `data-theme` and whether it is `active`. */
  type ThemeButton = Marked<Option<string>>

  /** The tokens `setTheme` adds for a theme name. */
  function TokensFor(theme: Option<string>): (r: set<string>)
    ensures r <= ThemeTokens
    ensures r == {} <==> !(theme.Some? && theme.value in KnownThemes)
    // the tokens are mutually exclusive groups
    ensures !("light" in r && "dark" in r)
    ensures !("theme-neon" in r && "theme-gradient" in r)
    ensures ("theme-neon" in r || "theme-gradient" in r) ==> "dark" in r
    // each known name is recognised by its own tokens
    ensures "light" in r <==> theme == Some("light")
    ensures "theme-neon" in r <==> theme == Some("neon")
    ensures "theme-gradient" in r <==> theme == Some("gradient")
  {
    if theme == Some("light") then {"light"}
    else if theme == Some("dark") then {"dark"}
    else if theme == Some("neon") then {"dark", "theme-neon"}
    else if theme == Some("gradient") then {"dark", "theme-gradient"}
    else {}
  }

  /** The body's class set after `setTheme(theme)`. */
  function ApplyTheme(classes: set<string>, theme: Option<string>): (r: set<string>)
    ensures forall c :: c !in ThemeTokens ==> (c in r <==> c in classes)
    ensures r * ThemeTokens == TokensFor(theme)
  {
    (classes - ThemeTokens) + TokensFor(theme)
  }

  /** What `localStorage.setItem` keeps: the value coerced to a string. */
  function StorageValue(theme: Option<string>): (r: string)
    ensures theme.Some? ==> r == theme.value
    // an absent `data-theme` and the name "undefined" are saved alike
    ensures r == "undefined" <==> theme == None || theme == Some("undefined")
  {
    match theme
    case Some(name) => name
    case None => "undefined"
  }

  /** `loadTheme`: the stored value, unless the slot is empty or holds "". */
  function LoadTheme(stored: Option<string>): (r: string)
    ensures r != ""
    ensures (stored.Some? && stored.value != "") <==> (stored.Some? && r == stored.value)
    ensures !(stored.Some? && stored.value != "") ==> r == DefaultTheme
  {
    if stored.Some? && stored.value != "" then stored.value else DefaultTheme
  }

  /** A reload restores every saved theme name except the empty one, and an
      `undefined` name comes back as the string "undefined". */
  lemma ReloadRestoresName(theme: Option<string>)
    ensures theme == Some("") ==> LoadTheme(Some(StorageValue(theme))) == DefaultTheme
    ensures theme.Some? && theme.value != "" ==> LoadTheme(Some(StorageValue(theme))) == theme.value
    ensures theme.None? ==> LoadTheme(Some(StorageValue(theme))) == "undefined"
  {
  }

  /** A reload puts back the same body classes that `setTheme` left, unless the
      saved name was the empty string (which reloads as the default theme). */
  lemma ReloadRestoresClasses(classes: set<string>, theme: Option<string>)
    requires theme != Some("")
    ensures ApplyTheme(classes, Some(LoadTheme(Some(StorageValue(theme))))) == ApplyTheme(classes, theme)
  {
  }

  /** Applying a second theme removes every trace of the first. */
  lemma ApplyThemeOverwrites(classes: set<string>, first: Option<string>, second: Option<string>)
    ensures ApplyTheme(ApplyTheme(classes, first), second) == ApplyTheme(classes, second)
  {
  }

  /** `setTheme(t)` twice leaves the classes and the buttons as `setTheme(t)` once. */
  lemma SetThemeIdempotent(classes: set<string>, buttons: seq<ThemeButton>, theme: Option<string>)
    ensures ApplyTheme(ApplyTheme(classes, theme), theme) == ApplyTheme(classes, theme)
    ensures MarkAll(MarkAll(buttons, theme), theme) == MarkAll(buttons, theme)
  {
  }

  /** The page's theme controller (`ThemeManager`). */
  class ThemeManager {
    var currentTheme: Option<string>
    /** The `portfolio-theme` storage slot. */
    var stored: Option<string>
    /** The class list of `document.body`. */
    var bodyClasses: set<string>
    var buttons: array<ThemeButton>

    /** The body, the storage slot and the buttons all reflect `currentTheme`. */
    ghost predicate Synced()
      reads this, buttons
    {
      && bodyClasses * ThemeTokens == TokensFor(currentTheme)
      && stored == Some(StorageValue(currentTheme))
      && InSync(buttons[..], currentTheme)
    }

    /** Construction loads the saved theme and applies it at once. */
    constructor (slot: Option<string>, initialClasses: set<string>, themeButtons: seq<ThemeButton>)
      ensures currentTheme == Some(LoadTheme(slot))
      ensures stored == Some(LoadTheme(slot))
      ensures bodyClasses == ApplyTheme(initialClasses, currentTheme)
      ensures fresh(buttons) && buttons[..] == MarkAll(themeButtons, currentTheme)
      ensures Synced()
    {
      currentTheme := Some(LoadTheme(slot));
      stored := slot;
      bodyClasses := initialClasses;
      buttons := new ThemeButton[|themeButtons|](i requires 0 <= i < |themeButtons| => themeButtons[i]);
      new;
      assert buttons[..] == themeButtons;
      SetTheme(currentTheme);
    }

    /** `saveTheme`: write the name to the storage slot. */
    method SaveTheme(theme: Option<string>)
      modifies this`stored
      ensures stored == Some(StorageValue(theme))
    {
      stored := Some(StorageValue(theme));
    }

    /** `setTheme`: swap the theme tokens, record and save the name, re-scan the buttons. */
    method SetTheme(theme: Option<string>)
      modifies this`currentTheme, this`stored, this`bodyClasses, buttons
      ensures currentTheme == theme
      ensures stored == Some(StorageValue(theme))
      ensures bodyClasses == ApplyTheme(old(bodyClasses), theme)
      ensures buttons[..] == MarkAll(old(buttons[..]), theme)
      ensures Synced()
    {
      bodyClasses := bodyClasses - ThemeTokens;
      if theme == Some("light") {
        bodyClasses := bodyClasses + {"light"};
      } else if theme == Some("dark") {
        bodyClasses := bodyClasses + {"dark"};
      } else if theme == Some("neon") {
        bodyClasses := bodyClasses + {"dark", "theme-neon"};
      } else if theme == Some("gradient") {
        bodyClasses := bodyClasses + {"dark", "theme-gradient"};
      }
      currentTheme := theme;
      SaveTheme(theme);
      UpdateActiveThemeButton();
      MarkAllKeepsKeys(old(buttons[..]), theme);
    }

    /** `updateActiveThemeButton`: a button is active iff its `data-theme` is the current theme. */
    method UpdateActiveThemeButton()
      modifies buttons
      ensures buttons[..] == MarkAll(old(buttons[..]), currentTheme)
      ensures Keys(buttons[..]) == Keys(old(buttons[..]))
    {
      MarkInPlace(buttons, currentTheme);
      MarkAllKeepsKeys(old(buttons[..]), currentTheme);
    }

    /** The click listener of button `i`: `setTheme(btn.dataset.theme)`. */
    method ClickThemeButton(i: int)
      requires 0 <= i < buttons.Length
      modifies this`currentTheme, this`stored, this`bodyClasses, buttons
      ensures currentTheme == old(buttons[i].key)
      ensures buttons[i].active
      ensures bodyClasses == ApplyTheme(old(bodyClasses), currentTheme)
      ensures buttons[..] == MarkAll(old(buttons[..]), currentTheme)
      ensures Synced()
    {
      SetTheme(buttons[i].key);
    }
  }
}
