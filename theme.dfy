/** The theme switch: the `data-theme` attribute of the document and its saved copy. */
module Theme {
  import opened Values

  /** The two themes the stylesheet knows. */
  predicate IsTheme(t: string)
  {
    t == "light" || t == "dark"
  }

  /** `loadTheme`: a saved theme is used when it is one of the two, anything else (nothing
      saved, or a stale value) gives the dark theme. */
  function LoadedTheme(saved: Option<string>): (t: string)
    ensures IsTheme(t)
    ensures saved.Some? && IsTheme(saved.value) ==> t == saved.value
    ensures !(saved.Some? && IsTheme(saved.value)) ==> t == "dark"
  {
    if saved == Some("light") || saved == Some("dark") then saved.value else "dark"
  }

  /** `toggleTheme`: a missing or empty attribute reads as dark; dark becomes light and every
      other value becomes dark. */
  function NextTheme(current: Option<string>): (t: string)
    ensures IsTheme(t)
    ensures t == "light" <==> current.None? || current.value == "" || current.value == "dark"
  {
    var c := if current.None? || current.value == "" then "dark" else current.value;
    if c == "dark" then "light" else "dark"
  }

  /** Switching twice from either theme comes back to it. */
  lemma ToggleTwice(t: string)
    requires IsTheme(t)
    ensures NextTheme(Some(NextTheme(Some(t)))) == t
  {
  }

  /** The saved value is read back as the theme that was shown: a reload keeps the last switch. */
  lemma ReloadKeepsToggle(current: Option<string>)
    ensures LoadedTheme(Some(NextTheme(current))) == NextTheme(current)
  {
  }

  /** The document attribute and the browser's saved value (`None` when unset). */
  class ThemeSwitch {
    var attribute: Option<string>
    var saved: Option<string>

    /** The page before any script ran: no attribute, and whatever the browser had saved. */
    constructor (saved: Option<string>)
      ensures attribute == None && this.saved == saved
    {
      attribute := None;
      this.saved := saved;
    }

    /** `loadTheme`: sets the attribute from the saved value and leaves the saved value alone. */
    method LoadTheme()
      modifies this`attribute
      ensures attribute == Some(LoadedTheme(saved))
      ensures IsTheme(attribute.value)
    {
      attribute := Some(LoadedTheme(saved));
    }

    /** `toggleTheme`: sets the attribute to the other theme and saves it. */
    method ToggleTheme()
      modifies this
      ensures attribute == Some(NextTheme(old(attribute)))
      ensures saved == attribute
    {
      var next := NextTheme(attribute);
      attribute := Some(next);
      saved := Some(next);
    }
  }

  /** Loading and then switching twice shows the loaded theme again, and saves it. */
  method LoadThenToggleTwice(stored: Option<string>) returns (shown: string, kept: Option<string>)
    ensures shown == LoadedTheme(stored) && kept == Some(shown)
  {
    var s := new ThemeSwitch(stored);
    s.LoadTheme();
    s.ToggleTheme();
    s.ToggleTheme();
    ToggleTwice(LoadedTheme(stored));
    shown, kept := s.attribute.value, s.saved;
  }
}
