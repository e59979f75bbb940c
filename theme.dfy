/** The light/dark theme: one flag, loaded from browser storage under the key
    `darkMode`, flipped and written back on every click of the toggle, with
    the page's body class, the toggle's icon and its tooltip rendered from
    the flag. */
module Theme {
  import opened Wrappers

  const StorageKey := "darkMode"

  /** The flag a stored value gives: dark only for the exact string "true";
      a missing key or any other string is light. */
  function Load(stored: Option<string>): bool {
    stored == Some("true")
  }

  /** `String(flag)`: what storing a boolean writes. */
  function Encode(dark: bool): string {
    if dark then "true" else "false"
  }

  /** The toggle's icon class and tooltip for a flag. */
  function Icon(dark: bool): string {
    if dark then "fas fa-sun" else "fas fa-moon"
  }

  function Tooltip(dark: bool): string {
    if dark then "Switch to Light Mode" else "Switch to Dark Mode"
  }

  /** Storing a flag and loading it back gives the same flag. */
  lemma LoadEncode(dark: bool)
    ensures Load(Some(Encode(dark))) == dark
  {
  }

  /** The stored value a flag was loaded from is written back unchanged
      exactly when it already was the encoding of that flag. */
  lemma EncodeLoad(stored: Option<string>)
    ensures Some(Encode(Load(stored))) == stored <==> stored == Some("true") || stored == Some("false")
  {
  }

  /** The flag and the stored value, as a value. */
  datatype Preference = Preference(isDarkMode: bool, stored: Option<string>)

  /** One click: flip the flag and store it. */
  function Click(p: Preference): (q: Preference)
    ensures q.isDarkMode != p.isDarkMode
    ensures Load(q.stored) == q.isDarkMode
  {
    var dark := !p.isDarkMode;
    Preference(dark, Some(Encode(dark)))
  }

  /** Two clicks restore the flag and what loading the stored value gives;
      the stored string itself comes back exactly when it was "true" or
      "false" and agreed with the flag. A missing key or another string is
      replaced by the canonical encoding of the same flag. */
  lemma ClickTwice(p: Preference)
    ensures Click(Click(p)).isDarkMode == p.isDarkMode
    ensures Load(p.stored) == p.isDarkMode ==> Load(Click(Click(p)).stored) == Load(p.stored)
    ensures Click(Click(p)) == p <==> p.stored == Some(Encode(p.isDarkMode))
  {
  }

  /** The page's theme state: the flag, the storage slot, the body's
      `dark-mode` class, and the toggle button's icon and tooltip when the
      page has a toggle. */
  class ThemeToggle {
    const hasToggle: bool
    var isDarkMode: bool
    var stored: Option<string>
    var bodyDark: bool
    var icon: string
    var title: string

    function Pref(): Preference
      reads this
    {
      Preference(isDarkMode, stored)
    }

    /** What is rendered matches the flag, and the flag is what the stored
        value loads as. */
    ghost predicate Valid()
      reads this
    {
      bodyDark == isDarkMode &&
      (hasToggle ==> icon == Icon(isDarkMode) && title == Tooltip(isDarkMode)) &&
      Load(stored) == isDarkMode
    }

    /** Page load: read the flag from storage and apply it. The body class,
        icon and tooltip the markup starts with are parameters. */
    constructor (stored: Option<string>, hasToggle: bool, bodyDark: bool, icon: string, title: string)
      ensures this.hasToggle == hasToggle && this.stored == stored
      ensures isDarkMode == Load(stored)
      ensures this.bodyDark == isDarkMode
      ensures this.icon == (if hasToggle then Icon(isDarkMode) else icon)
      ensures this.title == (if hasToggle then Tooltip(isDarkMode) else title)
      ensures Valid()
    {
      this.hasToggle := hasToggle;
      this.stored := stored;
      this.bodyDark, this.icon, this.title := bodyDark, icon, title;
      isDarkMode := stored == Some("true");
      new;
      ApplyTheme();
    }

    /** Render the flag: the body class always, the icon and tooltip only
        when the toggle exists. Nothing else changes, and the result does not
        depend on what was rendered before. */
    method ApplyTheme()
      modifies this
      ensures isDarkMode == old(isDarkMode) && stored == old(stored)
      ensures bodyDark == isDarkMode
      ensures icon == (if hasToggle then Icon(isDarkMode) else old(icon))
      ensures title == (if hasToggle then Tooltip(isDarkMode) else old(title))
    {
      if isDarkMode {
        bodyDark := true;
        if hasToggle {
          icon := "fas fa-sun";
          title := "Switch to Light Mode";
        }
      } else {
        bodyDark := false;
        if hasToggle {
          icon := "fas fa-moon";
          title := "Switch to Dark Mode";
        }
      }
    }

    /** The click handler: flip, store, re-render. */
    method Toggle()
      requires hasToggle && Valid()
      modifies this
      ensures Pref() == Click(old(Pref()))
      ensures Valid()
    {
      isDarkMode := !isDarkMode;
      stored := Some(Encode(isDarkMode));
      ApplyTheme();
    }

    /** Two clicks in a row bring back the flag and everything rendered from
        it; the stored value comes back when it was "true" or "false". */
    method ToggleTwice()
      requires hasToggle && Valid()
      modifies this
      ensures isDarkMode == old(isDarkMode) && bodyDark == old(bodyDark)
      ensures icon == old(icon) && title == old(title)
      ensures Load(stored) == Load(old(stored))
      ensures old(stored) == Some("true") || old(stored) == Some("false") ==> stored == old(stored)
      ensures Valid()
    {
      Toggle();
      Toggle();
    }
  }
}
