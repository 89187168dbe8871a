/** The light/dark theme switch: the `data-theme` attribute of the document
    root, the value kept in local storage under "theme", and the toggle
    button's `aria-pressed` attribute and icon. */
module Theme {
  import opened Wrappers

  /** Local-storage key under which the theme is kept. */
  const StorageKey: string := "theme"
  const Dark: string := "dark"
  const Light: string := "light"
  /** Sun (U+2600 with emoji presentation U+FE0F): shown while the dark theme is on. */
  const SunIcon: string := "\U{2600}\U{FE0F}"
  /** Crescent moon U+1F319: shown for every other theme. */
  const MoonIcon: string := "\U{1F319}"

  /** The theme a click on the toggle button switches to, given the current
      `data-theme`; any value other than "dark" counts as light. */
  function Toggled(theme: string): (r: string)
    ensures r == Dark || r == Light
    ensures r == Light <==> theme == Dark
  {
    if theme == Dark then Light else Dark
  }

  /** The `aria-pressed` value, the string form of a boolean. */
  function PressedFlag(theme: string): (r: string)
    ensures r == "true" || r == "false"
    ensures r == "true" <==> theme == Dark
  {
    if theme == Dark then "true" else "false"
  }

  /** The icon text for a theme. */
  function Icon(theme: string): (r: string)
    ensures r == SunIcon || r == MoonIcon
    ensures r == SunIcon <==> theme == Dark
  {
    if theme == Dark then SunIcon else MoonIcon
  }

  /** What `localStorage.getItem` gives for the theme key. */
  function Saved(storage: map<string, string>): (r: Option<string>)
    ensures r.Some? <==> StorageKey in storage
    ensures r.Some? ==> r.value == storage[StorageKey]
  {
    if StorageKey in storage then Some(storage[StorageKey]) else None
  }

  /** The theme chosen at page load: a non-empty saved value wins; a missing
      or empty one (both falsy) falls back to the colour-scheme preference. */
  function InitialTheme(saved: Option<string>, prefersDark: bool): (r: string)
    ensures r != ""
    ensures saved.Some? && saved.value != "" ==> r == saved.value
    ensures saved == None || saved == Some("") ==>
              (r == Dark || r == Light) && (r == Dark <==> prefersDark)
  {
    if saved.Some? && saved.value != "" then saved.value
    else if prefersDark then Dark else Light
  }

  /** On the two proper themes the toggle is an involution that always changes the theme. */
  lemma ToggleTwice(theme: string)
    requires theme == Dark || theme == Light
    ensures Toggled(theme) != theme
    ensures Toggled(Toggled(theme)) == theme
  {
  }

  /** Whatever the theme was (a stale or foreign stored value included), after
      one toggle the theme is proper and from then on the toggle alternates. */
  lemma {:induction false} ToggleAlternates(theme: string, k: nat)
    ensures ToggledTimes(theme, k + 1) == if k % 2 == 0 then Toggled(theme) else Toggled(Toggled(theme))
  {
    if k > 0 {
      ToggleAlternates(theme, k - 1);
      ToggleTwice(Toggled(theme));
    }
  }

  /** The theme after `k` clicks on the toggle. */
  function ToggledTimes(theme: string, k: nat): (r: string)
    ensures k == 0 ==> r == theme
    ensures k > 0 ==> r == Dark || r == Light
  {
    if k == 0 then theme else Toggled(ToggledTimes(theme, k - 1))
  }

  /** The part of the page the theme switch touches. The two flags say whether
      the elements `themeToggle` and `themeIcon` exist. */
  class ThemeSwitch {
    var dataTheme: string
    var storage: map<string, string>
    const hasButton: bool
    const hasIcon: bool
    var ariaPressed: string
    var iconText: string

    /** Storage holds the page's theme, and the button shows it when both elements exist. */
    ghost predicate InSync()
      reads this
    {
      && Saved(storage) == Some(dataTheme)
      && (hasButton && hasIcon ==> ariaPressed == PressedFlag(dataTheme) && iconText == Icon(dataTheme))
    }

    constructor (dataTheme: string, storage: map<string, string>, hasButton: bool, hasIcon: bool,
                 ariaPressed: string, iconText: string)
      ensures this.dataTheme == dataTheme && this.storage == storage
      ensures this.hasButton == hasButton && this.hasIcon == hasIcon
      ensures this.ariaPressed == ariaPressed && this.iconText == iconText
    {
      this.dataTheme := dataTheme;
      this.storage := storage;
      this.hasButton := hasButton;
      this.hasIcon := hasIcon;
      this.ariaPressed := ariaPressed;
      this.iconText := iconText;
    }

    /** Applies a theme: root attribute and storage always; button and icon
        only when both elements exist. */
    method SetTheme(theme: string)
      modifies this
      ensures dataTheme == theme
      ensures storage == old(storage)[StorageKey := theme]
      ensures hasButton && hasIcon ==> ariaPressed == PressedFlag(theme) && iconText == Icon(theme)
      ensures !(hasButton && hasIcon) ==> ariaPressed == old(ariaPressed) && iconText == old(iconText)
      ensures InSync()
    {
      dataTheme := theme;
      storage := storage[StorageKey := theme];
      if hasButton && hasIcon {
        ariaPressed := PressedFlag(theme);
        iconText := Icon(theme);
      }
    }

    /** Page-load initialisation; `prefersDark` is the result of the
        `prefers-color-scheme: dark` media query (false when unsupported). */
    method InitTheme(prefersDark: bool)
      modifies this
      ensures dataTheme == InitialTheme(Saved(old(storage)), prefersDark)
      ensures storage == old(storage)[StorageKey := dataTheme]
      ensures hasButton && hasIcon ==> ariaPressed == PressedFlag(dataTheme) && iconText == Icon(dataTheme)
      ensures !(hasButton && hasIcon) ==> ariaPressed == old(ariaPressed) && iconText == old(iconText)
      ensures InSync()
    {
      SetTheme(InitialTheme(Saved(storage), prefersDark));
    }

    /** The click handler of the toggle button. */
    method Toggle()
      modifies this
      ensures dataTheme == Toggled(old(dataTheme))
      ensures storage == old(storage)[StorageKey := dataTheme]
      ensures hasButton && hasIcon ==> ariaPressed == PressedFlag(dataTheme) && iconText == Icon(dataTheme)
      ensures !(hasButton && hasIcon) ==> ariaPressed == old(ariaPressed) && iconText == old(iconText)
      ensures InSync()
    {
      SetTheme(Toggled(dataTheme));
    }
  }
}
