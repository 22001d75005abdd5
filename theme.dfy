/** The dark-mode toggle (`initializeDarkMode`, its click handler and `updateDarkModeIcon`):
    the `data-theme` attribute of the document, its persisted copy under the storage key
    `theme`, and the class of the toggle button's icon. */
module Theme {

  datatype Option<T> = None | Some(value: T)

  const Light: string := "light"
  const Dark: string := "dark"
  const SunIcon: string := "fas fa-sun"
  const MoonIcon: string := "fas fa-moon"

  /** `localStorage.getItem('theme') || 'light'`: a missing or empty saved value gives light. */
  function InitialTheme(saved: Option<string>): (theme: string)
    ensures theme != ""
    ensures saved.Some? && saved.value != "" ==> theme == saved.value
    ensures saved.None? || saved.value == "" ==> theme == Light
  {
    if saved.Some? && saved.value != "" then saved.value else Light
  }

  /** `currentTheme === 'dark' ? 'light' : 'dark'`. */
  function Toggled(current: string): (next: string)
    ensures next == Light || next == Dark
    ensures next == Light <==> current == Dark
  {
    if current == Dark then Light else Dark
  }

  /** The icon `updateDarkModeIcon` puts on the button. */
  function IconClass(theme: string): (cls: string)
    ensures cls == SunIcon || cls == MoonIcon
    ensures cls == SunIcon <==> theme == Dark
  {
    if theme == Dark then SunIcon else MoonIcon
  }

  /** Two clicks come back to the start exactly when the start is `light` or `dark`;
      any other saved value is replaced by `dark` at the first click. */
  lemma ToggleTwice(t: string)
    ensures Toggled(Toggled(t)) == t <==> t == Light || t == Dark
    ensures t != Dark ==> Toggled(t) == Dark
  {
  }

  class ThemeToggle {
    /** The `data-theme` attribute of the document element. */
    var theme: string
    /** The persisted value under the storage key `theme`. */
    var stored: Option<string>
    /** The class of the toggle button's icon. */
    var icon: string

    /** The icon always shows the applied theme. */
    ghost predicate Valid()
      reads this
    {
      theme != "" && icon == IconClass(theme)
    }

    /** `initializeDarkMode`: apply the saved theme (or light) without writing storage. */
    constructor (saved: Option<string>)
      ensures Valid()
      ensures theme == InitialTheme(saved) && stored == saved
      ensures saved.Some? && saved.value != "" ==> theme == saved.value
      ensures saved.None? || saved.value == "" ==> theme == Light
      ensures icon == SunIcon <==> theme == Dark
    {
      theme := InitialTheme(saved);
      stored := saved;
      icon := IconClass(InitialTheme(saved));
    }

    /** `updateDarkModeIcon(theme)`. */
    method UpdateIcon(t: string)
      modifies this
      ensures icon == IconClass(t)
      ensures theme == old(theme) && stored == old(stored)
    {
      if t == Dark {
        icon := SunIcon;
      } else {
        icon := MoonIcon;
      }
    }

    /** The click handler: read the theme (`|| 'light'`), flip it, apply it, persist it and
        update the icon. */
    method Click()
      requires Valid()
      modifies this
      ensures Valid()
      ensures theme == Toggled(old(theme)) && stored == Some(theme)
      ensures theme == Light <==> old(theme) == Dark
      ensures theme == Light || theme == Dark
      ensures icon == SunIcon <==> theme == Dark
    {
      var current := if theme == "" then Light else theme;
      var newTheme := if current == Dark then Light else Dark;
      theme := newTheme;
      stored := Some(newTheme);
      UpdateIcon(newTheme);
    }
  }

  /** From a first visit (nothing saved), one click persists `dark` and a second click
      persists `light` again. */
  method ToggleFromDefault() returns (first: Option<string>, second: Option<string>)
    ensures first == Some(Dark) && second == Some(Light)
  {
    var toggle := new ThemeToggle(None);
    toggle.Click();
    first := toggle.stored;
    toggle.Click();
    second := toggle.stored;
  }
}
