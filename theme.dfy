/**
 * The dark/light theme button: a click toggles dark mode on the page body
 * and relabels the button with the mode a further click would switch to.
 */
module Theme {

  const LightModeLabel := "\U{2600}\U{FE0F} Light Mode"
  const DarkModeLabel := "\U{1F319} Dark Mode"

  /** The button label while dark mode is `dark`: it names the other mode. */
  function LabelFor(dark: bool): (caption: string)
    ensures caption == LightModeLabel <==> dark
    ensures caption == DarkModeLabel <==> !dark
  {
    if dark then LightModeLabel else DarkModeLabel
  }

  /** Whether the body is in dark mode, and the button's caption. */
  class ThemeToggle {
    var darkMode: bool
    var caption: string

    /** The page's starting mode and label, as its markup gives them. */
    constructor (dark: bool, initialLabel: string)
      ensures darkMode == dark && caption == initialLabel
    {
      darkMode := dark;
      caption := initialLabel;
    }

    /** A click on the theme button. */
    method Toggle()
      modifies this
      ensures darkMode == !old(darkMode)
      ensures caption == LabelFor(darkMode)
    {
      darkMode := !darkMode;
      caption := LabelFor(darkMode);
    }
  }
}
