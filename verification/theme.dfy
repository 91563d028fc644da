/** The page's light/dark toggle. The theme value comes from the theme
    provider and may be something other than the two names, such as
    `"system"`. */
module Theme {

  /** The toggle shows as pressed while the theme is dark. */
  predicate IsPressed(theme: string) {
    theme == "dark"
  }

  /** `theme === "dark" ? "light" : "dark"`: dark goes to light and every
      other value to dark. */
  function Toggle(theme: string): (r: string)
    ensures r == "dark" || r == "light"
    ensures r == "light" <==> theme == "dark"
  {
    if theme == "dark" then "light" else "dark"
  }

  /** Each press flips the pressed state. */
  lemma ToggleFlipsPressed(theme: string)
    ensures IsPressed(Toggle(theme)) <==> !IsPressed(theme)
  {
  }

  /** Pressing twice returns to dark or light; a third value such as
      `"system"` is not restored, it ends on light. */
  lemma ToggleTwice(theme: string)
    ensures theme == "dark" || theme == "light" ==> Toggle(Toggle(theme)) == theme
    ensures theme != "dark" && theme != "light" ==> Toggle(Toggle(theme)) == "light"
  {
  }
}
