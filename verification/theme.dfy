/** The light/dark theme controller of `setupDarkMode` (js/modern.js).

    The page state that the controller owns is three values: the
    `data-bs-theme` attribute on the document root (the marker; the
    controller writes `"dark"` or removes it), the `theme` entry of local
    storage, and the class of the toggle's icon (`fa-moon` or `fa-sun`).
    `enableDarkMode` / `disableDarkMode` are modelled only by their effect on
    the marker; their inline restyling is not part of this model. */
module Theme {
  import opened Wrappers

  const Dark: string := "dark"
  const Light: string := "light"

  datatype Icon = Moon | Sun

  datatype ThemeState = ThemeState(marker: Option<string>, stored: Option<string>, icon: Icon)

  /** True iff the root marker says the page is dark. */
  predicate IsDark(marker: Option<string>) {
    marker == Some(Dark)
  }

  /** The theme name a marker stands for. */
  function ThemeName(marker: Option<string>): string {
    if IsDark(marker) then Dark else Light
  }

  /** The icon that belongs with a marker: a sun offers the way back to light. */
  function IconFor(marker: Option<string>): Icon {
    if IsDark(marker) then Sun else Moon
  }

  /** The state the controller keeps: the marker is one the controller
      writes, storage holds its theme name, and the icon matches it. */
  predicate Consistent(st: ThemeState) {
    && (st.marker == None || st.marker == Some(Dark))
    && st.stored == Some(ThemeName(st.marker))
    && st.icon == IconFor(st.marker)
  }

  /** `enableDarkMode`, marker effect only. */
  function EnableDarkMode(st: ThemeState): (r: ThemeState)
    ensures IsDark(r.marker)
    ensures r.stored == st.stored && r.icon == st.icon
  {
    st.(marker := Some(Dark))
  }

  /** `disableDarkMode`, marker effect only: the attribute is removed. */
  function DisableDarkMode(st: ThemeState): (r: ThemeState)
    ensures r.marker == None
    ensures r.stored == st.stored && r.icon == st.icon
  {
    st.(marker := None)
  }

  /** The value of `localStorage.getItem('theme') || 'dark'`: a missing
      entry and the (falsy) empty string both fall back to `"dark"`. */
  function SavedTheme(stored: Option<string>): (t: string)
    ensures t == Dark || (stored.Some? && t == stored.value)
    ensures t == Dark <==> stored == None || stored.value == "" || stored.value == Dark
  {
    if stored == None || stored.value == "" then Dark else stored.value
  }

  /** Page load, given the storage entry `stored`. The marker and icon the
      document held before the script ran do not matter: both are written
      here. Only an explicit `"light"` gives the
      light theme, and then storage is left alone; anything else, including
      no entry or an unknown value, gives the dark theme and writes `"dark"`
      back. */
  function Init(stored: Option<string>): (r: ThemeState)
    ensures stored == Some(Light) ==> r == ThemeState(None, stored, Moon)
    ensures stored != Some(Light) ==> r == ThemeState(Some(Dark), Some(Dark), Sun)
    ensures Consistent(r)
  {
    var st := ThemeState(None, stored, Moon);
    if SavedTheme(stored) == Light then
      DisableDarkMode(st).(icon := Moon)
    else
      EnableDarkMode(st).(icon := Sun, stored := Some(Dark))
  }

  /** A click on the toggle. It reads the marker: `"dark"` switches to
      light, any other marker (or none) switches to dark; the new theme name
      is written to storage and the icon follows. Whatever the state before,
      the state after is consistent, and the marker has flipped. */
  function Toggle(st: ThemeState): (r: ThemeState)
    ensures Consistent(r)
    ensures IsDark(r.marker) <==> !IsDark(st.marker)
  {
    if st.marker == Some(Dark) then
      DisableDarkMode(st).(stored := Some(Light), icon := Moon)
    else
      EnableDarkMode(st).(stored := Some(Dark), icon := Sun)
  }

  /** `n` clicks on the toggle. */
  function ToggleTimes(st: ThemeState, n: nat): ThemeState
    decreases n
  {
    if n == 0 then st else ToggleTimes(Toggle(st), n - 1)
  }

  /** On a consistent state two clicks undo each other. */
  lemma ToggleTwice(st: ThemeState)
    requires Consistent(st)
    ensures Toggle(Toggle(st)) == st
  {
  }

  /** The controller's invariant holds after page load followed by any
      number of clicks. */
  lemma {:induction false} ConsistentAfterClicks(stored: Option<string>, n: nat)
    ensures Consistent(ToggleTimes(Init(stored), n))
  {
    ConsistentPreserved(Init(stored), n);
  }

  /** Clicking preserves the invariant. */
  lemma {:induction false} ConsistentPreserved(st: ThemeState, n: nat)
    requires Consistent(st)
    ensures Consistent(ToggleTimes(st, n))
    decreases n
  {
    if n > 0 {
      ConsistentPreserved(Toggle(st), n - 1);
    }
  }

  /** From a consistent state, an even number of clicks changes nothing and
      an odd number is one click. */
  lemma {:induction false} ToggleParity(st: ThemeState, n: nat)
    requires Consistent(st)
    ensures ToggleTimes(st, n) == if n % 2 == 0 then st else Toggle(st)
    decreases n
  {
    if n >= 2 {
      ToggleTwice(st);
      assert ToggleTimes(st, n) == ToggleTimes(Toggle(st), n - 1);
      assert ToggleTimes(Toggle(st), n - 1) == ToggleTimes(Toggle(Toggle(st)), n - 2);
      ToggleParity(st, n - 2);
    }
  }

  /** With no stored preference the page loads dark with the sun icon, and
      the preference is then recorded. */
  lemma DefaultIsDark()
    ensures Init(None) == ThemeState(Some(Dark), Some(Dark), Sun)
  {
  }
}
