# A verified model of the CV page script's decision logic

The page script `js/modern.js` enhances a static résumé page: a light/dark
theme toggle, smooth anchor scrolling, fade-in on scroll, an accessibility
patch and a guard on the mail-to contact form. Almost all of it is DOM
styling and browser wiring. This project models, as pure Dafny functions
over immutable values, the parts that make decisions:

- **Email validation** (`isValidEmail`): the regular expression
  `^[^\s@]+@[^\s@]+\.[^\s@]+$` as a predicate over strings (`Email.IsValidEmail`),
  a direct description of the same language (`Email.WellFormed`: no
  whitespace, exactly one `@`, a non-empty local part, a domain part with a
  `.` that is neither its first nor its last character), a proof that the two
  agree, and a one-pass scanner (`Email.ScanEmail`) proved to decide it.
- **Contact-form submit decision** (the `submit` handler in
  `setupContactForm`): the three field values are trimmed
  (`Text.Trim`, modelling `String.prototype.trim`) and the handler blocks with
  "Please fill in all fields", blocks with "Please enter a valid email
  address", or lets the mail client open with the thank-you alert
  (`ContactForm.Submit`).
- **Theme preference** (`setupDarkMode`, with the root-marker effect of
  `enableDarkMode` / `disableDarkMode`): a record of the `data-bs-theme`
  marker, the stored `theme` entry and the toggle icon; page load
  (`Theme.Init`) and a click (`Theme.Toggle`) are transitions, and the
  controller's invariant (`Theme.Consistent`: storage holds the marker's
  theme name and the icon matches) is proved after load and after any number
  of clicks.
- **aria-expanded defaulting** (`setupAccessibility`): the pass over the
  accordion buttons, as a map over their attribute values
  (`Accessibility.DefaultAriaExpanded`).

Modules: `Wrappers` (the `Option` type), `Text` (whitespace and trimming),
`Email`, `ContactForm`, `Theme`, `Accessibility`.

Whitespace: ECMAScript defines `trim()` and the regular-expression class `\s`
over one and the same set of code points (the WhiteSpace and LineTerminator
productions). `Text.IsWhitespace` is that set, written out with the space
separators of current Unicode; both the trimming and the email pattern use it.

JavaScript truthiness is modelled where the code relies on it: a trimmed
field is "missing" when it is the empty string; `localStorage.getItem('theme')
|| 'dark'` falls back to `"dark"` for a missing entry and for the empty string
(`Theme.SavedTheme`); `!getAttribute('aria-expanded')` holds for a missing
attribute and for the empty string (`Accessibility.IsSet`).

An absent, empty or unrecognised stored preference gives the dark theme, and
`"dark"` is written back (`Theme.Init`, js/modern.js:34-44).

## Model

| member | source | states |
|---|---|---|
| Text.Trim | js/modern.js:132-134 | the trimmed value is empty exactly when the field is all whitespace; otherwise it starts and ends with a non-whitespace character; it is the piece of the input between a leading and a trailing run of whitespace |
| Text.TrimIgnoresPadding | js/modern.js:132-134 | whitespace added before and after a value never changes its trimmed form |
| Text.TrimIdempotent | js/modern.js:132-134 | trimming an already trimmed value changes nothing |
| Email.IsValidEmail | js/modern.js:154-157 | a string matches when some `@` and some later `.` split it into three non-empty runs of characters that are neither whitespace nor `@`; every match is at least five characters long and starts and ends with such a character |
| Email.ValidEmailIffWellFormed | js/modern.js:154-157 | a string matches `^[^\s@]+@[^\s@]+\.[^\s@]+$` if and only if it has no whitespace, exactly one `@`, a non-empty part before the `@`, and a `.` strictly inside the part after it |
| Email.ScanEmail | js/modern.js:154-157 | a single left-to-right pass that stops at the first impossible character returns true exactly for the strings the pattern matches |
| Email.ProgressMeaning | js/modern.js:155 | the matcher state after the `@` is "satisfied" exactly when the text read has a dot with characters on both sides, and "dot pending" exactly when it has none but ends in a non-initial dot |
| Email.AcceptedExamples | js/modern.js:155-156 | `a@b.com` is accepted, and so is `a@b.c.` because an earlier dot has characters on both sides |
| Email.RejectedExamples | js/modern.js:155-156 | `not-an-email`, `a@b`, `a@.com`, `@b.com`, `a b@c.com` and `a@@b.com` are rejected |
| ContactForm.Submit | js/modern.js:130-150 | the submission is blocked with "Please fill in all fields" iff some trimmed field is empty; blocked with "Please enter a valid email address" iff all are non-empty and the trimmed email fails the pattern; allowed with the thank-you message otherwise; the default action is prevented exactly in the two blocked cases |
| ContactForm.BlankFieldBlocks | js/modern.js:136-140 | a blank name or feedback blocks with the fill-in-all-fields message, and the email's content then makes no difference |
| ContactForm.EmailPaddingIgnored | js/modern.js:132-146 | whitespace around the email never changes the decision, because the pattern sees the trimmed email |
| ContactForm.AllowedIffWellFormed | js/modern.js:136-149 | the mail client is reached exactly when name and feedback are not blank and the trimmed email is well-formed in the direct sense |
| ContactForm.PaddedSubmissionAllowed | js/modern.js:130-149 | a concrete submission with a padded valid email goes through with the thank-you message |
| Theme.SavedTheme | js/modern.js:34 | the preference read at load is `"dark"` when storage is empty, holds the empty string or holds `"dark"`, and the stored value otherwise |
| Theme.EnableDarkMode | js/modern.js:159-161 | sets the root marker to dark and leaves storage and icon alone |
| Theme.DisableDarkMode | js/modern.js:246-248 | removes the root marker and leaves storage and icon alone |
| Theme.Init | js/modern.js:34-44 | a stored `"light"` gives no marker, the moon icon and unchanged storage; any other stored value, including none, gives the dark marker, the sun icon and `"dark"` in storage; either way the controller invariant holds |
| Theme.Toggle | js/modern.js:46-56 | a click flips whether the marker is dark (a dark marker is removed; any other marker becomes dark) and always leaves storage and icon matching the new marker |
| Theme.ToggleTwice | js/modern.js:46-56 | from a consistent state two clicks return marker, storage and icon to where they were |
| Theme.ConsistentPreserved | js/modern.js:46-57 | any number of clicks keeps the controller invariant |
| Theme.ConsistentAfterClicks | js/modern.js:34-57 | after page load and any number of clicks, storage holds the marker's theme name and the icon matches the marker |
| Theme.ToggleParity | js/modern.js:46-57 | from a consistent state an even number of clicks changes nothing and an odd number equals one click |
| Theme.DefaultIsDark | js/modern.js:34-44 | with no stored preference the page loads dark with the sun icon and records `"dark"` |
| Accessibility.DefaultOne | js/modern.js:111-113 | a missing or empty value becomes `"false"`; a non-empty value is kept; either way the result is non-empty |
| Accessibility.DefaultAriaExpanded | js/modern.js:109-114 | every button ends with a non-empty value; a button that had one keeps it; a button whose value was missing or empty gets `"false"`; the number of buttons is unchanged |
| Accessibility.AriaIdempotent | js/modern.js:110-113 | running the pass twice is the same as running it once |
| Accessibility.AriaKeepsSetValues | js/modern.js:110-113 | when every button already has a value, the pass changes nothing |

## Left out

- The inline restyling performed by `enableDarkMode` and `disableDarkMode` (js/modern.js:163-243, 250-341): presentation policy over the live document; only the root-marker effect is modelled.
- Creating the toggle control and locating the second `.navbar-nav` (js/modern.js:17-31): when that container is missing the whole theme feature is skipped; the model describes the controller when it exists.
- Smooth scrolling and the Bootstrap collapse call (js/modern.js:61-84): browser scrolling APIs and a foreign library.
- The IntersectionObserver fade-in (js/modern.js:86-105): its behaviour comes from the browser and its threshold is a floating-point fraction of the viewport.
- Keyboard forwarding from focused cards to `click()` (js/modern.js:117-124) and the injected stylesheet (js/modern.js:351-485): event plumbing and CSS.
- `localStorage`, `alert`, `preventDefault` and document access: storage is the `stored` field, the alert text is the `message` field, and the prevented default action is the `blocked` flag.
- Theme.Consistent, Theme.ConsistentAfterClicks, Theme.ConsistentPreserved, Theme.ToggleTwice and Theme.ToggleParity hold only under two assumptions the model makes: storage access never throws, and this page is the only writer of the `theme` entry. In the program a throwing `setItem` at js/modern.js:50 or 54 leaves the marker flipped and the icon stale; a throw at js/modern.js:34 or 43 ends `setupDarkMode` before the click listener is registered and, since `init()` runs it first (js/modern.js:9-13), the accessibility pass and the form guard are never installed; and another tab of the same origin can change the stored entry without touching this page's marker, after which two clicks restore the marker but not the stored value.
- Strings are sequences of Unicode code points, whereas JavaScript strings are sequences of UTF-16 code units. For every representable string the results agree (whitespace and `@` all lie in the Basic Multilingual Plane, and without the `u` flag a surrogate pair is simply two `[^\s@]` units), but a string holding a lone surrogate cannot be represented.
- The whitespace set is written with the space separators of current Unicode; a JavaScript engine built on another Unicode version may classify a few rare separators differently.
