# Site script: verified model

This project models the interactive core of a small website's `script.js`:

- the contact form's three regular-expression validators (name, e-mail address, phone number);
- `validateField`, the per-field rule engine;
- the submit handler's decision to send or to refuse;
- the burger menu: its open/closed state machine, the page state that follows that state, and its
  keyboard focus trap;
- the scroll-spy: building the list of followed sections, and `updateActiveLink`, which marks
  the navigation link of the section being read;
- the active-page marking of navigation links (`initActiveMenuState`);
- `throttle` and `debounce`, as machines over discrete events (calls and timer expiries).

Module by module:

- Form values are JavaScript strings, modelled as sequences of UTF-16 code units (`JsText`).
  The module gives the ECMAScript whitespace set, `trim` and `indexOf`.
- Hrefs, the page path, section ids and field names are Dafny `string`s, which are sequences of
  Unicode scalar values. Only equality, prefix and containment tests are applied to them, and
  the answers to those do not depend on the encoding.
- Every regular expression is stated as the language it accepts. The e-mail pattern is decided
  by a small left-to-right matcher, proved equal to that language.
- The menu and the two timing wrappers are classes with one method per event. The scroll-spy
  update and the active-page marking are methods over an array of link marks, each proved
  against a predicate that describes the marks afterwards. Everything else is functions and
  lemmas.

## Model

| member | source | states |
|---|---|---|
| JsText.Trim | script.js:363 | `trim` gives the empty string exactly when the value is all whitespace; otherwise the result neither starts nor ends with whitespace |
| JsText.TrimSplits | script.js:363 | the trimmed value is the slice of the input between a whitespace prefix and a whitespace suffix |
| JsText.TrimUnique | script.js:363 | any middle slice that has whitespace around it and non-whitespace ends is the trimmed value |
| JsText.TrimIdempotent | script.js:363 | trimming twice equals trimming once |
| JsText.TrimIgnoresPadding | script.js:363 | extra whitespace around a value does not change its trimmed value |
| JsText.IndexOf | script.js:246 | `indexOf` gives -1 exactly when there is no occurrence; otherwise it gives the first index where one starts |
| JsText.IndexOfZero | script.js:240 | `indexOf(c) === 0` holds exactly when the string starts with `c` |
| Validators.AllIn | script.js:330-338 | a character-class run accepts exactly the strings whose every code unit is in the class |
| Validators.ValidatePhone | script.js:330-333 | accepted iff 10 to 20 code units, each `+`, an ASCII digit, whitespace, `(`, `)` or `-` |
| Validators.ValidateName | script.js:335-338 | accepted iff 2 to 50 code units, each an ASCII letter, a code unit in U+00C0..U+00FF, whitespace, `-` or `'` |
| Validators.ValidateEmail | script.js:325-328 | accepted iff the address is three non-empty runs without whitespace or `@`, joined by `@` and then by `.` |
| Validators.EmailLocalAtDomain | script.js:325-328 | the matcher accepts exactly a non-empty local part, an `@`, and a domain with no whitespace or `@` that has a `.` neither first nor last |
| Validators.EmailPatternIsLocalAtDomain | script.js:326 | the three-run language equals the local-part@domain form |
| Validators.EmailHasSingleAt | script.js:326 | an accepted address holds exactly one `@`, and not at either end |
| Validators.EmailExamples | script.js:326 | `a@b.co` is accepted; `a@b` and `a b@c.com` are rejected |
| Validators.PhoneAccepted | script.js:331 | ten digits and a formatted international number pass |
| Validators.PhoneRejected | script.js:331 | 9 or 21 code units, or a letter, fail |
| Validators.NameExamples | script.js:336 | an accented name with `'` and `-` passes; one letter, digits and 51 code units fail |
| ContactForm.ValidateField | script.js:362-399 | a required field that is blank after trimming fails with the required error and nothing else; a blank optional field passes; a non-blank name, email or phone field passes iff its validator accepts the trimmed value; a non-blank message passes iff it has at least 10 trimmed code units and otherwise fails with the too-short error; any other name passes unless it is required and blank |
| ContactForm.ErrorTextsDistinct | script.js:366-393 | each field error is shown with its own text, and none of them is the privacy box's text |
| ContactForm.VerdictIgnoresPadding | script.js:363 | whitespace around any field's value never changes its verdict |
| ContactForm.ValidFieldMeetsItsCheck | script.js:370-395 | a non-blank field that passes has a trimmed value its own check accepts |
| ContactForm.MessageExamples | script.js:390-394 | a 5-unit message fails even when optional; a blank optional one passes; a long one passes |
| ContactForm.Submit | script.js:414-440 | every present field is validated, with no short-circuit; the privacy box is marked with an error when unchecked and cleared when checked; the form is sent iff every present field passes and the privacy box, if present, is checked |
| ContactForm.BlankRequiredFieldBlocks | script.js:367-429 | a present required field left blank gets the required error and blocks sending |
| BurgerMenu.TrapTarget | script.js:75-88 | focus is redirected iff the list is non-empty and Shift+Tab is on the first element or Tab is on the last; the target is the other end |
| BurgerMenu.FocusCycles | script.js:75-88 | over distinct focusable elements, Tab and Shift+Tab move one place forward or backward, wrapping between the last and the first |
| BurgerMenu.Menu.constructor | script.js:37-49 | the menu starts closed with no focusable elements; the page mirrors that state iff the markup starts closed |
| BurgerMenu.Menu.OpenMenu | script.js:51-66 | the menu is open; panel, `aria-expanded` and scroll lock follow; the focusable list is refreshed and its first element gets focus |
| BurgerMenu.Menu.CloseMenu | script.js:68-73 | the menu is closed and the page mirrors it; focus and the focusable list are unchanged |
| BurgerMenu.Menu.ToggleClick | script.js:90-97 | a toggle click flips the state, through open or close |
| BurgerMenu.Menu.KeyDown | script.js:99-107 | Escape closes an open menu and focuses the toggle; Tab on an open menu cancels the key and moves focus exactly when the trap redirects; other keys, or a closed menu, change nothing |
| BurgerMenu.Menu.DocumentClick | script.js:109-113 | a click outside both the toggle and the panel closes an open menu; any other click changes nothing; focus and the focusable list never change |
| BurgerMenu.Menu.NavLinkClick | script.js:115-121 | below 1024 px a link click closes the menu; otherwise nothing changes |
| BurgerMenu.Menu.ResizeSettled | script.js:123-127 | once resizing settles at 1024 px or wider, an open menu closes; otherwise nothing changes; focus and the focusable list never change |
| ScrollSpy.BuildSections | script.js:172-188 | one entry per link whose href is set, is not `#` or `#!`, and selects an element; entries are in link order, and each id is the href without its first character |
| ScrollSpy.FirstSpanning | script.js:198-208 | the first section, in list order, whose span `[top, top + height)` holds the reading position; none iff no section spans it |
| ScrollSpy.UpdateActiveLink | script.js:195-218 | the first spanning section's link becomes active with `aria-current="location"`; every other followed link is cleared; other links keep their marks |
| ScrollSpy.AtMostOneActive | script.js:195-218 | after an update at most one followed link is active; it belongs to the first spanning section; none is active when no section spans the position |
| ScrollSpy.InitScrollSpy | script.js:168-222 | stops without touching the page iff no link is followed and found; otherwise there is exactly one entry per followed and found link, in link order, the header height is the header's or 80, and the links are marked as one update does |
| Timing.ThrottleBurst | script.js:22-35 | a burst of calls runs the function once, with the first call's arguments, outside a lockout, and not at all inside one |
| Timing.ThrottleOncePerWindow | script.js:27-33 | the function runs at most once per lockout window |
| Timing.ThrottleNeverDefers | script.js:27-33 | a dropped call is never run later: an expiry runs nothing and ends the lockout |
| Timing.Throttle.constructor | script.js:22-23 | a new wrapper is not in lockout and has run nothing |
| Timing.Throttle.Invoke | script.js:24-34 | outside a lockout a call runs the function with its arguments and starts the lockout; inside one it is dropped; this agrees with the step function |
| Timing.Throttle.TimerFires | script.js:30-32 | the expiry ends the lockout and runs nothing |
| Timing.DebouncedAppend | script.js:10-20 | handling two stretches of events one after the other is handling them together |
| Timing.DebounceCallsOnlyReschedule | script.js:15-18 | calls alone never run the function; the pending timeout holds the last call's arguments |
| Timing.DebounceBurst | script.js:10-20 | a burst of calls followed by quiet runs the function exactly once, with the last call's arguments |
| Timing.DebounceOncePerQuietPeriod | script.js:10-20 | the function runs at most once per timeout expiry |
| Timing.Debounce.constructor | script.js:10-11 | a new wrapper has no pending timeout and has run nothing |
| Timing.Debounce.Invoke | script.js:12-18 | a call replaces any pending timeout with one for its own arguments and runs nothing |
| Timing.Debounce.TimerFires | script.js:16-18 | the pending timeout runs the function with its arguments, then nothing is pending |
| ActiveMenu.NormalizePath | script.js:230-234 | the path compared is never empty or `/`: those become `/index.html`, anything else is kept |
| ActiveMenu.MarkActivePage | script.js:225-251 | a link with no href, an empty href or an href starting with `#` keeps its marks; a link whose href matches the page is active with `aria-current="page"`; every other link is cleared |
| ActiveMenu.SkippedIffFragment | script.js:240 | a link is skipped exactly when its href is absent, empty or starts with `#` |
| ActiveMenu.ThirdAlternativeDead | script.js:244-247 | the third alternative of the match never fires: a link matches iff it equals the path, or it is `/` and the path contains `index.html` |
| ActiveMenu.RootMarksHomeLinks | script.js:232-247 | on the site root both `/` and `/index.html` are marked |
| ActiveMenu.RootLinkOnEveryIndexPage | script.js:246 | the link `/` is marked on every page whose path ends in `index.html`, in any directory |
| ActiveMenu.OnlyExactMatches | script.js:244-247 | away from the site root, a link other than `/` is marked iff its href is exactly the path |

## Left out

- DOM plumbing: lookups become parameters of the operations, such as the selector results
  (`query`), the focusable descendants, the section layout and where a click landed.
- `querySelector` on an href that is not a valid selector: the script throws there, which ends
  `initScrollSpy` and skips every initialiser that `app.init` calls after it
  (script.js:571-582). The model does not capture the exception; such an href counts as
  selecting nothing.
- Real time: `setTimeout` and `clearTimeout` are explicit expiry events, with no clock, wait
  or limit values. Whether a new call arrives before or after an expiry is decided by the
  order of the events.
- The `app.*Init` guards that make each initialiser run once, and the listener registration
  itself.
- Feedback that does not change the modelled state: `showError` and `clearError` markup, the
  `blur` and `input` listeners (they call `validateField` or clear its error display), the
  toast notices, the disabled button, the spinner and the redirect after sending.
- The rest of the script: smooth scrolling, image placeholders, scroll-to-top, header shadow,
  privacy modal links and button ripples.
- ScrollSpy.UpdateActiveLink: `pageYOffset`, `offsetTop` and `offsetHeight` are whole
  numbers, and fractional scroll offsets are not modelled.
- BurgerMenu.FocusCycles: the browser's own Tab move between the trap's two ends is assumed
  to follow the list's document order, which holds only when no element has a positive
  `tabindex`.
- BurgerMenu.Menu.constructor: the initial `show`, `aria-expanded` and `u-no-scroll` values
  come from the markup. The model takes them as parameters and only proves that the page
  mirrors the menu when the markup starts closed.
- JsText.Units: example strings are written with characters of the Basic Multilingual Plane
  only, because a character outside it becomes U+FFFD rather than a surrogate pair.
