# Dashboard page controller: decision rules in Dafny

`main.js` drives a dashboard web page. It handles the navigation menu, scroll effects,
collapsible "platform" panels, contact-form validation and toast notifications.
Almost all of it reads or writes the document tree directly. This project pulls out
the decision rules inside that glue and states them over plain state:

- **Field validator** (`validation.dfy`, module `Validation`). `validateField` is a
  pure decision over the trimmed value, the input type and the `required` flag.
  - The email and phone regular expressions are given twice: once as their languages
    (what the regex matches, whatever choice the engine makes), and once as
    deterministic checks. Lemmas prove the two agree.
  - The browser's URL parser is an opaque `string -> bool` parameter.
- **Debounce** (`debounce.dfy`, module `Debounce`). `debounce` (main.js:822-834) and
  its identical global copy (main.js:920-932) are one state machine.
  - The closure variable `timeout` is modelled as an optional pending timer. The
    timer carries the arguments its `later` closure captured.
  - There are two events: a call, and the timer firing.
- **Platform panels** (`panels.dfy`, module `Panels`). `openPlatform`, `closePlatform`,
  `togglePlatform` and `scrollToPlatform` work over a map from panel id to its flags:
  content `active`, arrow `active`, `aria-expanded`, and `display`.
  - Each deferred "hide" that `closePlatform` schedules is queued as an event.
  - The class `PlatformManager` keeps the `forEach` loop that closes siblings. It is
    proved equal to the function `Toggled`.
  - The lemmas give the at-most-one-open invariant that `togglePlatform` keeps. They
    also show that the `scrollToPlatform` path (`openPlatform` alone) can break it.
- **Notification slot** (`notifications.dfy`, module `Notifications`).
  - `showNotification` replaces the single notification.
  - Each notification has an id. Its close-click removal timer and its 5 s
    auto-dismiss timer are tagged with that id.
  - `getNotificationColor` is a total colour map.
- **Navigation** (`navigation.dfy`, module `Navigation`) covers three rules:
  - the header and back-to-top scroll thresholds;
  - `updateActiveNavLink`, where the last section that covers `scrollY + 100` wins;
  - the hamburger/nav-menu pair, whose two `active` classes always move together.
- **Contact form** (`form.dfy`, module `Form`). The blur/input/focus handlers of each
  field and `handleFormSubmit` are split at its one `await`:
  - `Submit` validates every field. It then either reports an error, or disables the
    button and saves its label.
  - `Complete` is the continuation after the await. It reports the outcome, resets
    the form on success, and always restores the saved label.

Timers are discrete events that fire by position in a queue of pending timers, in any
order. Real durations are not modelled.

The model follows the code in these details, where it does something other than its names suggest:

- The phone rule allows `+` only as the single first character, and any `\s`
  whitespace. It does not accept "any of `[0-9+()\- ]`".
- With `immediate` set, every call restarts the debounce window. The window is not
  counted from the first call.
- Panels have no `Opening`/`Closing` states. There is a content `active` class plus a
  deferred hide that checks that class when it fires.
- `scrollToPlatform` opens a panel without closing the others.
- An unknown panel id is logged and ignored. It is not a thrown error.
- The model lets a second submission start while one is awaiting, and each awaiting
  submission keeps the label it saved. In a browser, a disabled submit button that is the
  form's default button blocks both clicking and Enter-key submission, so only a script
  could start that second submission.

## Model

| member | source | states |
|---|---|---|
| Validation.LeadingSpaces | main.js:439 | the count covers whitespace only and stops at the first other character |
| Validation.TrailingStart | main.js:439 | everything from the returned position on is whitespace, and the character just before it is not (unless the lower bound was reached) |
| Validation.Trim | main.js:439 | `trim()` cuts only whitespace, from both ends, and leaves a value that neither starts nor ends with whitespace; it is empty exactly when the value is blank |
| Validation.TrimKeepsTrimmed | main.js:439 | a value with no outer whitespace is unchanged by `trim()` |
| Validation.IsEmailMatchesPattern | main.js:455-459 | the email check accepts exactly the language of `/^[^\s@]+@[^\s@]+\.[^\s@]+$/` |
| Validation.IsEmailMatchesShape | main.js:455-459 | the email check accepts exactly the strings with no whitespace, exactly one `@`, something before it, and a `.` after it that is neither first nor last |
| Validation.IsPhoneMatchesPattern | main.js:461-465 | the phone check accepts exactly the language of `/^[\+]?[0-9\s\-\(\)]+$/`; a `+` is accepted only at position 0 and never alone |
| Validation.TypeRule | main.js:454-473 | a type rule only ever fails a field with the message of the field's own type, and never one of another type |
| Validation.Validate | main.js:437-480 | an error is only ever reported for a field inside a form group, and it is one of the four messages |
| Validation.ValidateAcceptsAcceptable | main.js:437-473 | a field passes iff it is outside any form group, or it is not blank-but-required and its non-blank trimmed value is in its type's regex language (or parses as a URL) |
| Validation.ValidateRuleOrder | main.js:442-473 | the required rule wins on a blank value; a blank optional field passes; a field outside a form group passes; a failing field that is not a blank required one fails with its own type's message, on a non-blank value |
| Validation.ValidateEmptyRequiredEmail | main.js:451-453 | an empty required email field fails with "Este campo es obligatorio" |
| Validation.ValidateGoodEmail | main.js:454-459 | `a@b.com` passes as a required email |
| Validation.ValidateGoodPhone | main.js:460-465 | `+1 (555) 123-4567` passes as a phone number |
| Validation.ValidateWordsAsPhone | main.js:460-465 | `call me` fails with the phone message |
| Validation.ValidateLonePlus | main.js:460-465 | a lone `+` fails with the phone message |
| Validation.ValidateInnerPlus | main.js:460-465 | `1+2` fails with the phone message |
| Validation.ValidateTrimmedPhone | main.js:460-465 | on an already trimmed, non-empty value in a form group, the telephone rule alone decides: valid exactly when the phone check accepts it |
| Debounce.CallReplacesTimer | main.js:829-832 | a call leaves exactly one pending timer, which holds its own arguments; without `immediate` it never runs `func`; with it, it runs `func` iff no timer was pending |
| Debounce.FireRunsCapturedArgs | main.js:825-828 | a fire clears the timer; without `immediate` it runs `func` once with the captured arguments; with it, it never runs `func` |
| Debounce.CallBurst | main.js:822-834 | a burst of calls leaves the last call's arguments pending, and it runs `func` (once, with the first call's arguments) only when `immediate` is set and the wrapper was idle |
| Debounce.BurstThenFire | main.js:822-834 | a burst followed by the fire runs `func` exactly once: with the last call's arguments (trailing edge), or with the first call's arguments (leading edge, from idle) |
| Debounce.TrailingRunsAtMostOncePerFire | main.js:822-834 | without `immediate`, over any event sequence, `func` runs at most as many times as timers fire |
| Debounce.LeadingRunsAtMostOncePerCall | main.js:822-834 | with `immediate`, over any event sequence, `func` runs at most as many times as the wrapper is called |
| Debounce.Debounced.constructor | main.js:822-823 | a new wrapper has no pending timer |
| Debounce.Debounced.Invoke | main.js:824-833 | the wrapper's new timer and the `func` invocation are those of `Step` on a call |
| Debounce.Debounced.FireTimer | main.js:825-828 | the wrapper's new timer and the `func` invocation are those of `Step` on a fire |
| Panels.AriaSynced | main.js:306-314 | every header that carries `.platform-header` has `aria-expanded` equal to its content's `active`; a previous sibling without that class is left untouched; no panel appears or disappears, and nothing but `aria-expanded` changes |
| Panels.ToggleUnknownIsNoOp | main.js:353-367 | an unknown id, or a panel without header or arrow, leaves every panel and the hide queue unchanged |
| Panels.ToggleOpening | main.js:369-385 | opening leaves the panel open and in lockstep, every other well-formed panel inactive, and panels without header or arrow untouched |
| Panels.ToggleClosing | main.js:380-385 | closing deactivates only the panel, in lockstep, and leaves its display and every other panel unchanged |
| Panels.ToggleKeepsAtMostOneOpen | main.js:369-385 | `togglePlatform` preserves "at most one well-formed panel open" |
| Panels.ToggleKeepsLockstep | main.js:316-385 | `togglePlatform` keeps every well-formed panel's arrow and `aria-expanded` equal to its content's `active` |
| Panels.ToggleTwiceCloses | main.js:353-385 | toggling a closed panel twice leaves it closed, with its hide queued |
| Panels.CloseKeepsAtMostOneOpen | main.js:334-351 | `closePlatform` preserves "at most one open" |
| Panels.OpenCanBreakAtMostOneOpen | main.js:889-903 | `openPlatform` on its own, as `scrollToPlatform` calls it, turns a state with one open panel into one with two |
| Panels.OpenCloseLockstep | main.js:316-351 | open and close set the arrow and `aria-expanded` together with the content, and touch no other panel |
| Panels.HideOnlyChangesDisplay | main.js:345-349 | a deferred hide changes only one panel's display, so it keeps both invariants |
| Panels.HideSkippedAfterReopen | main.js:345-349 | a panel closed and then reopened before its hide fires stays open and displayed |
| Panels.HideAppliesToClosedPanel | main.js:345-349 | a hide that fires while its panel is still closed sets `display` to none |
| Panels.PlatformManager.constructor | main.js:281-314 | the initial panels are the `AriaSynced` markup, and no hide is pending |
| Panels.PlatformManager.Open | main.js:316-332 | the panels become `OpenAt` of the old ones; nothing is queued |
| Panels.PlatformManager.Close | main.js:334-351 | the panels become `CloseAt` of the old ones, and the panel's hide is queued when the close acts |
| Panels.PlatformManager.FireHide | main.js:345-349 | the fired hide is removed from the queue and applied as `AfterHide` |
| Panels.CloseEachIsClosedAmong | main.js:371-378 | walking the contents in document order, each judged on the state the earlier closes left, closes the same panels and queues the same hides as judging them all on the state before the walk |
| Panels.PlatformManager.Visit | main.js:373-377 | the `forEach` callback closes the panel, queuing its hide, exactly when it is another active panel; otherwise nothing changes |
| Panels.PlatformManager.CloseSiblings | main.js:371-378 | the loop over the contents closes exactly the other active well-formed panels, queuing their hides in document order |
| Panels.PlatformManager.Toggle | main.js:353-409 | the new panels and hide queue are `Toggled`/`ToggleHides` of the old ones; the outcome names the early return or the direction; at most one open is preserved |
| Panels.PlatformManager.ScrollTo | main.js:889-903 | when the `<id>-platform` card exists, the panel is opened without closing the others; otherwise nothing changes |
| Notifications.ColorOf | main.js:655-663 | each known type gets its own colour, and any other type gets the info colour |
| Notifications.ShowReplaces | main.js:563-644 | after `showNotification`, exactly one notification is present: the new one, with the new message, the colour of its type and a fresh id |
| Notifications.ShowTwiceKeepsSecond | main.js:563-568 | two notifications in a row leave the second message showing |
| Notifications.TransitionsKeepWellTagged | main.js:563-652 | showing, close-clicking and firing keep every id below the next fresh id |
| Notifications.StaleTimerSparesNewNotice | main.js:623-652 | a timer scheduled before `showNotification` never removes the new notification |
| Notifications.OnlyOwnTimerRemoves | main.js:623-652 | a fired timer changes what is shown only if it is the shown notification's own removal, and then it removes that notification |
| Notifications.AutoDismissRemoves | main.js:646-652 | the auto-dismiss, and then the removal it schedules, take the notification out |
| Notifications.CloseClickRemoves | main.js:623-626 | a close click, and then its removal, take the notification out |
| Notifications.NotificationCenter.Show | main.js:563-653 | the slot becomes `AfterShow` of the old slot, and ids stay well tagged |
| Notifications.NotificationCenter.CloseClick | main.js:623-642 | the slot becomes `AfterCloseClick` of the old slot |
| Notifications.NotificationCenter.Fire | main.js:623-652 | the slot becomes `AfterFire` of the old slot for the fired timer |
| Navigation.LastCovering | main.js:165-179 | the result is the index of a section covering the probe with no later covering section, or none when no section covers it |
| Navigation.FindCurrent | main.js:169-179 | the loop leaves `current` equal to the id of the last covering section, or `''` |
| Navigation.NothingCoveredMatchesBareHash | main.js:181-186 | when no section covers the probe, the href that matches is the bare `#` |
| Navigation.CoveredMatchesLastSection | main.js:172-186 | when some section covers the probe, the matching href names a covering section at or after it |
| Navigation.Page.ClickHamburger | main.js:71-75 | the hamburger and the menu flip together, and they stay equal |
| Navigation.Page.CloseMenu | main.js:77-83 | a nav-link click clears both `active` classes |
| Navigation.Page.ClickDocument | main.js:86-91 | a click outside hamburger and menu clears both, and one inside changes nothing |
| Navigation.Page.Resize | main.js:806-819 | a resize to 768 px or wider clears both, and a narrower one changes nothing |
| Navigation.Page.UpdateActiveNavLink | main.js:165-187 | afterwards a link is active iff its href is `#` followed by the current section id |
| Navigation.Page.Scroll | main.js:120-150 | with a `.header`, the header is `scrolled` iff `scrollY > 100`, back-to-top is visible iff `scrollY > 300` (when present), and the links are updated as above; without one, the handler throws at its first step and nothing changes; a visible back-to-top button always comes with a scrolled header |
| Form.ErrorOf | main.js:475-509 | a field's group shows an error iff the field fails, and it shows that failure's message |
| Form.OriginalLabel | main.js:536 | the saved label is the button's markup, or "Enviar" when that is empty |
| Form.Reset | main.js:547 | every field gets back its default value and keeps its other attributes |
| Form.ContactForm.Blur | main.js:437-497 | blurring field `i` sets exactly its group's error to the validation outcome and reports whether it passed |
| Form.ContactForm.Edit | main.js:499-510 | typing in a field changes its value and clears its group's error |
| Form.ContactForm.Focus | main.js:499-510 | focusing a field clears its group's error |
| Form.ContactForm.BlurAll | main.js:516-526 | after the blur loop, every group shows its field's error, and the form counts as valid iff every field passes |
| Form.ContactForm.Submit | main.js:512-541 | an invalid form shows the error notification and leaves the button and the awaiting list alone; a valid one disables the button with the spinner label and saves the original label |
| Form.ContactForm.Complete | main.js:543-559 | success shows the success notification and resets the form; failure shows the error notification; either way the button is re-enabled with the label that submission saved |
| Form.SubmitRestoresButton | main.js:512-560 | a whole submission from an enabled, labelled button ends with the same label and the button enabled |

## Left out

- The loading screen and its random progress (`Math.random`, `setInterval`). It is cosmetic and not deterministic.
- `animateCounter` is floating-point stepping driven by `requestAnimationFrame`.
- The tilt, parallax, hover and icon transforms are floating-point CSS strings.
- `IntersectionObserver` wiring and the scroll-in animations of `handleScrollAnimations` only add animation classes.
- The injected CSS keyframes are presentation only.
- The typewriter effect, the panel highlight pulse, the mini-grid fade, the form shake and the success flash are cosmetic classes and styles on timers.
- `scrollIntoView`/`scrollTo`, `innerHTML` construction and style assignments are not modelled. This includes the `maxHeight` transitions that `openPlatform`/`closePlatform` set. Only `display` is kept.
- The dropdown menu (`setupDropdownMenu`) is not modelled. That includes the dropdown closing that `scrollToPlatform` performs. It is a separate widget with no decision rule.
- Setting the active link from the URL hash at start-up (`setupNavigation`) is one lookup with no rule beyond it.
- The smooth-scroll anchor handlers are scrolling only.
- The global `togglePlatform` fallback and the matching branch of `scrollToPlatform` (main.js:846-886, 902) run only before the page controller exists. The model covers the controller's path.
- The global `error`/`unhandledrejection` loggers, `handleError` and the polyfill warnings only log or show a notification.
- server_chards.py is not part of this model. It is a database-to-JSON endpoint with no page logic.
- The URL check's `new URL(...)` is the browser's URL parser. It is the opaque parameter `parsesAsUrl`.
- Timer durations (10/250/300/1000/5000 ms) are not modelled. Timers are events that fire in any order, so the model admits more orders than wall-clock time allows.
- The debounce `wait` is not modelled, for the same reason. `func`'s return value is dropped, as in the source.
- The simulated 2 s network step is not modelled. Its settling is the `Complete` event, and its `failed` argument stands for the `catch` branch (the simulated promise itself never rejects).
- Scroll positions and section offsets are integers. Browsers may report fractions.
- Each field is taken to sit in its own `.form-group`. Fields sharing a group, whose errors would overwrite each other, are not modelled.
- `togglePlatform` on an id that some element other than a `.platform-content` carries is not modelled. The panel map holds only the content ids, so an id outside it stands for "`getElementById` returns null" (main.js:355-358), and `ToggleUnknownIsNoOp` covers only ids that no element carries. For any other element, the source goes on (main.js:360-385). If that element's previous sibling holds a `.platform-arrow`, then: if the element is not yet `active`, every other active well-formed panel is closed and the element is opened; otherwise it is closed.
- The header click listeners of `initializePlatforms` (main.js:283-299) are not modelled. A click passes the header's `data-platform` to `togglePlatform`. A header without `data-platform` is replaced by a listener-less clone (`header.replaceWith(header.cloneNode(true))`), so it never toggles anything. The model takes the id passed to `Toggle` as given. The `tabindex`/`role` attributes are presentation only.
- Panels are keyed by distinct ids. Content elements without an id, and duplicate ids, are not modelled.
- `.notification` elements placed in the markup by hand are not modelled.
- Notifications.ColorOf: type names inherited from `Object.prototype` (such as `toString`) make `colors[type]` a function rather than a colour in the source. The model gives every unlisted type the info colour.
- Strings are sequences of Unicode scalar values, not UTF-16 code units. For the character classes used here (negated classes and BMP characters), both give the same verdicts.
