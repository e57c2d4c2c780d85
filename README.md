# Portfolio site interactivity, modelled in Dafny

This project models the rules inside the DOM event handlers of the portfolio
site's `main.js`. Links, filter buttons and cards are arrays of records with
string attributes and boolean class flags or a display state; the sections
the scroll spy reads are a sequence of records with integer offsets. The
mobile menu, the notification area, the contact form and each debounced
function are classes whose fields the handlers update. Timers run on a
discrete clock: before an event at time `t`, every timer due at or before `t`
runs.

Modules, one per component of `main.js`:

- `Strings`: `split` with a one-character separator, `join`, and
  `split('/').pop()` (`LastSegment`).
- `Navigation`: the page name, `updateActiveNav`, the scroll spy and the
  mobile-menu `hidden` toggle.
- `Reveal`: the reveal observer's one-way `revealed` flag, and the card
  stagger in whole milliseconds.
- `Debounce`: the single timer slot of `debounce`, as a class and as a pure
  trace semantics, proved equal to an independent per-call reference
  definition.
- `Notifications`: the kind-to-class chain and the life of a toast
  (appended, shown at +100, a slide-out value assigned at +3000, removed at
  +3300). The value main.js assigns at +3000 does not parse, so the toast
  stays in view until it is removed; see "## Findings".
- `ContactForm`: the submit state machine. Idle, then "Sending..." with
  the button disabled, then restored when the 2000-tick timer fires, with
  one success toast and the form reset.
- `ProjectFilter`: the filter click handler and the category test.
- `PageDispatch`: the filename switch of `initializePageSpecific`.
- `Wrappers`: `Option`.

Three behaviours of the code worth knowing:

- `updateActiveNav` runs only once, at load. The scroll listener runs only
  the scroll spy.
- More than one link can carry `active` when hrefs repeat.
- When no section covers the probe point, the scroll spy changes nothing.

## Model

| member | source | states |
|---|---|---|
| `Strings.IndexFrom` | main.js:270 | the index found is the first occurrence of the separator at or after the start position, or the length when there is none |
| `Strings.Split` | main.js:270 | a split always has at least one piece |
| `Strings.SplitPiecesFree` | main.js:270 | no piece of a split contains the separator |
| `Strings.JoinSplitFrom` | main.js:270 | joining the pieces of the split from a position gives back the rest of the string from there |
| `Strings.JoinSplit` | main.js:270 | joining the pieces of a split with the separator gives back the original string |
| `Strings.SeparatorAfter` | main.js:270 | in a text reading `p`, a separator, then `b`, with `p` free of the separator, the first separator is right after `p` |
| `Strings.SplitFromJoin` | main.js:270 | splitting, from a position, a text that spells the join of separator-free pieces gives back the pieces |
| `Strings.SplitJoin` | main.js:270 | splitting a join of separator-free pieces gives back exactly those pieces |
| `Strings.LastPieceFrom` | main.js:108 | the last piece of a split from a separator boundary is a separator-free suffix, either starting at the string's start or preceded by a separator |
| `Strings.LastPiece` | main.js:108 | the last piece of a split is a separator-free suffix that is either the whole string or preceded by a separator |
| `Strings.SplitFromPieceIsDelimited` | main.js:270-272 | every piece of a split from a separator boundary is a whole entry of the string |
| `Strings.SplitPieceIsDelimited` | main.js:270-272 | every piece of a split occurs in the string as a whole entry bounded by separators or the ends |
| `Strings.DelimitedIsSplitFromPiece` | main.js:270-272 | every whole entry starting at or after a separator boundary is a piece of the split from that boundary |
| `Strings.DelimitedIsSplitPiece` | main.js:270-272 | every whole entry of the string bounded by separators or the ends is a piece of the split |
| `Strings.LastSegment` | main.js:108 | `split('/').pop()` is the longest `/`-free suffix of the path; it is empty exactly when the path is empty or ends in `/` |
| `Strings.LastSegmentIs` | main.js:316-318 | the last segment equals a `/`-free name exactly when the path ends with that name as a whole segment |
| `Navigation.CurrentPage` | main.js:108 | the page name is never empty; it is `index.html` for an empty path or one ending in `/`, and otherwise the path's final segment |
| `Navigation.UpdateActiveNav` | main.js:107-117 | afterwards each link is active exactly when its href equals the current page; hrefs are unchanged; the `currentPage === ''` disjunct never fires |
| `Navigation.LastCovering` | main.js:127-140 | definition of what the sections pass leaves behind: the id of the last section in document order whose `[top, top+height)` holds the position, if any; `LastCoveringSpec` states its meaning |
| `Navigation.LastCoveringSpec` | main.js:127-140 | no section is found exactly when no section's `[top, top+height)` holds the position; otherwise the one found covers it and no later section does |
| `Navigation.ScrollSpy` | main.js:123-141 | with no covering section the links are unchanged; otherwise a link is active exactly when its href is `#` plus the id of the last covering section |
| `Navigation.ToggleClass` | main.js:102 | `classList.toggle` flips membership of the class and keeps every other class |
| `Navigation.ToggleTwice` | main.js:101-103 | toggling the same class twice restores the class list |
| `Navigation.MobileMenu.Toggle` | main.js:101-103 | a menu-button click toggles `hidden` on the menu |
| `Navigation.ClickTwice` | main.js:100-104 | two menu-button clicks leave the menu's classes unchanged |
| `Reveal.OnIntersections` | main.js:148-153 | after a batch, an element is revealed exactly when it was before or some entry reports it intersecting; nothing is ever un-revealed |
| `Reveal.StaggerCards` | main.js:164-167 | card `i` gets a transition delay of `i * 100` milliseconds |
| `Debounce.Debounced.Invoke` | main.js:173-180 | a call, made once any due timer has run, cancels the pending timer and leaves exactly one, due `wait` later, holding this call's arguments |
| `Debounce.Debounced.Advance` | main.js:174-177 | a due timer runs the wrapped function once with its arguments and empties the slot; otherwise nothing happens |
| `Debounce.Due` | main.js:174-179 | definition of the slot's firing rule: at most one invocation, exactly when the slot holds a timer due by now, with that timer's time and arguments |
| `Debounce.Run` | main.js:171-181 | the closure's single slot over a call trace, each call running any due timer first and the clock running out at the end; it never runs the wrapped function more often than the calls plus the timer already pending |
| `Debounce.RunIsCoalesced` | main.js:171-181 | from an empty slot, the runs of the wrapped function are exactly the calls followed by a quiet period of `wait`, in order, each `wait` after it with its own arguments |
| `Debounce.RunArmed` | main.js:171-181 | from the slot armed by the first call, the machine produces the coalesced runs of all the calls |
| `Debounce.BurstRunsOnce` | main.js:171-181 | calls whose gaps are all shorter than `wait` run the wrapped function exactly once, `wait` after the last call, with the last call's arguments |
| `Debounce.CoalescedBurst` | main.js:171-181 | the reference outcome of a burst is the single run of its last call |
| `Debounce.CoalescedAtMostCalls` | main.js:171-181 | debouncing never runs the wrapped function more often than it was called |
| `Debounce.Replay` | main.js:336-341 | driving a debounced function through the calls and letting the clock run out reports exactly the runs of the trace semantics and leaves no timer pending |
| `Notifications.ClassName` | main.js:214-218 | every toast's class list is the fixed base classes (`translate-x-full` among them) followed by the green style for `success`, the red style for `error` and the blue style for every other kind |
| `Notifications.ClassNameDistinguishesTone` | main.js:214-218 | two kinds give the same class list exactly when both are `success`, both `error`, or both something else |
| `Notifications.DefaultIsInfo` | main.js:212-217 | the default kind gets the same class list as any kind other than `success` and `error` |
| `Notifications.KindOrDefault` | main.js:212 | definition of the default parameter: no kind given means `info`, a given kind is kept |
| `Notifications.AssignTransform` | main.js:225 | definition of the `style.transform` setter: the new value is taken only when it parses as a transform, and otherwise the old one stays |
| `Notifications.TransformValues` | main.js:225-230 | `translateX(0)` and `translateX(100%)` parse; the `translateX(full)` of the slide-out does not |
| `Notifications.Settle` | main.js:223-234 | a toast's own three timers run in order up to now: it is gone exactly when its removal time has passed, and otherwise keeps its message, class and creation time with its removal timer pending |
| `Notifications.StagesOf` | main.js:223-234 | for whatever value the slide-out assigns, a fresh toast is untouched before +100, carries `translateX(0)` until +3000, then carries the result of assigning that value until +3300, and is removed after that |
| `Notifications.Lifecycle` | main.js:221-234 | with the corrected slide-out value `translateX(100%)`, a toast stays in the document until 3300 ticks after creation and is in view exactly from +100 until +3000, keeping its message and class |
| `Notifications.ExitAsWrittenStaysOnScreen` | main.js:229-234 | with the value as written, the toast is still in view for the whole 300-tick exit period |
| `Notifications.SettleAll` | main.js:221-234 | for any slide-out value, the event loop never adds toasts, and every toast left still has its removal timer pending |
| `Notifications.SettleAllAppend` | main.js:212-235 | for any slide-out value, toasts are independent: settling a body settles each part separately, so a new toast leaves the older ones as they would be without it |
| `Notifications.BodyKeepsExitingToastInView` | main.js:225-234 | in the body as written, a toast is still present and in view throughout its exit period; with `translateX(100%)` it is present but off screen |
| `Notifications.Body.Show` | main.js:212-221 | each call appends one new toast with the kind's class, no inline transform and no timer run, and leaves the others alone |
| `Notifications.Body.Tick` | main.js:223-234 | the event loop runs every toast's due timers, with the slide-out assigning `translateX(full)` as main.js writes it, and drops the removed toasts |
| `ContactForm.Form.Submit` | main.js:187-196 | on submit, once any due timer has fired, the button reads "Sending..." and is disabled, and one timer is armed 2000 ticks ahead holding the previous label |
| `ContactForm.Form.Deliver` | main.js:199-207 | a due submission adds exactly one success toast, resets the fields to their defaults and restores the captured label and the enabled state; otherwise nothing changes |
| `ContactForm.SubmitAndWait` | main.js:194-207 | from idle, one submit ends, after 2000 ticks, with one success toast, the fields reset, and the original label back on an enabled button |
| `ContactForm.SubmitTwice` | main.js:191-207 | a second submit while the first is in flight captures "Sending..." as the label to restore, since the listener never checks `disabled` (a browser delivers such a second event only from a script call like `form.requestSubmit()` or another submit control) |
| `ProjectFilter.MatchesIff` | main.js:270-272 | a card matches exactly when the filter is `all` or occurs in the raw category string as a whole comma-bounded entry |
| `ProjectFilter.NoTrimming` | main.js:270-272 | `design` matches `web,design` but not `web, design` |
| `ProjectFilter.Matches` | main.js:272 | definition of the card test: the filter is `all` or one of the untrimmed comma-separated pieces; `MatchesIff` states its meaning |
| `ProjectFilter.TightListMatches` | main.js:270-272 | `design` matches the list `web,design` |
| `ProjectFilter.SpacedListDoesNotMatch` | main.js:270-272 | `design` does not match the list `web, design` |
| `ProjectFilter.OnFilterClick` | main.js:261-293 | afterwards, exactly the clicked button is active, and each card is `block` when it matches the filter and `none` otherwise |
| `PageDispatch.DispatchByFilename` | main.js:315-329 | a feature is enabled exactly when the path ends with its filename as a whole segment; none is enabled otherwise |
| `PageDispatch.DispatchIs` | main.js:318-329 | for each of the three features: it is enabled exactly when the path ends with its filename as a whole segment |
| `PageDispatch.Dispatch` | main.js:318-329 | the `switch` on the last path segment: an enabled feature's filename is exactly that segment |
| `PageDispatch.DispatchHasNoIndexDefault` | main.js:316-329 | a path ending in `/` enables nothing although the navigation calls it `index.html`; whenever a feature is enabled, both agree on the page name |

## Left out

- Typed.js, Splitting and anime are third-party engines. Their calls are foreign, so the typewriter, the headline animation and `animateSkills` are left out.
- The `windowResized` hook of the particle sketch is foreign too. `Debounce.Replay` stands for the debounced resize handler.
- Smooth scrolling of in-page anchors is browser I/O, and so is the parallax transform, which is floating point.
- The `FormData` object, which the handler builds and never uses, is browser I/O. So is the resume-download stub with its synthetic link click.
- IntersectionObserver thresholds and root margin are browser geometry. `Reveal.OnIntersections` takes the observer's entries as given.
- Listener registration and the real event loop are replaced by explicit calls and a discrete clock. Nothing runs concurrently.
- The existence guards (`if (!element) return`) are not modelled: a missing element just means no object in the model.
- `Reveal.StaggerCards`: the source writes `index * 0.1` seconds as a floating-point string. The model uses whole milliseconds and does not model the float formatting.
- `Navigation.ScrollSpy`: `scrollY` is an integer here and can be fractional in a browser (`offsetTop` and `offsetHeight` are integers there too). Since a section's bounds are integers, `top <= y + 100 < top + height` holds for a fractional `y` exactly when it holds for `floor(y)`, so the model is exact when given `floor(scrollY)`.
- `ProjectFilter.OnFilterClick`: the exit animation is modelled only as an eventual `display: none`. An exit that completes after a later click has shown the card again is not modelled. A card without `data-categories` makes the source throw, and is not modelled either.
- `ContactForm.Form.Deliver`: pending submissions are delivered oldest first, which holds when submits arrive in time order.
- `Notifications.AssignTransform`: recognises only a small part of the CSS value grammar: `translateX(` with an unsigned integer in `px` or `%`, or a unitless zero.

## Findings

| source | as written | input that shows it | evidently intended | confidence | as-written member | corrected member |
|---|---|---|---|---|---|---|
| main.js:230 | the slide-out assigns `style.transform = 'translateX(full)'`; that is not a valid CSS transform, so the assignment is ignored and the toast keeps `translateX(0)` | any toast at 3000 to 3299 ticks after creation | a value that moves the toast off screen, such as `translateX(100%)`, the meaning of the `translate-x-full` class it started with | high that the value does not parse; not executed | `Notifications.ExitAsWrittenStaysOnScreen` | `Notifications.Lifecycle` |
