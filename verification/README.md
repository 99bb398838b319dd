# Fish Market page-script rules, modelled in Dafny

The browser script of the Fish Market web application (`apps/fish_market_web/assets/js/app.js`)
is mostly event wiring. Inside it sit a few small decision rules, and this project models
them as pure functions over plain values:

- **Theme preference**: a requested dark mode is normalised to `on`, `off` or `system`.
  The `dark` class is set from that mode and the operating system's preference. The
  choice is persisted under the local-storage key `tailkit-dark-mode`: "system" removes
  the key, anything else stores its normal form. The stored value is read back on load,
  on cross-tab `storage` events and when the system preference changes.
- **Cookies**: `readCookie` is a parser that takes the first `;`-separated chunk whose
  trimmed text starts with `name=`. The show-traces preference is the cookie
  `fish_market_show_traces`, holding `"1"` or `"0"`. It reads as on for `"1"` or `"true"`.
- **Relative timestamps**: each session node's update time is bucketed into seconds,
  minutes, hours or days. The magnitude is rounded as JavaScript's `Math.round` does.
  The next refresh comes after the shortest delay any labelled node needs.
- **Layout**: a state machine over the desktop sidebar, the mobile sidebar, the user menu
  and the session action menus. It is driven by the click router, the Escape key, the
  1024-pixel resize rule and page initialisation.
- **Scrolling and composing**: the 96-pixel "near the bottom" test and the message list
  that sticks to its bottom across updates. Also the composer's Enter-to-submit guard, its
  composition/focus flags, and its decision to keep the message list anchored.

Storage is a `map<string, string>`. `document.cookie` is a string rendered from an
abstract cookie jar. The system colour-scheme preference is a boolean. The clock reading
and element metrics are parameters. Which layout elements exist is a record of booleans,
because every setter in the script does nothing when one of its elements is missing.

Modules: `Wrappers` (Option), `Text` (JavaScript `trim`, `startsWith`, `split`, number
rendering), `Theme`, `Cookies`, `RelativeTime`, `Layout`, `Scrolling`.

One behaviour shows up in the proofs. The page follows later changes of the system
preference only while the storage key is absent or empty. A stored value the script
never writes itself (`"auto"`, say) is read as "system" when the page loads. After that,
though, the page does not follow system changes (`Theme.UnrecognisedStoredValueDrifts`).
For storage the script wrote itself, the page always stays in step
(`Theme.SystemChangeKeepsSync`).

## Model

| member | source | states |
|---|---|---|
| Theme.NormalizeDarkMode | apps/fish_market_web/assets/js/app.js:33-37 | the result is always "on", "off" or "system"; "on" exactly for "dark"/"on", "off" exactly for "light"/"off"; canonical modes map to themselves |
| Theme.NormalizeIdempotent | apps/fish_market_web/assets/js/app.js:33-37 | normalising twice equals normalising once |
| Theme.ShouldUseDark | apps/fish_market_web/assets/js/app.js:39-45 | the dark class is on exactly for "dark"/"on", or for any unrecognised mode when the system prefers dark |
| Theme.ApplyDarkMode | apps/fish_market_web/assets/js/app.js:39-45 | the class is on iff the normal form is "on", or it is "system" and the system prefers dark; storage is untouched |
| Theme.SameNormalFormSameDecision | apps/fish_market_web/assets/js/app.js:39-45 | modes with equal normal forms give equal dark decisions |
| Theme.StoredMode | apps/fish_market_web/assets/js/app.js:86 | a missing or empty stored value reads as "system", any other stored value reads as itself |
| Theme.Load | apps/fish_market_web/assets/js/app.js:86 | on load the page keeps its storage; a stored "dark"/"on" sets the class, "light"/"off" clears it, and a missing key or any other text (the empty one included) follows the system preference |
| Theme.PersistDarkMode | apps/fish_market_web/assets/js/app.js:47-57 | "system" removes the key, any other mode stores its normal form, no other key changes, the class follows the mode |
| Theme.PersistThenLoad | apps/fish_market_web/assets/js/app.js:47-57 | round trip: reloading after a persist (under any system preference) gives the persisted mode's decision, and the page is in step with storage |
| Theme.PersistWritesCanonical | apps/fish_market_web/assets/js/app.js:50-54 | after a persist the key is absent or holds "on" or "off" |
| Theme.OnStorageEvent | apps/fish_market_web/assets/js/app.js:88-92 | events for other keys change nothing; for the dark-mode key a new "dark"/"on" sets the class, "light"/"off" clears it, and a removal or any other value follows the system |
| Theme.PersistEvent | apps/fish_market_web/assets/js/app.js:50-54 | other tabs get an event for the dark-mode key exactly when the persist changes storage, carrying the stored normal form, or no value for a removal |
| Theme.CrossTabSync | apps/fish_market_web/assets/js/app.js:88-92 | a tab in step with storage shows, after another tab persists a mode, that mode's decision and is again in step |
| Theme.OnSystemSchemeChange | apps/fish_market_web/assets/js/app.js:132-136 | with the key missing or empty the class follows the new preference; with a non-empty stored mode nothing changes |
| Theme.SystemChangeKeepsSync | apps/fish_market_web/assets/js/app.js:132-142 | for storage the script wrote, a system-preference change keeps the page in step with a reload |
| Theme.UnrecognisedStoredValueDrifts | apps/fish_market_web/assets/js/app.js:132-136 | any non-empty stored value other than "dark"/"on"/"light"/"off" loads following the system, but after any change of system preference the page no longer matches a reload |
| Theme.ThemeFromEvent | apps/fish_market_web/assets/js/app.js:94-98 | a target carrying the theme attribute decides alone (its non-empty value, or "system" when empty); a target without one takes the nearest ancestor's non-empty value, else "system" |
| Theme.OnSetTheme | apps/fish_market_web/assets/js/app.js:94-101 | the set-theme event persists the requested mode: the key is removed iff its normal form is "system" and otherwise holds that normal form, other keys are kept, and the page is in step with storage |
| Text.Split | apps/fish_market_web/assets/js/app.js:62 | splitting yields at least one piece, none holding the separator, and joining the pieces restores the string |
| Text.SplitOfJoin | apps/fish_market_web/assets/js/app.js:62 | splitting undoes joining when no piece holds the separator |
| Text.Trim | apps/fish_market_web/assets/js/app.js:65 | the trimmed text is a slice of the input with only whitespace cut off on either side, and it neither starts nor ends with whitespace |
| Text.TrimStart | apps/fish_market_web/assets/js/app.js:65 | the result is a suffix of the input, everything removed is whitespace, and what remains does not start with whitespace |
| Text.TrimEnd | apps/fish_market_web/assets/js/app.js:65 | the result is a prefix of the input, everything removed is whitespace, and what remains does not end with whitespace |
| Text.Decimal | apps/fish_market_web/assets/js/app.js:83 | the rendered max-age is all digits with no leading zero and reads back as the same number |
| Cookies.CookieChunks | apps/fish_market_web/assets/js/app.js:62 | an empty cookie string gives no chunks; otherwise the chunks hold no semicolon and join back to the cookie string |
| Cookies.FirstMatch | apps/fish_market_web/assets/js/app.js:64-72 | nothing iff no chunk matches; otherwise the value of the first matching chunk |
| Cookies.ReadCookie | apps/fish_market_web/assets/js/app.js:59-73 | nothing for an empty cookie string or when no trimmed chunk starts with `name=`; otherwise the text after the prefix in the first match, later matches ignored |
| Cookies.JarLookupPresent | apps/fish_market_web/assets/js/app.js:59-73 | reading a name the browser's jar holds gives that cookie's value |
| Cookies.JarLookupAbsent | apps/fish_market_web/assets/js/app.js:59-73 | reading a name the jar does not hold gives nothing |
| Cookies.ShowTracesValue | apps/fish_market_web/assets/js/app.js:80-81 | the written value is "1" or "0", and "1" exactly when enabled |
| Cookies.ReadShowTraces | apps/fish_market_web/assets/js/app.js:75-78 | the preference is on exactly when the cookie read gives "1" or "true"; an empty cookie string reads as off |
| Cookies.ShowTracesAssignment | apps/fish_market_web/assets/js/app.js:80-84 | the assignment starts with `fish_market_show_traces=<value>;` |
| Cookies.PersistShowTraces | apps/fish_market_web/assets/js/app.js:80-84 | after a persist the jar holds the show-traces cookie with "1" or "0" for the flag and no other of that name, keeps every other cookie, and adds none |
| Cookies.ParseShowTracesAssignment | apps/fish_market_web/assets/js/app.js:82-83 | the browser reads the assignment as the show-traces cookie with value "1" or "0" |
| Cookies.DecodeShowTraces | apps/fish_market_web/assets/js/app.js:75-84 | on for "1" and "true", off for a missing cookie and every other value; decoding the value written for a flag gives that flag back |
| Cookies.ShowTracesRoundTrip | apps/fish_market_web/assets/js/app.js:75-84 | after persisting a flag over any jar, reading it back gives that flag, and every other cookie is kept |
| Cookies.MissingShowTracesReadsOff | apps/fish_market_web/assets/js/app.js:75-78 | a jar without the show-traces cookie reads as off |
| RelativeTime.RoundDiv | apps/fish_market_web/assets/js/app.js:440 | the result is the integer within half a divisor of the quotient, halves going up |
| RelativeTime.RoundDivUnique | apps/fish_market_web/assets/js/app.js:440 | only one integer satisfies that bound, so rounding is determined by it |
| RelativeTime.RoundDivMonotone | apps/fish_market_web/assets/js/app.js:440 | rounding is monotone in the dividend |
| RelativeTime.ScaledBounds | apps/fish_market_web/assets/js/app.js:451-462 | scaling by a unit no larger than the difference gives a non-zero magnitude of the same sign, bounded by the next unit's size |
| RelativeTime.Bucket | apps/fish_market_web/assets/js/app.js:439-463 | unit second/minute/hour/day exactly for rounded seconds below 60/3600/86400/beyond; delay 1000, 60000 or 300000 by unit; the magnitude times the unit lies within half a unit of the rounded seconds, ties counted upwards; magnitude bounds per unit; sign gives past or future |
| RelativeTime.BucketWithinHalfUnit | apps/fish_market_web/assets/js/app.js:447-462 | the magnitude is `Math.round` of the rounded seconds divided by the unit |
| RelativeTime.DelayGrowsWithDistance | apps/fish_market_web/assets/js/app.js:443-463 | a timestamp further away never needs a shorter refresh delay |
| RelativeTime.Show | apps/fish_market_web/assets/js/app.js:429-465 | a node gets a relative label iff it has a text child and a finite positive timestamp, and the label is the bucket of its distance from now; nodes without a text child are untouched |
| RelativeTime.UpdateTimestamps | apps/fish_market_web/assets/js/app.js:423-472 | every node shows what `Show` gives it (nodes without a text child are untouched); a refresh is scheduled iff there is a node; its delay is the least of 300000 and every labelled node's delay |
| Layout.Initialize | apps/fish_market_web/assets/js/app.js:190-202 | with container, sidebar and header, the desktop sidebar opens unless marked collapsed and the mobile sidebar and user menu close, each only when its element is present; otherwise nothing changes; consistency is kept or established |
| Layout.InitializeIdempotent | apps/fish_market_web/assets/js/app.js:190-202 | initialising twice equals initialising once |
| Layout.ToggleDesktopSidebar | apps/fish_market_web/assets/js/app.js:204-209 | the desktop state flips and nothing else changes |
| Layout.ToggleDesktopInvolution | apps/fish_market_web/assets/js/app.js:204-209 | toggling twice restores a consistent layout |
| Layout.RouteOf | apps/fish_market_web/assets/js/app.js:211-246 | the click route follows the priority order open, close/overlay, desktop toggle, user-menu toggle, session menu, outside |
| Layout.Click | apps/fish_market_web/assets/js/app.js:211-246 | each part, both desktop flags included, changes only on its own route and only when its elements are present; a session-menu click closes menus only via a close control; an outside click closes the session menus and the user menu unless inside it; consistency kept |
| Layout.UserMenuToggleInvolution | apps/fish_market_web/assets/js/app.js:227-231 | two user-menu toggle clicks restore the layout |
| Layout.KeyDown | apps/fish_market_web/assets/js/app.js:252-258 | Escape closes the mobile sidebar, user menu and session menus and leaves the desktop sidebar; other keys change nothing |
| Layout.EscapeIdempotent | apps/fish_market_web/assets/js/app.js:252-258 | pressing Escape twice equals pressing it once |
| Layout.Resize | apps/fish_market_web/assets/js/app.js:260-264 | at 1024 pixels or wider the mobile sidebar closes when the sidebar and overlay exist; nothing else changes, and narrower widths or a missing sidebar or overlay change nothing |
| Layout.TransitionsKeepConsistent | apps/fish_market_web/assets/js/app.js:155-264 | every click, key, resize, toggle and initialisation keeps the desktop class flags in agreement |
| Layout.SetDesktopSidebar | apps/fish_market_web/assets/js/app.js:155-163 | with container, sidebar and header the desktop flags follow the argument; otherwise, and for every other part, nothing changes |
| Layout.SetMobileSidebar | apps/fish_market_web/assets/js/app.js:165-172 | with sidebar and overlay the mobile sidebar follows the argument; otherwise, and for every other part, nothing changes |
| Layout.SetUserMenu | apps/fish_market_web/assets/js/app.js:174-180 | with the menu and its toggle the user menu follows the argument; otherwise, and for every other part, nothing changes |
| Layout.CloseSessionMenus | apps/fish_market_web/assets/js/app.js:182-188 | every session menu is closed and nothing else changes |
| Scrolling.NearBottomMonotone | apps/fish_market_web/assets/js/app.js:295-298 | scrolling further down stays near the bottom; a list within a threshold of its window is always near the bottom |
| Scrolling.IsNearBottom | apps/fish_market_web/assets/js/app.js:295-298 | for metrics a browser produces, near the bottom means within 96 pixels of the largest scroll position |
| Scrolling.ScrollToBottom | apps/fish_market_web/assets/js/app.js:300-303 | the list ends at the largest scroll position the browser allows (hence near its bottom), never higher than before, with sizes unchanged |
| Scrolling.Mounted | apps/fish_market_web/assets/js/app.js:272-280 | the mounted list starts at its largest scroll position, sizes unchanged, and sticking |
| Scrolling.OnScroll | apps/fish_market_web/assets/js/app.js:275-277 | a scroll moves only the position; sticking holds iff the list is then near its bottom |
| Scrolling.BeforeUpdate | apps/fish_market_web/assets/js/app.js:282-284 | before an update, sticking records whether the list is near its bottom |
| Scrolling.Updated | apps/fish_market_web/assets/js/app.js:286-289 | a sticking list moves to its largest scroll position with sizes unchanged; a non-sticking one is untouched |
| Scrolling.StickyAcrossUpdate | apps/fish_market_web/assets/js/app.js:282-289 | across an update to any content height, a reader near the bottom ends at the new bottom and one scrolled up keeps their position, unless the content shrank below it and the browser clamps it |
| Scrolling.SubmitsOnKeyDown | apps/fish_market_web/assets/js/app.js:353-363 | only Enter with a form submits; any modifier or composition prevents it; plain Enter with a form and no composition submits |
| Scrolling.WrapperNearBottom | apps/fish_market_web/assets/js/app.js:314-319 | a missing message list is never near its bottom; a present one is near exactly when it is within the threshold |
| Scrolling.Step | apps/fish_market_web/assets/js/app.js:347-378 | composition start/end set and clear composing; focus sets focus and re-reads stickiness; blur clears focus; a list scroll re-reads stickiness while focused and changes nothing otherwise; keydown changes nothing; each event leaves the other flags alone |
| Scrolling.NoSubmitWhileComposing | apps/fish_market_web/assets/js/app.js:347-363 | no event run without a composition end submits anything once a composition has started |
| Scrolling.ShouldAnchorBottom | apps/fish_market_web/assets/js/app.js:326-327 | anchoring holds exactly when the composer is focused and either sticking or the list is near its bottom |
| Scrolling.AnchorAfterFocusAndBlur | apps/fish_market_web/assets/js/app.js:326-378 | right after focus, anchoring holds iff the list is near its bottom; after blur it never does |

## Left out

- The live-socket client, the CSRF token lookup, the progress bar, the colocated hooks and the development live-reload block (lines 493-555): network client and foreign libraries.
- Real DOM, `localStorage`, `document.cookie` and `matchMedia` access: they are maps, strings and booleans here. Storage access never fails in the model, though `localStorage` access and `setItem` can throw in a browser (storage disabled, quota exceeded). The `__fishMarketApplicationLayoutBound` once-only listener registration is wiring.
- Cookies.ReadCookie: `encodeURIComponent` and `decodeURIComponent` are taken as the identity. This is exact for the cookie name and for the "1"/"0" values written. The model does not percent-decode other values, and it does not model the error `decodeURIComponent` raises on a malformed escape.
- Cookies.ShowTracesRoundTrip: the cookie jar is abstract. It holds names without whitespace, `;` or `=`, and values without `;` or surrounding whitespace. Names are distinct: a browser can hold two cookies of one name with different paths and lists the more specific path first, which the model does not represent. Its render order is its insertion order. The `Path`, `Max-Age` and `SameSite` attributes (expiry, scoping) are produced but not interpreted.
- The formatted relative-time text from `Intl.RelativeTimeFormat` is left out. Only the (magnitude, unit) pair handed to it is modelled.
- RelativeTime.UpdateTimestamps: timestamps and the clock are whole milliseconds. Fractional values that `Number(...)` can produce, and the `-0` that `Math.round` returns for small negative inputs, are not modelled.
- Timers (`setTimeout`, `clearTimeout`, the `updated`/`destroyed` handle bookkeeping), `requestAnimationFrame`, listener registration and removal, and `focus()` are left out. A scheduled refresh is returned as its delay.
- `ChatComposer.resizeComposer`'s height computation (lines 328-341) depends on computed styles and floating-point pixel heights. Only its anchoring decision (lines 326-327) is modelled.
- The `phx:chat-input-clear` and `phx:chat-input-focus` listeners (lines 103-126) only look up an element, clear it and focus it, which is pure DOM work.
- The `phx:set-show-traces` listener's `Boolean(...)` coercion of arbitrary event data: the model starts from the resulting boolean.
- Scrolling metrics are whole pixels. The browser's clamping of `scrollTop` is modelled, but layout is not.
- The user-menu toggle's `aria-expanded` attribute is not a separate flag. Whenever both elements exist, the script sets it together with the menu's visibility.
- Session menus are modelled only as the set of open ones. Their native open/close on click belongs to the browser, not to this script.
