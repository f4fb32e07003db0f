# Coffee-shop landing page: the exactly statable behaviour

This project models the parts of the page's behaviour script (`script.js`) whose
outcome can be stated exactly, and proves what the page promises about them:

- **Email check** (`isValidEmail`): the pattern `^[^\s@]+@[^\s@]+\.[^\s@]+$`.
  It is stated in three ways, all proved to be the same language:
  - literally, as a split into `local@host.tld`;
  - by its properties: no white space, exactly one `@`, a non-empty local part, and a domain with a `.` at neither end;
  - as a left-to-right scan by the pattern's automaton.
- **Contact-form submit handler** (`initFormHandling`): the three controls are trimmed. Then:
  - a missing field is reported first;
  - a malformed address next;
  - otherwise thanks are shown and the form is reset.
- **Toast notifications** (`showNotification`): the body is modelled as a list of children.
  - Showing a toast evicts the previous one and appends the new one, so at most one toast is ever on the page.
  - The colour follows the kind.
  - A toast's own dismissal removes that toast only.
- **Smooth scrolling** (the same-page link click handler): the link either falls through to the browser's own navigation, or scrolls to the target's offset minus the 70-pixel header.
- **Typing effect** (`typeWriter` in the `load` handler): after `k` ticks the title shows the first `k` characters. The caret is removed only once the text is complete.
- **Image reveal** (`initImageLoading`): images start dimmed and are fully shown whether they load or fail. Only a failure changes the alt text. An image that has already finished loading is settled at once from its natural width.

Modules, one file each: `Text` (white space and trimming), `Email`, `Notifications`,
`ContactForm`, `SmoothScroll`, `Typewriter`, `ImageReveal`.

The model makes these choices:
- ECMAScript uses the same character set for `trim` and for the pattern's `\s`: WhiteSpace plus LineTerminator. `Text.IsWs` is that one set, and both uses go through it.
- Timers, animation frames and event dispatch become explicit steps: `Body.Dismiss`, `HeroTitle.TypeNext`, `Img.LoadEvent` and `Img.ErrorEvent`.
- The document lookups are parameters:
  - `SmoothScroll.OnAnchorClick` takes the selector lookup as a function;
  - the form's controls are values that may be `Absent`.
- A toast's DOM identity is its serial number `id`.

## Model

| member | source | states |
|---|---|---|
| `Text.TrimStartSpec` | script.js:102-104 | cutting the front keeps a suffix of the input, everything cut off is white space, and what is kept does not start with white space |
| `Text.TrimEndSpec` | script.js:102-104 | cutting the back keeps a prefix of the input, everything cut off is white space, and what is kept does not end with white space |
| `Text.Trim` | script.js:102-104 | `trim()`: the result neither starts nor ends with white space, and it is empty exactly when the input is all white space |
| `Text.TrimIsSlice` | script.js:102-104 | what `trim()` keeps is one contiguous slice of the input with only white space on either side of it |
| `Email.PatternGivesWellFormed` | script.js:124 | a string split as the pattern describes has no white space, exactly one `@`, a non-empty local part and a domain with an inner `.` |
| `Email.WellFormedGivesPattern` | script.js:124 | a string with those properties splits as the pattern describes |
| `Email.PatternIsWellFormedEmail` | script.js:124 | the pattern matches a string exactly when it has those properties (both directions) |
| `Email.IsValidEmail` | script.js:123-126 | `isValidEmail`: one scan by the pattern's automaton returns true exactly for the well-formed addresses, which are exactly the strings the pattern matches |
| `Email.AcceptsExample` | script.js:124 | `"a@b.co"` is accepted |
| `Email.RejectsExamples` | script.js:124 | `""`, `"a@b"`, `"a.com"` and `"a@@b.com"` are rejected |
| `Notifications.Background` | script.js:148 | green exactly for `success`, red exactly for `error`, blue for every other kind |
| `Notifications.WithoutFirstToast` | script.js:131 | removing the first `.notification` drops the first toast only and leaves every other child in order |
| `Notifications.WithoutToast` | script.js:167-169 | removing a toast by identity drops that toast only; if it is already gone, nothing changes; other children stay in order |
| `Notifications.ShowLeavesOnlyNew` | script.js:129-159 | on a page with at most one toast, evicting the first toast and appending a new one leaves exactly the new toast, and the page content is unchanged |
| `Notifications.Body.Show` | script.js:129-175 | `showNotification`: the new toast gets the next serial number and the colour of its kind; it is appended after the old one is evicted; it is then the only toast; the page content is unchanged |
| `Notifications.Body.Dismiss` | script.js:166-174 | the `hide` path: the toast with this identity is removed if present; the current toast survives the late timer of one it evicted; content is unchanged |
| `ContactForm.EntryEmptyWhenBlank` | script.js:102-106 | a trimmed control is empty exactly when the control is absent or holds only white space |
| `ContactForm.Decide` | script.js:102-114 | the handler's checks, run in source order on the trimmed values, give the verdict `Judge` defines |
| `ContactForm.MissingFieldWhenBlank` | script.js:106-109 | "Please fill in all fields" is chosen exactly when some control is absent or blank, so a blank address never draws the invalid-address message |
| `ContactForm.InvalidEmailWhenMalformed` | script.js:111-116 | with all controls filled in, the invalid-address message is chosen exactly when the trimmed address is not well formed, and thanks exactly when it is |
| `ContactForm.OnlySentIsGreen` | script.js:107-116 | only the accepted form produces a green (success) toast; both rejections produce red ones |
| `ContactForm.Form.Submit` | script.js:99-118 | exactly one toast is shown, the one for the verdict, and it is then the only toast; the controls are reset exactly when the form was accepted, and are otherwise unchanged |
| `SmoothScroll.OnAnchorClick` | script.js:81-90 | an empty or bare `#` link falls through without consulting the document; any other link scrolls exactly when its target exists, and then to the target's offset minus 70 |
| `Typewriter.TypedPrefix` | script.js:262-266 | after `k` ticks with `k` at most the text's length, the title shows the first `k` characters, `i` is `k` and the caret is still on |
| `Typewriter.TypedDone` | script.js:264-269 | from the tick after the last character on, the full text is shown, `i` is the length and the caret is off |
| `Typewriter.TypedInvariant` | script.js:262-270 | after any number of ticks, `i` never passes the length and the title is the prefix of length `i`; the caret is off exactly after more ticks than characters, and then only with `i` at the end |
| `Typewriter.HeroTitle.constructor` | script.js:257-262 | set-up: the text is kept, the title emptied, the caret drawn and `i` set to zero |
| `Typewriter.HeroTitle.TypeNext` | script.js:263-270 | one run of `typeWriter` is one tick of the specification; the title stays the prefix of length `i`, and the caret is gone only when `i` is at the end |
| `ImageReveal.ReadyPath` | script.js:387-393 | a complete image with positive natural width is revealed, a complete one without is failed, an incomplete one waits for its events |
| `ImageReveal.FailedAlt` | script.js:383 | the new alt text ends with " (failed to load)", preceded by the old alt text, or by "image" when that was empty |
| `ImageReveal.Img.Reveal` | script.js:373-376 | opacity 1 and scale 1; nothing else changes |
| `ImageReveal.Img.Fail` | script.js:378-384 | opacity 1 and scale 1, and the failure note on the alt text |
| `ImageReveal.Img.Prepare` | script.js:369-393 | the per-image set-up ends in the state `Prepared` describes for the image's path: dimmed with both once-only listeners attached, or settled at once |
| `ImageReveal.Img.LoadEvent` | script.js:391 | a `load` event runs `reveal` only while the once-only listener is attached, and detaches it |
| `ImageReveal.Img.ErrorEvent` | script.js:392 | an `error` event runs `fail` only while the once-only listener is attached, and detaches it |
| `ImageReveal.PrepareAll` | script.js:364-395 | every image of the list is set up independently of the others |
| `ImageReveal.PrepareAndSettle` | script.js:373-393 | fail-open: after set-up and the first load or error event, the image is at opacity 1 and scale 1; its alt text changed exactly when it took the failure path, and then to the old text with the failure note |

## Left out

- Scroll-reveal through `IntersectionObserver` (script.js:51-74): when it fires is decided by the browser's visibility computation.
- Timers and animation frames are not modelled. This covers the 5000, 300, 600 and 15000 ms delays, the toast's slide-in and slide-out, the page fade-in, and the `ticking` throttle stub, which does nothing. Ticks and events are explicit steps instead. In particular, `Body.Dismiss` merges the slide-out and the removal 300 ms later into one step.
- Parallax, the scroll-progress bar and the ripple geometry are left out: they are floating-point arithmetic on layout values.
- The floating particles are left out: they depend on `Math.random` and a timer chain that re-arms itself without end.
- The navbar style switch at a scroll position of 100 is left out: it only picks between two CSS strings.
- The order-button ripple and its "Coffee added to cart!" toast are left out: they are timer-driven UI feedback. The toast itself is an ordinary `Body.Show` call.
- The menu toggle and CSS strings are left out. So are the `innerHTML` templating, keyframe injection, hover transforms and listener registration. They are presentation only.
- `SmoothScroll.OnAnchorClick`: `document.querySelector` throws on an invalid selector such as `#1a`. The handler then stops before `preventDefault`, so the browser navigates as usual. The model gives that case as `NoMatch` and does not record the thrown error.
- `Typewriter.HeroTitle.TypeNext`: each tick appends one Unicode character. The source appends one UTF-16 code unit (`charAt`), so a character outside the Basic Multilingual Plane takes two ticks there. Strings are sequences of Unicode characters throughout.
- `ContactForm.Form.Submit`: `preventDefault` always stops the native submission, and no data is sent. `form.reset()` also resets any other controls the form may hold; only the three controls the handler reads are modelled.
- The `showNotification` default kind `'info'` is not modelled as a default argument: every call site passes a kind. Any kind other than `success` and `error` is drawn blue.
