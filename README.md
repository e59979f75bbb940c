# Portfolio page script, modelled in Dafny

The model covers the logic of a personal portfolio page's `script.js`. That
logic is in four parts:

- **The typing animation.** Each tick types or deletes one character of the
  current phrase ("Frontend Developer", "Web Developer", "Backend Developer").
  It turns round at either end of the phrase, moves on to the next phrase
  cyclically, and chooses the delay before the next tick (100, 50, 2000 or
  500 ms).
- **The contact form validator.** Name, email and message are trimmed and
  checked on their own. The name is required. The email is required and must
  match `^[^\s@]+@[^\s@]+\.[^\s@]+$`. The message is required and must have
  at least 10 characters. Each field's form group ends up with exactly one
  inline error or none. When every field passes, a success banner is added
  and the fields are emptied.
- **The active-navigation highlighter.** It takes the file name from the last
  `/`-separated segment of the path. A link is marked active when its `href`
  equals that name, or the name is empty and the link is `index.html`, or the
  name contains the `href` with its first `.html` removed.
- **The theme toggle.** One flag is loaded from the stored string
  (`"true"` means dark), flipped on click and written back. The body class,
  the icon and the tooltip are rendered from the flag.

Files:

- `wrappers.dfy`: `Option`.
- `js_strings.dfy`: the JavaScript string built-ins the script uses.
  - `\s` and `trim` share one whitespace class, the ECMAScript WhiteSpace and
    LineTerminator code points.
  - `substring` clamps and swaps its indices.
  - Also `indexOf`, `includes`, `replace` with a string pattern, and
    `split('/').pop()`.
- `typing.dfy`: the tick as a pure `Step` function and the `Typewriter`
  class. The class holds the closure's captured variables, and its `Tick`
  method is proved to perform `Step`.
- `contact_form.dfy`: the field rules, the email pattern and the `Form`
  class. `Form` has `ShowError`, `ClearError`, the three per-field blocks and
  `Submit`.
- `active_nav.dfy`: the match test and the highlighting loop.
- `theme.dfy`: load, encode, click and the `ThemeToggle` class.

Environment inputs become parameters:

- the location path and the links' `href`s;
- the raw field values;
- the stored string (`None` when the key is absent);
- whether the page has a toggle button;
- the markup's initial text, body class, icon and tooltip.

## Model

| member | source | states |
|---|---|---|
| JsStrings.TrimStartSpec | script.js:88-90 | Leading-whitespace removal keeps the longest suffix that does not start with whitespace, and everything dropped is whitespace |
| JsStrings.TrimEndSpec | script.js:88-90 | Trailing-whitespace removal keeps the longest prefix that does not end with whitespace, and everything dropped is whitespace |
| JsStrings.TrimSpec | script.js:88-90 | The trimmed value is a slice of the raw value with only whitespace outside it, and it neither starts nor ends with whitespace |
| JsStrings.TrimEmptyIff | script.js:88-90 | A trimmed field is empty iff the raw value is all whitespace |
| JsStrings.TrimIdempotent | script.js:88-90 | Trimming twice is trimming once |
| JsStrings.Substring | script.js:22-26 | `substring(a, b)` is the slice `a..b` when 0 ≤ a ≤ b ≤ length, and empty when both indices are ≤ 0 |
| JsStrings.IndexOfSpec | script.js:75 | `indexOf` returns the first index where the pattern occurs, and none exactly when it does not occur |
| JsStrings.IncludesSpec | script.js:75 | `includes` holds iff the pattern occurs somewhere (so always for the empty pattern) |
| JsStrings.ReplaceFirstSpec | script.js:75 | `replace` with a string pattern replaces only the first occurrence and keeps the text around it |
| JsStrings.ReplaceFirstNoMatch | script.js:75 | `replace` returns the string unchanged when the pattern does not occur |
| JsStrings.LastSegment | script.js:66 | `split('/').pop()` is the suffix after the last `/` (all of it if there is none), and it holds no `/` |
| TypingEffect.InitialInv | script.js:12-16 | The initial variables (index 0, char 0, typing, 100 ms) satisfy the tick invariant when no phrase is empty |
| TypingEffect.Step | script.js:18-39 | A tick keeps the phrase index within the phrase list |
| TypingEffect.StepKeepsInv | script.js:21-39 | While deleting, 1 ≤ charIndex ≤ phrase length; while typing, 0 ≤ charIndex < phrase length; textIndex < number of phrases |
| TypingEffect.StepShowsPrefix | script.js:19-29 | A tick moves charIndex by exactly one, and the display is the prefix of the tick's phrase of length charIndex (also of the next tick's phrase) |
| TypingEffect.StepDelay | script.js:24-38 | The direction turns exactly when typing reaches the phrase length or deletion reaches 0; the delay is 2000 / 500 there, otherwise 100 typing and 50 deleting |
| TypingEffect.StepPhraseIndex | script.js:35-38 | The phrase index changes only when a deletion reaches 0, and then becomes (textIndex + 1) mod the number of phrases |
| TypingEffect.Run | script.js:41 | Any number of self-scheduled ticks keeps the phrase index in range |
| TypingEffect.RunAdd | script.js:41 | m ticks followed by n ticks are m + n ticks |
| TypingEffect.TypeOut | script.js:26-34 | Typing from any point shows the full phrase after (length − charIndex) ticks, then holds it for 2000 ms with deletion next |
| TypingEffect.EraseAll | script.js:22-38 | Deleting from any point empties the display after charIndex ticks, waits 500 ms, and moves to the next phrase |
| TypingEffect.PhraseCycle | script.js:18-39 | From the start of a phrase, twice its length in ticks brings the animation to the start of the next phrase |
| TypingEffect.CycleAfter | script.js:18-41 | Ticks that reach the start of a phrase are followed by that whole phrase cycle |
| TypingEffect.VisitsInOrder | script.js:12-38 | After k whole phrases from phrase i, the animation is at the start of phrase (i + k) mod the number of phrases: the phrases come in list order, cyclically |
| TypingEffect.Typewriter.constructor | script.js:8-16 | Initialisation followed by the immediate first tick (line 44): the state is one `Step` from the initial variables, and the invariant holds |
| TypingEffect.Typewriter.Tick | script.js:18-42 | The imperative tick performs exactly `Step`, keeps the invariant and shows the prefix of the current phrase of length charIndex |
| ContactForm.IsValidEmail | script.js:119-122 | The email check accepts exactly the strings the pattern `^[^\s@]+@[^\s@]+\.[^\s@]+$` matches: local part, `@`, domain part, `.`, tail, all non-empty and free of whitespace and `@` |
| ContactForm.NoAtNoMatch | script.js:119-122 | A string without `@` does not match the email pattern |
| ContactForm.EmailMatch | script.js:119-122 | With `at` the first `@`, the full-match pattern holds iff the text before it is non-empty and plain and the text after it is plain with a `.` strictly inside |
| ContactForm.EmailMatchFromCheck | script.js:120 | The check's conditions yield a split the pattern accepts |
| ContactForm.EmailCheckFromMatch | script.js:120 | Any split the pattern accepts puts its `@` at the first `@` and meets the check's conditions |
| ContactForm.NameRule | script.js:124-129 | The name gets "Nama harus diisi" iff it is all whitespace, else no error |
| ContactForm.EmailRule | script.js:131-139 | The email gets "required" iff it is all whitespace, else "invalid format" iff its trimmed value fails the pattern, else no error |
| ContactForm.MessageRule | script.js:141-149 | The message gets "required" iff it is all whitespace, else "too short" iff fewer than 10 characters remain after trimming, else no error |
| ContactForm.PassesIff | script.js:92-151 | `isValid` holds iff no field has an error, i.e. name non-blank, email matching, message of at least 10 trimmed characters; each field's verdict depends on that field alone |
| ContactForm.BlankFormGetsAllErrors | script.js:124-149 | All three fields are evaluated: a blank form shows all three "required" errors at once |
| ContactForm.EmailExamples | script.js:119-122 | `a@b.c` matches the pattern and `not-an-email` does not |
| ContactForm.MessageLengthBoundary | script.js:144 | A 9-character message is too short and a 10-character one passes |
| ContactForm.DropFirst | script.js:99-100 | Removing the first `.invalid-feedback` element leaves the list without its head |
| ContactForm.Shown | script.js:94-117 | A field with an error has exactly one error element and is marked invalid; one without has none and is not marked |
| ContactForm.Form.constructor | script.js:83-90 | The form starts with the given values, every group without errors or invalid mark, and no banner |
| ContactForm.Form.ShowError | script.js:94-108 | The group loses its first error element and gains the new one and the invalid mark; on a tidy group exactly the new error remains |
| ContactForm.Form.ClearError | script.js:110-117 | The group loses its first error element and the invalid mark; on a tidy group no error remains |
| ContactForm.Form.ReportName | script.js:124-129 | The name group shows the name rule's outcome, and the block reports whether it passed |
| ContactForm.Form.ReportEmail | script.js:131-139 | The email group shows the email rule's outcome, and the block reports whether it passed |
| ContactForm.Form.ReportMessage | script.js:141-149 | The message group shows the message rule's outcome, and the block reports whether it passed |
| ContactForm.Form.Submit | script.js:85-170 | After a submission each group holds exactly the error its rule gives or none; `isValid` holds iff no field failed; on success one banner is added and the fields are emptied, otherwise the values stay |
| ActiveNav.DirectoryPath | script.js:66 | A path that is empty or ends in `/` names no file |
| ActiveNav.NoFileMeansIndex | script.js:73-74 | Without a file name only `index.html` (or an empty href) is active |
| ActiveNav.StripHtml | script.js:75 | Removing the first `.html` from `stem + ".html"` gives `stem` when `stem` holds no `.html` |
| ActiveNav.StemRule | script.js:73-75 | On a page with a file name, a link `stem.html` is active iff the file name contains `stem` |
| ActiveNav.NoHtmlRule | script.js:73-75 | On a page with a file name, a link without `.html` (`#contact`, `about`) keeps its `href` and is active iff the file name contains it |
| ActiveNav.SharedWordMismatch | script.js:73-75 | On `projects.html` both `project.html` and `projects.html` are active: the containment fallback over-matches |
| ActiveNav.BareHtmlLink | script.js:75 | A link `.html` is active on every page that has a file name |
| ActiveNav.MarkLink | script.js:70-77 | One link is unmarked and then marked exactly when it matches; no other link changes |
| ActiveNav.HighlightActiveNav | script.js:65-78 | After the pass, each link is active iff it matches the current file, whatever its mark was before |
| Theme.LoadEncode | script.js:175 | Loading a stored flag gives the flag back |
| Theme.EncodeLoad | script.js:175 | A stored value is written back unchanged iff it was exactly "true" or "false" |
| Theme.Click | script.js:198-201 | A click flips the flag, and the stored value then loads as the new flag |
| Theme.ClickTwice | script.js:198-201 | Two clicks restore the flag; the stored value comes back iff it already was the flag's encoding |
| Theme.ThemeToggle.constructor | script.js:174-195 | At load the flag is dark iff the stored value is "true", and the body class, icon and tooltip are rendered from it |
| Theme.ThemeToggle.ApplyTheme | script.js:177-193 | The body class follows the flag; with a toggle, the icon is sun/moon and the tooltip is "Switch to Light/Dark Mode"; the result does not depend on the previous rendering |
| Theme.ThemeToggle.Toggle | script.js:198-202 | A click performs `Click` on the flag and the stored value and keeps the rendering in step with the flag |
| Theme.ThemeToggle.ToggleTwice | script.js:198-202 | Two clicks restore the flag and everything rendered; the stored value is restored when it was "true" or "false" |

## Left out

- `AOS.init` (script.js:2-6): a call into a third-party library whose code is not part of this model.
- Smooth scrolling for in-page anchors (script.js:49-63): it only suppresses the default action and calls `scrollIntoView`, with no logic beyond the `'#'` guard.
- The stat counter animation (script.js:205-231): it depends on a visibility observer, interval timers and floating-point increments.
- Timers: `setTimeout` rescheduling of the tick and removal of the banner after 5 s. Only the chosen delay is modelled, and time does not pass.
- The success banner's markup and insertion: `Form.banners` only counts banners. `contactForm.reset()` is modelled as emptying the three fields.
- DOM lookups and their existence guards: a page without the animated element or without the form is not modelled. A page without the theme toggle is (`hasToggle`).
- Navigation links without an `href` attribute. On a page with no file name, the `&&` at script.js:75 short-circuits and such a link is left inactive. On a page whose path names a file, the source throws on `null.replace`, which also stops the `forEach`, so the remaining links are not processed. The model takes every `href` to be a string.
- String length: JavaScript counts UTF-16 code units, while the model counts characters (Unicode scalar values). Strings outside the Basic Multilingual Plane therefore have different lengths. The whitespace set is that of Unicode 15.
- TypingEffect.Typewriter: runs on the page's fixed three phrases. The lemmas about `Step` hold for any non-empty list of non-empty phrases.
- ContactForm.Form.ReportName, ReportEmail, ReportMessage: the three if/else blocks of the handler are written as three methods. `Submit` clears `isValid` after each block that fails, which is equivalent to the source's inline assignments.
- ContactForm.Form.Submit: requires the object invariant, namely that each form group holds at most one inline error and is marked invalid exactly when it holds one. The markup starts in that state and every submission keeps it. `ShowError` and `ClearError` themselves are modelled for any group.
