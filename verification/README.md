# Portfolio page script: contact-form validation and image slider

This project models the two parts of the portfolio site's `script.js` whose
behaviour does not depend on the browser.

- The contact form's submit handler. It trims the three inputs (name, email,
  message) and checks each one against its rule. Every rule runs, and each
  field shows at most one message. When no rule fails, it builds the record
  `{name, email, message, timestamp}` and schedules a redirect to
  `form-details.html` after 1500 ms. Otherwise it shows the field messages
  and "Please fix the errors above".
- The image slider. It holds a current index over `n >= 1` slides and an
  `active` flag on every slide and every indicator dot. It moves with
  `goToSlide(k)` (which a dot click also calls), the next button
  (`(i + 1) % n`) and the previous button (`(i - 1 + n) % n`).

Files, one module each:

- `wrappers.dfy` (`Wrappers`): the `Option` type.
- `js_string.dfy` (`JsString`): the ECMAScript whitespace class shared by
  regular-expression `\s` and `String.prototype.trim`, `trim` itself, and
  `.length` counted in UTF-16 code units.
- `email_pattern.dfy` (`EmailPattern`): the email pattern
  `/^[^\s@]+@[^\s@]+\.[^\s@]+$/`. It is given twice: as the language the
  pattern denotes (a ghost predicate built from its three `[^\s@]+` runs),
  and as an executable test ("no whitespace, one `@` with something before
  it, and a `.` strictly inside the part after it"). A lemma proves the two
  agree in both directions.
- `contact_form.dfy` (`ContactForm`): the per-field rules with their exact
  messages, `Validate`, and the whole submit handler `Submit`.
- `image_slider.dfy` (`ImageSlider`): the slider state, its invariant
  ("exactly the slide and the dot at the current index are active"), page
  setup, `goToSlide`, next and previous, and the wrap-around laws.

Modelling choices:

- `.length` is the UTF-16 length, so a character outside the Basic
  Multilingual Plane counts as two. For example, a name of one character
  outside that plane (most emoji) passes the two-character minimum, as it
  does in a browser.
- `\s` and `trim` use the full ECMAScript WhiteSpace and LineTerminator set:
  tab, LF, VT, FF, CR, space, U+00A0, U+1680, U+2000 to U+200A, U+2028,
  U+2029, U+202F, U+205F, U+3000 and U+FEFF.
- The locale-formatted timestamp is an input to `Submit`.
- The record is returned rather than written to storage. The redirect target
  and delay are returned as values.
- The slides' initial `active` flags come from the page markup, because the
  script never sets them. `Setup` takes them as a parameter. Its contract says
  the state is valid exactly when the markup marks slide 0 and no other.
- The pattern forbids `@` in each of its three runs, so an accepted address
  has exactly one `@`.

## Model

| member | source | states |
|---|---|---|
| JsString.Trim | script.js:81-83 | The trimmed value has no whitespace at either end. It is the infix of the input that starts at the first non-space character, and everything cut from either side is whitespace. |
| JsString.TrimUnique | script.js:81-83 | Any cut of whitespace-only prefix and suffix that leaves a value with no whitespace at either end yields exactly `trim`'s result. |
| JsString.TrimmedIsFixed | script.js:81-83 | A value with no whitespace at either end is unchanged by `trim`. |
| JsString.TrimIdempotent | script.js:81-83 | Trimming twice is the same as trimming once. |
| JsString.TrimIgnoresPadding | script.js:81-83 | Surrounding a value with whitespace, of any amount on either side, does not change its trimmed form. |
| JsString.TrimIsTrimOf | script.js:81-83 | `trim`'s result is a trim of its input: an infix with no whitespace at either end, with only whitespace cut from either side. |
| JsString.TrimOfIsTrim | script.js:81-83 | Any such trim of an input is `trim`'s result. |
| JsString.IsTrimOfIffTrim | script.js:81-83 | A value is a trim of an input exactly when it equals `trim`'s result. |
| JsString.Utf16Length | script.js:91 | `.length` lies between the number of characters and twice that. It equals the number of characters exactly when every character is in the Basic Multilingual Plane, and it is 0 only for the empty string. |
| EmailPattern.TestAcceptsLanguage | script.js:97 | Every string in the pattern's language (run, `@`, run, `.`, run, with no whitespace or `@` in any run) passes the executable test. |
| EmailPattern.LanguageContainsAccepted | script.js:97 | Every string the executable test accepts is in the pattern's language. |
| EmailPattern.MatchesEmailPatternIffInLanguage | script.js:96-100 | `emailPattern.test(email)` holds exactly when the email is in the pattern's language. This lemma carries the meaning of the two predicates it relates: `InPatternLanguage` is the regular expression read structurally (run, `@`, run, `.`, run, each run free of whitespace and `@`), and `MatchesEmailPattern` is the executable test the handler applies. |
| EmailPattern.EmptyNotInLanguage | script.js:97 | The pattern rejects the empty string. |
| ContactForm.CheckName | script.js:88-94 | The name passes exactly when it is at least 2 UTF-16 code units long. The message is "Name is required" exactly when the name is empty, and "Name must be at least 2 characters" exactly when it is non-empty but shorter. |
| ContactForm.CheckEmail | script.js:97-104 | The email passes exactly when it is in the pattern's language. The message is "Email is required" exactly when it is empty, and "Please enter a valid email" exactly when it is non-empty and outside the language. |
| ContactForm.CheckMessage | script.js:107-113 | The message passes exactly when it is at least 10 UTF-16 code units long. The error is "Message is required" exactly when it is empty, and "Message must be at least 10 characters" exactly when it is non-empty but shorter. |
| ContactForm.Validate | script.js:85-113 | A field has an entry in the error map exactly when its own rule fails, and the entry is that rule's single message. The verdict is valid exactly when the map is empty, and exactly when name length >= 2, the email is in the pattern's language, and message length >= 10. |
| ContactForm.FieldsCheckedIndependently | script.js:87-113 | A field's error depends only on that field's value; no rule short-circuits another. |
| ContactForm.ReadForm | script.js:81-83 | Each value the handler validates is its raw input with whitespace cut from both ends, and no more: the value has no whitespace at either end. |
| ContactForm.Submit | script.js:116-136 | A record is produced exactly when validation passes. It carries the trimmed name, email and message verbatim and the given timestamp, with the notice "Message sent successfully! Redirecting..." and the redirect to `form-details.html` after 1500 ms. Otherwise the non-empty error map is shown with the notice "Please fix the errors above", and no record exists. |
| ContactForm.SubmitIgnoresPadding | script.js:81-83 | Padding each of the raw name, email and message with whitespace, by its own amount on each side (none included), does not change the outcome of a submission. |
| ContactForm.ExampleMissingName | script.js:85-113 | An empty name with a good email and a 10-character message yields exactly `{name: "Name is required"}` and is invalid. |
| ContactForm.ExampleBadEmailShortMessage | script.js:85-113 | Name "Al", email "bad-email" and message "short" yield exactly the email and message errors, and are invalid. |
| ContactForm.ExampleEmailMatches | script.js:97 | "alice@example.com" passes the email test. |
| ContactForm.ExampleValid | script.js:81-133 | A well-formed submission is sent with the three values verbatim in the record. |
| ImageSlider.ValidIsShowing | script.js:278-286 | A valid state is the one determined by its slide count and current index. |
| ImageSlider.ValidIffSingleActive | script.js:278-286 | A state is valid exactly when the set of active slides and the set of active dots are both `{current}`. |
| ImageSlider.NextIndex | script.js:290 | The next index stays in `[0, n)`. It is `i + 1` except from the last slide, which wraps to 0. |
| ImageSlider.PreviousIndex | script.js:296 | The previous index stays in `[0, n)`. It is `i - 1` except from slide 0, which wraps to `n - 1`. |
| ImageSlider.IndexStepsAreInverse | script.js:290-296 | One step back undoes one step on, and the other way round. |
| ImageSlider.GoToSlide | script.js:278-286 | The current index becomes `k`, and slide `k` and dot `k` are active. The old index's flags are cleared when it differs from `k`. Every other flag is unchanged (`MovedTo`). |
| ImageSlider.GoToSlideValidIff | script.js:278-286 | After `goToSlide(k)`, exactly index `k` is active precisely when no index other than the old and new one was active before. |
| ImageSlider.GoToSlideKeepsOneActive | script.js:268-286 | From a valid state, `goToSlide(k)` (a dot click) leaves exactly slide `k` and dot `k` active. |
| ImageSlider.Next | script.js:289-292 | The next button moves to the next index with `goToSlide`'s effect on every flag (`MovedTo`), from any well-formed state, valid or not. It keeps the slide count and keeps a valid state valid. |
| ImageSlider.Previous | script.js:295-298 | The previous button moves to the previous index with `goToSlide`'s effect on every flag (`MovedTo`), from any well-formed state, valid or not. It keeps the slide count and keeps a valid state valid. |
| ImageSlider.PreviousUndoesNext | script.js:289-298 | From a valid state, next then previous returns to the same state. |
| ImageSlider.NextUndoesPrevious | script.js:289-298 | From a valid state, previous then next returns to the same state. |
| ImageSlider.StepsForward | script.js:290 | After any number of next presses, the index is still a slide index. |
| ImageSlider.StepsBack | script.js:296 | After any number of previous presses, the index is still a slide index. |
| ImageSlider.Advance | script.js:289-292 | After `m` next presses, the index is the one `m` steps on. A valid start stays valid. |
| ImageSlider.Rewind | script.js:295-298 | After `m` previous presses, the index is the one `m` steps back. A valid start stays valid. |
| ImageSlider.StepsForwardWithoutWrap | script.js:290 | Before reaching the last slide, each next press adds one. |
| ImageSlider.StepsBackWithoutWrap | script.js:296 | Before reaching slide 0, each previous press subtracts one. |
| ImageSlider.StepsForwardAdd | script.js:290 | `a + b` next presses are `a` presses followed by `b`. |
| ImageSlider.StepsBackAdd | script.js:296 | `a + b` previous presses are `a` presses followed by `b`. |
| ImageSlider.StepsForwardFullCycle | script.js:290 | `n` next presses return to the starting index. |
| ImageSlider.StepsBackFullCycle | script.js:296 | `n` previous presses return to the starting index. |
| ImageSlider.FullCycleIsIdentity | script.js:289-292 | From a valid state, `n` next presses return to the same state. |
| ImageSlider.FullRewindIsIdentity | script.js:295-298 | From a valid state, `n` previous presses return to the same state. |
| ImageSlider.Setup | script.js:253-275 | No slider is set up when there are no slides or a button is missing. Otherwise the index starts at 0, the slide flags are the markup's, and only dot 0 is active. The state is valid exactly when the markup marks slide 0 and no other. |
| ImageSlider.FirstMoveRepairsMarkup | script.js:263-286 | When the markup marks no slide other than the first, the first move leaves exactly its target active. |
| ImageSlider.FirstPressRepairsMarkup | script.js:258-298 | When the markup marks no slide other than the first, the first press of the next or the previous button leaves exactly the slide it moves to active. |

## Left out

- Theme toggle (script.js:4-29): a two-state class and storage flag with nothing to prove. It dereferences the button before its null check (line 12 against line 18).
- Scroll-to-top (script.js:34-37): two viewport assignments.
- Progress-bar animation (script.js:42-65): an IntersectionObserver callback with no logic of its own.
- Project-card navigation (script.js:182-199): a one-line URL check and redirect.
- Canvas drawing (script.js:204-247): a fixed sequence of floating-point drawing calls.
- Commented-out auto-play (script.js:300-304): dead, timer-based code.
- Writing the record to local storage as JSON (script.js:125). The record is returned instead, so overwrite-on-resubmit is not modelled.
- The 1500 ms `setTimeout` and the `window.location` change (script.js:131-133): returned as a target and a delay.
- `clearErrors`, `showError`, `showSuccessMessage` and `showErrorMessage` (script.js:141-177): DOM updates. They are modelled as the returned error map and notice. The silent skip when an error element is missing is not modelled.
- The timestamp `new Date().toLocaleString()` (script.js:121): clock- and locale-dependent, so it is a parameter.
- Lone UTF-16 surrogates: Dafny characters are Unicode scalar values, so strings containing unpaired surrogates are not represented.
- The slider's dots container is not checked for absence (script.js:256-272), and `querySelectorAll(".dot")` (script.js:275) could pick up other `.dot` elements on the page. The model assumes the container exists and that the dots are exactly those the script created.
- ImageSlider.GoToSlide: requires `k < n`. The handlers only ever pass such an index, and an out-of-range index would make the script throw on `undefined.classList`.
