# Contact form and home-page state, modelled in Dafny

The site is a small Next.js marketing site. It has two pieces of real logic, and this project models both:

- **The contact form** (`app/contactUs/page.tsx`). The `ContactUs` component holds two state slots:
  - `formData`: five text fields and a consent checkbox;
  - `errors`: a map from field name to message.

  It has three handlers:
  - `handleChange` stores one edit and blanks that field's message.
  - `validate` rebuilds the message map from independent per-field rules and reports whether it is empty. The rules are:
    - presence after JavaScript's `trim`;
    - a case-insensitive address pattern, tested on the untrimmed email;
    - consent given.
  - `handleSubmit` hands the form to a submission sink only when `validate` succeeds.
- **The home page** (`app/page.tsx`):
  - The FAQ accordion. `openIndex` is toggled by clicks on the six questions, and it decides which answer is rendered and which chevron is rotated.
  - The scroll-reveal hook `useIntersectionObserver`. Its `isIntersecting` flag is overwritten by each observer callback. Its observer options are the defaults `{threshold: 0.1, rootMargin: '50px'}`, overridden by the caller's.

Files and modules:

- `wrappers.dfy` (`Wrappers`): `Option`, which stands for `null`.
- `js_string.dfy` (`JsString`): `String.prototype.trim` over ECMAScript's exact whitespace set, and the falsiness of the trimmed string.
- `email_pattern.dfy` (`EmailPattern`): the address pattern, in two forms.
  - An executable automaton scan, `IsEmailShape`.
  - The pattern as a language, `MatchesEmailPattern`.
  - A proof that the two agree.
- `contact_form.dfy` (`ContactForm`): the form's data, the validation rules as functions, and the `ContactUs` class with its three handlers.
- `faq_accordion.dfy` (`FaqAccordion`): the `faqs` list, the toggle, visibility, and the `Accordion` class.
- `reveal.dfy` (`Reveal`): the option merge, the reveal flag as the `RevealSignal` class, and the classes it selects.

The submission sink (a console log and an alert) is modelled as `ContactUs.submitted`, the sequence of snapshots it has received. The intersection observer is modelled as the callbacks it makes, each carrying its entries.

## Model

| member | source | states |
|---|---|---|
| JsString.Trim | app/contactUs/page.tsx:30-38 | `s.trim()`: the string without its leading and trailing ECMAScript whitespace and line terminators. What it returns is stated by `TrimIsStrippedSlice`. |
| JsString.IsBlank | app/contactUs/page.tsx:30-38 | `!s.trim()`: every character is one that `trim` strips. `BlankIffTrimEmpty` states that this is exactly an empty trim. |
| JsString.TrimStartIsSuffix | app/contactUs/page.tsx:30-38 | Removing leading whitespace keeps a suffix of the string. Everything removed is whitespace. The kept part does not start with whitespace. |
| JsString.TrimEndIsPrefix | app/contactUs/page.tsx:30-38 | The same for trailing whitespace: a prefix is kept, everything removed is whitespace, and the kept part does not end with whitespace. |
| JsString.TrimIsStrippedSlice | app/contactUs/page.tsx:30-38 | `trim` returns a slice of the input with only whitespace around it. The slice neither starts nor ends with whitespace. |
| JsString.BlankIffTrimEmpty | app/contactUs/page.tsx:30-38 | The presence test used by the rules, "every character is JavaScript whitespace", holds exactly when `s.trim()` is the empty string, i.e. when `!s.trim()` is true. |
| EmailPattern.IsEmailShape | app/contactUs/page.tsx:33-35 | `/^[A-Z0-9._%+-]+@[A-Z0-9.-]+\.[A-Z]{2,}$/i.test(formData.email)`, decided by one left-to-right scan of an automaton. `EmailShapeIffPattern` states which strings it accepts. |
| EmailPattern.MatchesEmailPattern | app/contactUs/page.tsx:34 | The same pattern read as a language: some split of the string is a non-empty local part, `@`, a non-empty domain, `.`, and two or more ASCII letters. |
| EmailPattern.ClassifyStep | app/contactUs/page.tsx:34 | One more input character moves the pattern-structure class of the prefix exactly as the scanner's `Step` moves its state. |
| EmailPattern.RunClassify | app/contactUs/page.tsx:34 | Scanning any suffix from the class of a prefix ends in the class of the whole string. |
| EmailPattern.DomainClassStep | app/contactUs/page.tsx:34 | Within the text after the `@`, a domain character updates the "last `.` followed by letters" status exactly as the scanner does. |
| EmailPattern.AcceptedMatches | app/contactUs/page.tsx:34 | A string the scanner accepts splits as local part, `@`, domain, `.` and two or more letters. |
| EmailPattern.MatchedAccepted | app/contactUs/page.tsx:34 | Every such split is accepted by the scanner. |
| EmailPattern.EmailShapeIffPattern | app/contactUs/page.tsx:34 | The scanner accepts exactly the strings that the anchored, case-insensitive pattern matches. |
| EmailPattern.EmailShapeHasOneAt | app/contactUs/page.tsx:34 | An accepted address holds exactly one `@`. |
| EmailPattern.AcceptsTwoLetterTld | app/contactUs/page.tsx:34 | `a@b.co` is accepted. |
| EmailPattern.AcceptsSampleAddress | app/contactUs/page.tsx:34 | `jane@example.com` is accepted. |
| EmailPattern.RejectsOneLetterTld | app/contactUs/page.tsx:34 | `a@b.c` is rejected. |
| EmailPattern.EmailShapeEnds | app/contactUs/page.tsx:34 | The pattern is anchored at both ends: every accepted address starts with a local-part character and ends with an ASCII letter. |
| EmailPattern.WhitespaceOutsideClasses | app/contactUs/page.tsx:34 | No character that `trim` strips belongs to the local or the domain class, or is a letter. |
| EmailPattern.RejectsSurroundingWhitespace | app/contactUs/page.tsx:34 | For every string, any whitespace character that `trim` strips, added before or after it, makes it fail the pattern. |
| EmailPattern.RejectsMisplacedAt | app/contactUs/page.tsx:34 | `a@@b.co` fails, and every string that starts with `@` (an empty local part) fails, whatever follows. |
| ContactForm.InitialFormData | app/contactUs/page.tsx:5-12 | In the initial form every text field is empty and consent is not given. |
| ContactForm.Updated | app/contactUs/page.tsx:21-24 | An edit sets its own field, to `checked` for the checkbox and `value` otherwise. Every other field is unchanged. |
| ContactForm.Cleared | app/contactUs/page.tsx:25 | After an edit, that field's message is not shown. A shown message becomes `""`. An absent or blank entry is left as it was. The key set and every other entry are unchanged. |
| ContactForm.ErrorShown | app/contactUs/page.tsx:73 | `errors.x && <p>…</p>`: a field's message is rendered when its entry exists and is not `""`. The same test is at lines 87, 101, 115, 131 and 147-149. |
| ContactForm.FieldError | app/contactUs/page.tsx:30-38 | The rule for each field on its own. Each text field gets its "required" message when blank. Email gets "Email is required." when blank, else "Invalid email." when it fails the pattern. Consent gets its message when not given. |
| ContactForm.ValidationErrors | app/contactUs/page.tsx:29-39 | The map `validate` builds: exactly the fields whose rule fails, each with its rule's message. The properties are stated by `ValidationErrorsPerField` and `CollectErrors`. |
| ContactForm.EmailShapeNotBlank | app/contactUs/page.tsx:32-36 | An address that matches the pattern is never blank. |
| ContactForm.ValidationErrorsPerField | app/contactUs/page.tsx:29-39 | A field is in the validation map exactly when its own rule fails, and then it holds that rule's message. A field's message is shown exactly when its rule fails (lines 73, 87, 101, 115, 131, 147-149). |
| ContactForm.AppliedRulesGiveValidationErrors | app/contactUs/page.tsx:29-39 | A map holding each rule's outcome for all six fields is the validation map. So the map has no stale keys and does not depend on the order of the rules. |
| ContactForm.EmailMessage | app/contactUs/page.tsx:32-36 | Email gets a message exactly when the address fails the pattern. The message is "Email is required." exactly when the trimmed address is empty. It is "Invalid email." exactly when the address is not blank but fails the pattern. |
| ContactForm.PaddedEmailInvalid | app/contactUs/page.tsx:32-36 | For every non-blank address with a whitespace character (any that `trim` strips, such as U+00A0) added before or after it, the email field gets "Invalid email.". Presence is tested on the trimmed text, the pattern on the untrimmed text. |
| ContactForm.NoKeysIffEmpty | app/contactUs/page.tsx:41 | `Object.keys(m).length === 0` holds exactly when the map is empty. |
| ContactForm.ValidIffAllRulesPass | app/contactUs/page.tsx:30-41 | The validation map is empty exactly when all of these hold: every text field is non-blank, the email matches, and consent is given. |
| ContactForm.OnlyFailingField | app/contactUs/page.tsx:29-39 | When only one field fails, the map holds only that field's message. |
| ContactForm.SampleSubmissionValid | app/contactUs/page.tsx:28-41 | A fully filled-in sample form validates with no messages. |
| ContactForm.ContactUs.constructor | app/contactUs/page.tsx:5-14 | A fresh form has the initial fields, no messages and no submissions. |
| ContactForm.ContactUs.HandleChange | app/contactUs/page.tsx:16-26 | `formData` becomes the edited record and `errors` becomes the cleared map. The edited field's message is not shown. |
| ContactForm.CollectErrors | app/contactUs/page.tsx:29-39 | Starting from an empty map, the sequence of conditional writes builds exactly the validation map of the fields: one entry per failing field, each with its own rule's message. |
| ContactForm.ContactUs.Validate | app/contactUs/page.tsx:28-42 | `errors` is replaced wholesale by the validation map of the current fields. The result (`Object.keys(...).length === 0`) is true exactly when that map is empty, which is exactly when every rule passes. |
| ContactForm.ContactUs.HandleSubmit | app/contactUs/page.tsx:44-49 | The sink receives the current snapshot exactly once when validation succeeds, and nothing otherwise. `formData` is not changed. |
| ContactForm.FillAndSubmit | app/contactUs/page.tsx:16-49 | A fresh form, each field edited to the values of `d`, then submitted: the submission goes through exactly when `d` passes every rule, the sink then holds `d` once and otherwise nothing, and the messages left are exactly `d`'s validation map. |
| FaqAccordion.Toggle | app/page.tsx:371 | A click closes the clicked question when it is open. Otherwise the click opens it, which closes any other. |
| FaqAccordion.ChevronClass | app/page.tsx:375-376 | A chevron is rotated exactly when its own answer is rendered. |
| FaqAccordion.AnswerShown | app/page.tsx:381-383 | `openIndex === index && <p>…</p>`: question `i`'s answer is rendered exactly when `i` is the open question. |
| FaqAccordion.AfterClicks | app/page.tsx:371 | `openIndex` after a sequence of clicks, each applying the toggle to the previous value in order. Its properties are in `AfterClicksReachable`, `AfterClicksSnoc` and `LastClickDecides`. |
| FaqAccordion.AtMostOneAnswerShown | app/page.tsx:367-383 | At most one answer is rendered. None is rendered when nothing is open. Otherwise only the open question's answer is rendered. |
| FaqAccordion.ToggleKeepsValid | app/page.tsx:7-14 | Clicking a listed question keeps `openIndex` null or a valid index (line 371). |
| FaqAccordion.ToggleTwiceRestores | app/page.tsx:371 | Two clicks on the same question restore the start, when nothing was open or that question was. |
| FaqAccordion.ToggleTwiceFromOther | app/page.tsx:371 | Two clicks on a question, starting with another one open, leave nothing open. |
| FaqAccordion.AfterClicksReachable | app/page.tsx:371 | Every state reached by a sequence of clicks is valid. After at least one click, nothing is open or the last question clicked is open. |
| FaqAccordion.AfterClicksSnoc | app/page.tsx:371 | Replaying one more click applies one more toggle. |
| FaqAccordion.LastClickDecides | app/page.tsx:371 | After a run of clicks ending on question `i`, `i`'s answer is rendered exactly when it was not rendered just before (line 381). |
| FaqAccordion.Accordion.constructor | app/page.tsx:75 | Initially no question is open. |
| FaqAccordion.Accordion.Click | app/page.tsx:371 | `openIndex` becomes the toggle of its old value, and the state stays valid. |
| Reveal.EffectiveOptions | app/page.tsx:26-30 | The merged options have every default key and every caller key. Each caller key holds the caller's value, and every other default key holds its default. |
| Reveal.NoOptionsGivesDefaults | app/page.tsx:26-30 | With no caller options, the observer gets threshold 0.1 and root margin `50px`. This is the case for every use on the page (lines 54, 73). |
| Reveal.CallerThresholdWins | app/page.tsx:26-30 | A caller's threshold replaces the default one and keeps the default margin. |
| Reveal.MergeIdempotent | app/page.tsx:26-30 | Merging a merged result with the defaults again changes nothing. |
| Reveal.RevealClasses | app/page.tsx:59-63 | A section is drawn in place (`opacity-100 translate-y-0`) exactly when its flag is set, and offset and transparent otherwise. The hero uses the same classes (line 121). |
| Reveal.FlagAfter | app/page.tsx:23-24 | The flag after a sequence of callbacks, each overwriting it with its report, in order. `FlagIsLastReport` states its value. |
| Reveal.FlagIsLastReport | app/page.tsx:18-24 | After any callbacks, the flag is the last callback's report. Before any callback, it is its initial value. |
| Reveal.NotLatched | app/page.tsx:23-24 | A report of `false` hides the section again, whatever came before. |
| Reveal.RevealSignal.constructor | app/page.tsx:18 | The flag starts false. |
| Reveal.RevealSignal.OnEntries | app/page.tsx:22-24 | A callback sets the flag to its first entry's `isIntersecting`. |
| Reveal.RevealSignal.OnCallbacks | app/page.tsx:18-24 | After a run of callbacks on one element, the flag is `FlagAfter` of its previous value and the callbacks' reports, so `FlagIsLastReport` and `NotLatched` describe the class itself. |

## Left out

- I/O. `console.log` and `alert` in `handleSubmit` are replaced by the `submitted` log. `e.preventDefault()` is not modelled.
- The browser's own constraint validation of `type="email"` inputs, which can stop a submit before `handleSubmit` runs. It is browser behaviour, not code in the repository. Browsers also sanitize an email input's value, removing line breaks and leading and trailing ASCII whitespace before `handleChange` reads `target.value`; `ContactForm.ChangeEvent.value` is left unconstrained, which covers every value the page can receive and more. Through the page, the surrounding-space rejection therefore applies to other whitespace, such as U+00A0.
- React scheduling. Each handler is one sequential state transition. So `handleChange` tests the message of the state it updates, not of a possibly stale render closure, and `useState` batching is not modelled.
- `ContactForm.ChangeEvent`: an event's `name` is one of the six fields the form renders. A computed key outside them, which the form never produces, is not modelled. Only the consent input is a checkbox.
- `FaqAccordion.Accordion.Click` requires an index into `faqs`, because buttons exist only for listed questions.
- The IntersectionObserver API. Registration, `observe`/`unobserve` and ref lifetime (app/page.tsx:33-41) are left out, and so are viewport geometry and how thresholds decide `isIntersecting`. A callback is modelled by the entries it receives.
- `Reveal.OptionValue`: option values are numbers, strings or `undefined`, held as exact rationals. An `undefined` supplied by the caller overrides a default, as the object spread does. How the browser then reads `undefined` is not modelled.
- `Reveal.FlagAfter` and `Reveal.FlagIsLastReport` describe each callback by the report of its first entry, because that is the only entry the callback reads. The observer lists a batch's entries oldest first, so when one batch holds several entries for the element, the flag takes the oldest of them rather than the newest; how the browser batches entries is not modelled.
- `isVisible` (app/page.tsx:72, 77-79), which nothing reads; navigation via `router.push`; CSS other than the reveal and chevron classes; images, video and copy.
- app/layout.tsx: static metadata and a font wrapper, with no logic.
- Unicode regex semantics. The pattern has no `u` flag, so its classes and case folding are ASCII only, and the model states exactly that. Strings are sequences of Unicode scalar values, not UTF-16 code units. The pattern and `trim` treat a string the same way in both views, because every character either of them singles out is in the Basic Multilingual Plane.
