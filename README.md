# Pro-Reno contact form: a Dafny model

This project models the client-side contact form of the Pro-Reno AS website
(`js/main.js`). When the form is submitted, the handler:

1. disables the submit button and shows "Sender...";
2. builds a record of the trimmed field values;
3. runs three checks in a fixed order: required fields, e-mail shape, then
   Norwegian phone shape. The first failing check's message is shown and the
   handler returns;
4. awaits the transport (`sendContactForm`) only for an accepted record;
5. shows the thank-you message and resets the form on success, or shows one
   generic error message on any failure;
6. re-enables the button and restores its label on every path that returns
   after validation or reaches the `finally` block.

The status line (`showFormMessage`) queues a 5000 ms hide for success messages
only. The model also covers the rule that marks the current page's navigation
links as active (`setActiveNavLink`).

Modules, one per file:

- `Text` (`text.dfy`): the JavaScript string primitives the form uses.
  - `\s`, which is also the set `trim` removes: the ECMAScript WhiteSpace and
    LineTerminator code points.
  - `trim`, `replace(/\s/g, '')`, `endsWith` and `\d`.
  - Their properties are lemmas.
- `Validation` (`validation.dfy`): the raw control values and the collected record.
  - Each regular expression is written out as a predicate (`EmailMatches`,
    `PhoneMatches`).
  - The e-mail predicate is proved equivalent, on every string, to a plain
    statement of the shape it accepts (`EmailShape`). The phone predicate is
    proved equivalent to `NorwegianPhone` on whitespace-free strings, which is
    all the phone check ever sees.
  - `Validate` runs the checks in order.
- `Presenter` (`presenter.dfy`): the message element as a class with `text`,
  `className`, `display` and a list of pending hide timers.
  - `ShowFormMessage` and the timer callback `FireTimer` are methods on it.
- `Submission` (`submission.dfy`): `Handle`, a function giving the observable
  effect of one submission, with lemmas about it.
  - It also holds the `ContactForm` class: the field values, the button's
    `disabled` flag and text, the message element, and a log of transport calls.
  - `ContactForm.Submit` is proved against `Handle`.
- `Navigation` (`navigation.dfy`): the active-link test and the loop that adds
  the `active` class.
- `Wrappers` (`wrappers.dfy`): `Option`.

The transport is not called from the model. `Submit` takes the way the awaited
call settles as a parameter: resolved with `success` true, resolved with
`success` false (with or without an `error` text), or thrown. Each call
appends the record and the button state at that moment to `calls`. This shows
that the transport is called at most once, only after all checks pass, and
while the button is disabled and reads "Sender...".

Two behaviours of the code are worth knowing:

- `showFormMessage` never cancels a pending hide. `ErrorAfterSuccessIsHidden`
  shows an earlier success timer hiding a later error message.
- `projectType` is never checked. `OptionalFieldsIgnored` shows that it, the
  location and the checkbox never affect the verdict.

## Model

| member | source | states |
|---|---|---|
| Text.TrimSpec | js/main.js:122-127 | `trim` leaves no whitespace at either end, and gives "" exactly when the value is all whitespace |
| Text.TrimInfix | js/main.js:122-127 | `trim` removes whitespace from the two ends only; the result is the middle slice of the input |
| Text.TrimPadded | js/main.js:122-127 | `trim` keeps the value's own text: the input is the result with a whitespace-only prefix and suffix around it |
| Text.StripWsSpec | js/main.js:150 | the cleaned phone has no whitespace, is no longer than the input, and equals it when it had no whitespace |
| Text.StripWsOfTrim | js/main.js:124-150 | stripping all whitespace from the trimmed phone gives the same as stripping the raw value |
| Validation.CollectTrims | js/main.js:121-129 | the record's text fields are the controls' own text with only end whitespace removed, and each of them (name, e-mail, phone, description and a present location) is empty iff its control held only whitespace; the project type is passed untrimmed; a missing location is "" and a missing checkbox is false |
| Validation.EmailMatchesIff | js/main.js:140-141 | the e-mail regex accepts exactly: no whitespace, exactly one '@', a non-empty local part, and a '.' in the domain that is neither first nor last |
| Validation.EmailExamples | js/main.js:140-141 | "ola@example" is refused and "ola@example.com" is accepted |
| Validation.PhoneMatchesWithoutWs | js/main.js:149-151 | on a whitespace-free string the `[\s]?` branch can never match; the phone regex accepts exactly 8 digits starting 2-9, with an optional "+47" in front |
| Validation.PhoneAcceptedIff | js/main.js:124-151 | the phone check on the trimmed value holds iff the raw value, with all whitespace removed, is a Norwegian number |
| Validation.LeadingOneRefused | js/main.js:149-151 | "12345678" is refused (leading 1) |
| Validation.CountryCodeAccepted | js/main.js:149-151 | "+4791234567" is accepted |
| Validation.SpacedNumberAccepted | js/main.js:149-151 | "9123 4567" is accepted, because whitespace is stripped first |
| Validation.MissingFieldRejectedIff | js/main.js:131-137 | the verdict is "missing field" iff name, e-mail, phone or description held only whitespace |
| Validation.InvalidEmailRejectedIff | js/main.js:139-146 | the verdict is "invalid e-mail" iff all four required fields are present and the trimmed e-mail is not of the local@domain.tld shape |
| Validation.AcceptedIff | js/main.js:131-156 | a submission is accepted iff: name and description are not blank, the trimmed e-mail has the shape, and the whitespace-free phone is a Norwegian number |
| Validation.OptionalFieldsIgnored | js/main.js:125-132 | location, project type and the inspection checkbox never change the verdict |
| Presenter.TimersFor | js/main.js:224-229 | a call queues one 5000 ms hide iff its type is "success", and no timer otherwise |
| Presenter.ShowFormMessage | js/main.js:214-230 | with no element, nothing happens; otherwise text, class "form-message <type>" and display "block" are set, and the success hide is appended after the pending ones, none removed |
| Presenter.FormMessage.FireTimer | js/main.js:226-228 | the oldest pending hide sets display to "none" and leaves text and class alone |
| Presenter.ErrorAfterSuccessIsHidden | js/main.js:224-229 | a success followed by an error leaves the success's hide pending, and it hides the error message |
| Submission.SentIffAccepted | js/main.js:131-162 | the transport receives the collected record iff validation accepts it; on any rejection it is not called |
| Submission.MissingFieldShown | js/main.js:131-137 | a blank required field shows exactly "Vennligst fyll ut alle obligatoriske felt." as an error, with no call and no reset |
| Submission.InvalidEmailShown | js/main.js:139-146 | with all four required fields present and a trimmed e-mail not of the local@domain.tld shape, exactly "Vennligst oppgi en gyldig e-postadresse." is shown as an error, with no call and no reset |
| Submission.InvalidPhoneShown | js/main.js:148-156 | with the required fields present and a well-shaped e-mail, a phone that does not strip to a Norwegian number shows exactly "Vennligst oppgi et gyldig telefonnummer." as an error, with no call and no reset |
| Submission.TransportFailureShown | js/main.js:158-178 | an accepted record whose response lacks `success`, or whose call throws, is sent once and shows exactly "Beklager, noe gikk galt. Vennligst prøv igjen eller ring oss direkte." as an error, with no reset |
| Submission.SentRecordWellFormed | js/main.js:121-162 | a record that reaches the transport has: non-empty name and description, a well-shaped e-mail, a phone that strips to a Norwegian number, and the trimmed (not stripped) phone text |
| Submission.ResetOnlyAfterSuccess | js/main.js:164-172 | the form is reset iff the record was accepted and the response had `success`; exactly then the thank-you message is shown with severity success |
| Submission.FailureReasonHidden | js/main.js:170-178 | a falsy `success` and a thrown error give the same visible result, whatever their error text |
| Submission.MessageIsFixed | js/main.js:133-176 | every message shown is one of the five fixed texts |
| Submission.ContactForm.Send | js/main.js:162 | one transport call is logged with the record and the button state at that moment; it settles as given |
| Submission.ContactForm.Submit | js/main.js:109-183 | a submit ends with the button enabled and its original text. A call is logged (button disabled, "Sender...") iff validation accepts. The form is reset only after success. The message element shows `Handle`'s message and severity |
| Navigation.RootClauseSubsumed | js/main.js:261-263 | the `path === '/'` clause is redundant: a link is active iff the path ends with its href, or the path ends with '/' and the href is "index.html" |
| Navigation.IndexActiveOnDirectory | js/main.js:261-263 | on any path ending in '/', the "index.html" link is active |
| Navigation.EmptyHrefAlwaysActive | js/main.js:260-261 | a link whose href is "" is active on every path |
| Navigation.MissingHrefMatchesNull | js/main.js:260-261 | a link with no href attribute is active exactly on paths ending in "null" |
| Navigation.SetActiveNavLink | js/main.js:255-266 | each listed link gains "active" iff the rule holds for it; its other classes are kept, and no class is removed |

## Left out

- Submission.ContactForm.Submit: assumes the submit button and the name, e-mail, phone, project-type and description controls exist. If one of those controls is missing, its read at js/main.js:122-127 throws outside the `try`, leaving the button disabled with "Sender..."; the model has no such path.
- DOM lookups, listener registration, `preventDefault` and `scrollIntoView`: browser plumbing. Field values, the button and the message element are plain fields and parameters.
- The body of `sendContactForm` (a one-second `setTimeout` that always resolves with `success: true`): the transport is an outcome parameter, so that all three outcomes are covered.
- Real time: a pending hide is an entry in `FormMessage.timers`. `FireTimer` runs the oldest one. Every hide has the same 5000 ms delay, so they fire in the order queued.
- `console.log` and `console.error`, and the text of the `Error` the handler throws on a falsy `success`: diagnostic output only. `FailureReasonHidden` shows that it never reaches the user.
- Submission.ContactForm.Submit: treats the awaited transport call as atomic. Events during the pending call (field edits, which a success would then discard through `reset()`, or a pending hide firing) are not interleaved.
- Submit re-entrancy: the browser fires no submit while the button is disabled, and `Submit` runs to completion in one call. So no submission is modelled as interleaving with another.
- Submission.ContactForm.Submit: `response.success` is modelled as a boolean, not as any truthy JavaScript value. A `null` or `undefined` response, for which reading `success` throws, is the `Threw` outcome. Any other response without a truthy `success` (a primitive reads it as `undefined`) reaches the handler's own `throw` and is `Resolved(false, _)`; both show the same message (`FailureReasonHidden`).
- `form.reset()` restores the controls' default values. The model takes these as the values the form was built with (`defaults`), since they are not part of the script.
- Mobile menu toggles, header scroll class, smooth-scroll offset arithmetic (floating point), lazy loading and scroll animations: DOM event wiring outside the contact form.
- Lone UTF-16 surrogates: JavaScript strings are UTF-16 code units and the two regular expressions (no `u` flag) test code units, while a Dafny string cannot hold an unpaired surrogate. On every string the model can represent the verdicts agree: every `\s` character is in the Basic Multilingual Plane, both halves of a surrogate pair match `[^\s@]`, and an `endsWith` suffix that is well formed ends on a character boundary.
