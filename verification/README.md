# Taxi site page script — Dafny model

A model of the pure core of the site's page script (`script.js`): the contact-form
validator with its two regular expressions and `trim`, the error-message bookkeeping of
`showError`, the German phone-number formatter, and the navigation state (mobile menu
toggle and close, the navbar `scrolled` flag, and `updateActiveLink`). DOM reads become
parameters and DOM writes become returned values. Everything is immutable datatypes and
pure functions. The one exception is `updateActiveLink`, which is also written as a loop
over the sections, as the script has it.

Modules, one per concern of the script:

- `Wrappers`: `Option`, for `FormData.get` results that may be `null` and lookups that may find nothing.
- `Text`: the ECMAScript white-space set (shared by `\s` and `trim`), `\d`, `trim`, the UTF-16 `length` of a string, and `replace(/\D/g, '')`.
- `Validation`: the submitted record, the e-mail and phone patterns written as predicates over `seq<char>`, the six rules and the list of failing fields.
- `ErrorDisplay`: form groups, `showError`, the clearing loop at the start of the submit handler, and the whole validation step of a submit attempt.
- `PhoneFormat`: `formatPhoneNumber`.
- `PhoneField`: how the formatter and the phone rule interact (see Findings).
- `Navigation`: menu and hamburger flags, navbar threshold, `updateActiveLink`.

The model follows the code exactly in three places where a looser reading of the page's behaviour would differ:

- A section counts as current when `top <= scrollY + 100 <= top + height`. Both ends are included, as the code tests them, not the half-open range `[top, bottom)`.
- Lengths are JavaScript `length`s, counted in UTF-16 code units. A one-character name outside the Basic Multilingual Plane (an emoji) therefore passes the two-character minimum. `Validation.PhoneRuleBasicPlane` shows that for ordinary text this is the same as counting characters.
- The phone pattern is matched against the untrimmed value, and only the length check uses the trimmed one. So `" +4930123"` is rejected: its `+` is not in first position.

## Model

| member | source | states |
|---|---|---|
| `Text.Trim` | script.js:100 | `trim` removes exactly the white space at both ends: the result is the slice of the input after its leading white space, everything after the result is white space, the result neither starts nor ends with white space, and it is empty exactly when the input is all white space |
| `Text.Utf16Length` | script.js:100 | the `length` of a string lies between its character count and twice that, and equals the character count exactly when no character lies outside the Basic Multilingual Plane; a single character counts 1, or 2 when it lies outside that plane |
| `Text.Utf16LengthAppend` | script.js:100 | the `length` of a concatenation is the sum of the lengths, so with the single-character case every string's `length` is fixed: two emoji have length 4 |
| `Text.Digits` | script.js:276 | stripping non-digits leaves only digits, never lengthens the string and leaves a digit string unchanged |
| `Validation.EmailPatternSplits` | script.js:106-107 | the e-mail pattern accepts a string exactly when it splits at an `@` into a non-empty local part without white space or `@` and a domain without white space or `@` that holds a `.` which is neither its first nor its last character |
| `Validation.EmailPatternSingleAt` | script.js:106 | every address the pattern accepts holds exactly one `@` |
| `Validation.PhonePatternPlusOnlyFirst` | script.js:114 | a phone number the pattern accepts has a `+` only as its first character |
| `Validation.FailsIffNotPasses` | script.js:97-137 | each test the handler performs, including the nested phone test, is exactly the negation of the field's requirement as stated positively |
| `Validation.Failures` | script.js:97-137 | the fields reported are exactly the fields whose requirement is unmet, each once, in the handler's checking order; no rule short-circuits another |
| `Validation.IsValid` | script.js:97-141 | the submission goes ahead exactly when every requirement is met |
| `Validation.NameRule` | script.js:99-103 | the name is reported exactly when it is absent or shorter than 2 units once trimmed (an empty string included) |
| `Validation.MessageRule` | script.js:127-131 | the message is reported exactly when it is absent or shorter than 10 units once trimmed |
| `Validation.EmailRule` | script.js:105-110 | an absent or empty address is always reported; any other is reported exactly when it does not split into a valid local part and domain |
| `Validation.PhoneRule` | script.js:112-119 | an absent, empty or blank phone number is never reported; any other is reported exactly when the pattern rejects it or it is shorter than 6 units once trimmed |
| `Validation.PhoneRuleBasicPlane` | script.js:115 | for a number without characters outside the Basic Multilingual Plane the length test counts characters |
| `Validation.ServiceAndPrivacyRules` | script.js:121-137 | the service and the privacy box are reported exactly when absent or empty |
| `Validation.SingleFailure` | script.js:97-141 | when exactly one requirement is unmet, the report names that field alone, once |
| `Validation.UnpaddedLength` | script.js:100 | a text without white space at either end and without characters outside the Basic Multilingual Plane has its character count as its trimmed `length` |
| `Validation.MinimalSubmissionPasses` | script.js:97-141 | name `Jo`, address `a@b.de`, empty phone, a service, a 10-character message and a checked box pass every rule: both minimum lengths are inclusive |
| `Validation.AddressWithoutAtFailsAlone` | script.js:105-110 | the address `not-an-email` fails the e-mail rule and nothing else |
| `ErrorDisplay.FindGroup` | script.js:181-184 | the field lookup finds the first group whose control has the id, and reports absence when no group has it |
| `ErrorDisplay.RemoveFirstError` | script.js:187-191 | removing the existing error message drops exactly the first error message in document order, the one `querySelector` finds, and keeps every other child in place, later error messages included; without an error message nothing changes |
| `ErrorDisplay.MarkGroup` | script.js:184-197 | the group gains the `error` class; its children become the old ones with the first error message, in document order, removed (none when there is none) and every other child in place, followed by a new message node holding the message as the last child |
| `ErrorDisplay.ShowError` | script.js:180-198 | `showError` is a no-op when the field does not exist; otherwise it marks the field's group, removes that group's first error message, appends the new message as its last child, keeps its other children in place and changes no other group |
| `ErrorDisplay.ShowErrorLeavesOneMessage` | script.js:180-198 | if every group held at most one error message, every group still does, and the field's group holds exactly one, the latest |
| `ErrorDisplay.ClearErrors` | script.js:81-83 | the clearing loop removes the `error` class from every group and leaves all children, old error messages included, in place |
| `ErrorDisplay.ShowErrorsMarks` | script.js:99-137 | for a group that held at most one error message before, reporting a list of failures leaves it, when a reported field lives in it, marked and showing exactly that field's message (a group with two stale messages keeps the second, since only the first is removed) |
| `ErrorDisplay.ShowErrorsUntouched` | script.js:99-137 | a group in which no reported field lives comes out of the reporting unchanged |
| `ErrorDisplay.SubmitAttempt` | script.js:81-141 | a submit attempt keeps the number of groups and proceeds exactly when every requirement is met |
| `ErrorDisplay.SubmitAttemptGroups` | script.js:81-141 | for a group that held at most one error message before the attempt: afterwards, if its field failed it is marked and shows exactly that field's message, and otherwise it is unmarked with its children as before (a stale message from an earlier attempt stays) |
| `ErrorDisplay.SubmitAttemptKeepsOneMessage` | script.js:81-141 | submit attempts never give a group a second error message |
| `PhoneFormat.WithCountryCodeOfDigits` | script.js:278-284 | on a digit string the three-way branch always produces `+49` followed by the national digits; the branch for a leading `+` is unreachable |
| `PhoneFormat.AreaLength` | script.js:287 | the second group of the pattern takes 2 to 4 digits, as many as possible while leaving at least one for the third group |
| `PhoneFormat.GroupDigitsOfNational` | script.js:287 | after `+49` and a run of national digits the replacement produces `+49 AAAA BBB…` when there are at least three digits and leaves the string alone otherwise |
| `PhoneFormat.FormatPhoneNumber` | script.js:275-290 | the output is `"+49 " + D[..k] + " " + D[k..]` where k is 4, or one less than the number of national digits D when that is smaller, provided D has at least three digits, and `"+49" + D` otherwise |
| `PhoneFormat.FormatShape` | script.js:276-289 | the output starts with `+49`, has only digits and spaces after its single leading `+`, and holds a space exactly when there are at least three national digits |
| `PhoneFormat.FormatKeepsDigits` | script.js:276-284 | the output's digits are the input's digits with a leading `49` kept, a leading `0` replaced by `49`, and `49` put in front of anything else |
| `PhoneFormat.FormatIdempotent` | script.js:275-290 | formatting a formatted number returns it unchanged |
| `PhoneFormat.FormatShortExamples` | script.js:276-287 | an empty field becomes `+49` and `030` becomes `+4930`: fewer than three national digits get no spaces |
| `PhoneField.EmptiedPhoneFieldFails` | script.js:113-119 | a phone field the formatter has run on while it held no digits holds `+49`, and the phone rule then reports it |
| `PhoneField.FormatPhoneKeepingBlank` | script.js:275-290 | the corrected formatter leaves a field without digits blank and otherwise formats as the script does |
| `PhoneField.BlankPhoneStaysOptional` | script.js:112-119 | with the corrected formatter an emptied phone field is never reported, and reformatting stays stable |
| `PhoneField.BackspacedFieldKeepsCountryCode` | script.js:275-296 | backspacing the last national digit leaves `+49`, which both the script's and the corrected formatter keep and the phone rule reports |
| `PhoneField.BackspaceOnCountryCode` | script.js:275-296 | one more backspace leaves `+4`, which both formatters turn into `+494` by the branch for a number without country code, and the phone rule reports that too: backspacing never empties the field |
| `PhoneField.ShortPhoneFails` | script.js:113-119 | a filled-in phone number inside the Basic Multilingual Plane, without white space at either end and shorter than 6 characters, is reported whatever its characters |
| `Navigation.ToggleMenu` | script.js:8-13 | a hamburger click flips both the menu's and the button's `active` class |
| `Navigation.ToggleInvolution` | script.js:8-13 | two clicks restore the state, and a click keeps the two classes in step |
| `Navigation.CloseMenu` | script.js:16-21 | a nav-link click leaves both classes off |
| `Navigation.CloseIdempotent` | script.js:16-21 | closing twice is closing once, and a closed menu is in step |
| `Navigation.Clicks` | script.js:7-21 | any sequence of hamburger and nav-link clicks keeps the menu and the button in step if they started in step, as they do on page load |
| `Navigation.NavbarThreshold` | script.js:24-30 | the navbar is `scrolled` exactly when `scrollY` is at least 101: 100 is not scrolled, 101 is, and scrolling further down keeps it scrolled |
| `Navigation.LinkFor` | script.js:41-45 | a matched section activates its own `#id` link when that is a nav link, and no other link; when it has none, no link is active |
| `Navigation.LastCovering` | script.js:37-47 | the chosen section spans the reading position and no later section does; none is chosen only when no section spans it |
| `Navigation.ActiveLinks` | script.js:33-48 | if no section spans `scrollY + 100` the active links are unchanged; otherwise they are the link of the last spanning section in document order |
| `Navigation.UpdateActiveLink` | script.js:33-48 | the loop over the sections computes exactly the active links described by `ActiveLinks` |
| `Navigation.ActiveLinksAtMostOne` | script.js:43-46 | whenever some section spans the reading position at most one nav link is active |
| `Navigation.ActiveLinksIdempotent` | script.js:33-48 | updating twice at the same scroll position gives the same active links as updating once |
| `Navigation.ActiveLinksInclusiveBounds` | script.js:35-43 | a section from 500 to 700 is current at scroll offsets 400 and 600 (both ends inclusive) and not at 601 |

## Findings

| source | as written | input that shows it | evidently intended | confidence | as-written member | corrected member |
|---|---|---|---|---|---|---|
| script.js:275-296 | the formatter runs on every `input` event and turns a field without digits into `+49`; the phone rule then rejects `+49` as shorter than 6 | type a digit into the optional phone field, select the field's contents and delete them, submit (backspacing cannot empty the field under either formatter: it flips between `+49` and `+494`, both rejected) | the field a visitor emptied stays empty, and the optional phone does not block the submission | medium, not executed | `PhoneField.EmptiedPhoneFieldFails` | `PhoneField.FormatPhoneKeepingBlank` |

## Left out

- DOM lookups and event registration (`getElementById`, `querySelectorAll`, `addEventListener`): the elements they find become parameters.
- The asynchronous submission path (script.js:143-177): the loading button, the 2-second simulated delay, the success banner, the form reset and the `catch`/`finally` restore. These are timers and an await on a simulated transport.
- `showSuccessMessage` and its timed fade and removal (script.js:200-220): timers.
- The reveal animations (script.js:223-271): they rely on the browser's IntersectionObserver, and the `transitionDelay` strings are float formatting.
- Smooth scrolling for anchors (script.js:53-72): a browser call. Its only logic is the early return for a bare `#`.
- The floating-label `has-value` class (script.js:299-307), image preloading and click logging (script.js:310-334): none of them has logic to model beyond `trim`, or they are side effects only.
- Full JavaScript regular-expression semantics: each pattern is a hand-written predicate. White space is the fixed ECMAScript set (the space separators as of Unicode 15), not a Unicode database lookup.
- `Navigation.UpdateActiveLink`: the active links are modelled as the set of `href`s of active nav links. Two nav links with the same `href` are therefore one entry, though `querySelector` marks only the first of them. A section id that would make the attribute selector invalid is not modelled. `scrollY` is an integer here, though browsers may report fractional offsets: at 600.5 the script finds a section from 500 to 700 no longer current, an input this model cannot express.
- `Navigation.NavbarThreshold` and `Navigation.ActiveLinks`: `scrollY` is an integer here, though browsers may report fractional offsets.
- `ErrorDisplay.ShowError`: each form group wraps one control and messages are its direct children. A control outside any `.form-group`, which makes the script throw, is not modelled.
