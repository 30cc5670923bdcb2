# Real-estate site scripts: validators and page rules in Dafny

This project models the logic in the browser scripts of a real-estate
marketing site and proves properties of it:

- `js/form-validation.js`: the four regular expressions, the six field
  validators (`validateName`, `validateEmail`, `validatePhone`,
  `validatePassword`, `validateSelect`, `validateMessage`), the phone
  input filter, the `blur`/`input` handlers installed by
  `addRealTimeValidation`, `showError`/`showSuccess`/`clearErrors` as
  display state, and the login, register and contact submit handlers;
- `js/auth.js`: the password-visibility toggle and the login and register
  handlers of the authentication pages, which run a second, weaker rule
  set;
- `js/script.js`: the light/dark theme, the header shadow, the active
  navigation link, the Gmail-only newsletter form, the project search and
  the favourite (heart) button.

Layout, one module per file:

| file | module | contents |
|---|---|---|
| `optional.dfy` | `Optional` | `Option` |
| `text.dfy` | `Text` | the whitespace set shared by `trim()` and `\s`, `trim()`, ASCII classes, `toLowerCase`, `includes`, `replace(/class/g, '')` |
| `patterns.dfy` | `Patterns` | each regular expression as a predicate on the whole string |
| `validators.dfy` | `Validators` | the validators as pure functions returning `Accepted` or `Rejected(reason)`, the messages, the phone filter, the id dispatch, the submit decisions |
| `form_display.dfy` | `FormDisplay` | class `Form`: a sequence of controls whose classes and error messages the handlers update |
| `auth.dfy` | `Auth` | class `PasswordToggle`, the login and register decisions |
| `site.dfy` | `Site` | classes `ThemeSwitch`, `NavBar`, `NewsletterForm`, `ProjectGrid`, `FavouriteButton` and the functions that specify them |

Modelling choices:

- Whitespace is the ECMAScript WhiteSpace and LineTerminator set. `trim()`
  strips exactly these characters and `\s` matches exactly these, so one
  predicate serves both.
- `\d` and `[A-Za-z]` are ASCII. The regex `.` excludes the four line
  terminators.
- JavaScript truthiness of a string is `!= []`. A missing attribute or
  storage entry is `None`.
- The validators return a `Verdict`. `ErrorText` gives the exact message
  `showError` would display. A control's error is recorded as the rule set
  and the reason that produced it (`Notice`), whose `Text()` is that
  message.
- Page objects updated in place are classes with `modifies` clauses. The
  methods of each class are proved against a function on the old state
  (`Clicked`, `ThemeClicked`, `ActiveLinks`, `ToggledSave`, `Checked`,
  `Cleared`, ...), and the properties are lemmas about those functions.

Where the comments in `js/form-validation.js` (lines 88, 140 and 181) and
its code differ, the model follows the code:

- The name pattern's character class is `[A-Za-z\s'-]`. Any whitespace is
  allowed inside a name, not only a space.
- `validatePassword` compares against the reference only when the reference
  is truthy. A confirmation against an empty password falls through to the
  strength rules (`Validators.ConfirmEmptyOriginal`).
- `validatePhone` reports "required" for any blank value, not only an
  empty one.

## Model

| member | source | states |
|---|---|---|
| Text.TrimStart | js/form-validation.js:71 | the leading cut: a suffix of the input, everything cut off is whitespace, and it is empty or starts with non-whitespace |
| Text.TrimEnd | js/form-validation.js:71 | the trailing cut: a prefix of the input, everything cut off is whitespace, and it is empty or ends with non-whitespace |
| Text.Trim | js/form-validation.js:71-83 | `trim()` yields the empty string exactly for blank input; otherwise it starts and ends with non-whitespace; it is a slice of its input with only whitespace before and after it |
| Text.TrimFixedPoint | js/form-validation.js:77 | a value equals its trim exactly when it is empty or has no whitespace at either end |
| Text.TrimIdempotent | js/script.js:131 | trimming twice is trimming once |
| Text.TrimKeepsEnd | js/script.js:131 | a string ending in non-whitespace trims to one of its own suffixes |
| Text.Remove | js/script.js:123 | a global `replace` of a character class keeps no character of the class, and keeps every character outside it exactly as many times as the input holds it |
| Text.RemoveAppend | js/script.js:123 | deleting a class from a concatenation is deleting it from each part, the parts kept in order |
| Text.RemoveIdempotent | js/script.js:123 | deleting a class twice deletes nothing more |
| Text.Lower | js/script.js:235 | `toLowerCase` keeps the length and lowers each ASCII capital |
| Text.LowerIdempotent | js/script.js:235-240 | lowering twice is lowering once |
| Text.Contains | js/script.js:242 | `includes`: the needle is a prefix of some suffix of the haystack |
| Patterns.MatchesName | js/form-validation.js:7 | `patterns.name`: an ASCII letter, then letters, whitespace, apostrophes and hyphens, on the whole string |
| Patterns.MatchesEmail | js/form-validation.js:8 | `patterns.email`: a non-empty run without whitespace or '@', an '@', then a domain of such runs around a dot |
| Patterns.MatchesPhone | js/form-validation.js:9 | `patterns.phone`: exactly ten ASCII digits, the first one 6 to 9 |
| Patterns.MatchesPassword | js/form-validation.js:10 | `patterns.password`: eight or more characters, no line terminator, with a lower-case letter, an upper-case letter and a digit |
| Patterns.MatchesGmail | js/script.js:132 | the Gmail pattern: a non-empty run of `[A-Za-z0-9._%+-]` followed by exactly "@gmail.com" |
| Patterns.EmailSplit | js/form-validation.js:8 | a string matching the email pattern splits at an '@' into allowed characters and a domain |
| Patterns.EmailClean | js/form-validation.js:8 | a string matching the email pattern has no whitespace and exactly one '@' |
| Patterns.EmailShape | js/form-validation.js:8 | in a match, the '@' is followed by a dot with non-empty, whitespace-free and '@'-free text on both sides |
| Patterns.DomainSplit | js/form-validation.js:8 | a domain matching `[^\s@]+\.[^\s@]+` splits at an inner dot into two runs of allowed characters |
| Patterns.EmailFromParts | js/form-validation.js:8 | conversely, local part, '@', host, '.', top-level part, all non-empty and allowed, match the email pattern |
| Patterns.GmailIsEmail | js/script.js:132 | every match of the Gmail pattern matches the email pattern |
| Validators.ValidateName | js/form-validation.js:67-101 | `validateName`: required, edge spaces, at least two characters, the name pattern, the leading letter, in that order |
| Validators.ValidateEmail | js/form-validation.js:105-133 | `validateEmail`: required, edge spaces, any U+0020 inside, the email pattern, in that order |
| Validators.PhoneDigits | js/form-validation.js:147 | `replace(/[\s-]/g, '')`: the value with whitespace and hyphens deleted |
| Validators.ValidatePhone | js/form-validation.js:137-168 | `validatePhone`: blank is required; then, on the value without separators, digits only, exactly ten, a leading 6 to 9 |
| Validators.ValidatePassword | js/form-validation.js:172-216 | `validatePassword`: blank is required; a confirmation against a truthy reference is only compared; otherwise length 8, upper-case, lower-case, digit, in that order |
| Validators.ValidateMessage | js/form-validation.js:233-256 | `validateMessage`: required, edge spaces, then the minimum length |
| Validators.Validate | js/form-validation.js:271-296 | one validator per rule set, as the blur handler and the submit handlers call them |
| Validators.ErrorText | js/form-validation.js:72-250 | the exact text each validator passes to `showError` for each reason, with the field name and minimum length filled in |
| Validators.PasswordErrorText | js/form-validation.js:177-211 | the six texts of `validatePassword` |
| Validators.ValidateSelect | js/form-validation.js:220-230 | a select is accepted exactly when its value is non-empty, and is otherwise rejected as required |
| Validators.NameReasons | js/form-validation.js:67-101 | the name validator never reports the missing leading letter: that check cannot fire after the pattern check |
| Validators.EmailReasons | js/form-validation.js:105-133 | the email validator rejects only as required, edge spaces, contains a space or bad format |
| Validators.PhoneReasons | js/form-validation.js:137-168 | the phone validator rejects only as required, non-digit, wrong length or bad leading digit |
| Validators.PasswordReasons | js/form-validation.js:172-216 | a confirmation against a non-empty password is rejected only as required or mismatch; no other mode ever reports a mismatch |
| Validators.MessageReasons | js/form-validation.js:233-256 | the message validator rejects only as required, edge spaces or too short |
| Validators.NameAcceptedIff | js/form-validation.js:67-101 | a name is accepted exactly when it is non-blank, equals its trim, has at least two characters and matches the name pattern |
| Validators.AcceptedNameEnds | js/form-validation.js:7 | an accepted name starts with an ASCII letter and ends with a letter, apostrophe or hyphen |
| Validators.EmailAcceptedIff | js/form-validation.js:105-133 | an email is accepted exactly when it matches the email pattern; the earlier checks only choose the message |
| Validators.AcceptedEmailShape | js/form-validation.js:105-133 | an accepted email has no whitespace, exactly one '@', and a dot after it with allowed text on both sides |
| Validators.EmailSpaceReportedFirst | js/form-validation.js:115-127 | a trimmed non-blank value holding a space is rejected as containing a space, and the pattern would reject it too |
| Validators.PhoneAcceptedIff | js/form-validation.js:137-168 | a phone number is accepted exactly when, with whitespace and hyphens deleted, it matches the phone pattern |
| Validators.PasswordAcceptedIff | js/form-validation.js:172-216 | outside confirmation mode a password is accepted exactly when it has at least 8 characters, an upper-case letter, a lower-case letter and a digit |
| Validators.ConfirmAcceptedIff | js/form-validation.js:182-189 | a confirmation against a non-empty password is accepted exactly when equal to it (and not blank), with no strength rule |
| Validators.ConfirmEmptyOriginal | js/form-validation.js:182 | a confirmation against an empty password gives the plain password verdict |
| Validators.PasswordPatternStricter | js/form-validation.js:10 | whatever `patterns.password` matches is accepted, but the validator also accepts a value the pattern rejects (a trailing line break) |
| Validators.MessageAcceptedIff | js/form-validation.js:233-256 | a message is accepted exactly when non-blank, equal to its trim and at least `minLength` long |
| Validators.MessageMinLengthMonotone | js/form-validation.js:249 | lowering the minimum length keeps an accepted message accepted |
| Validators.PhoneInputFilter | js/form-validation.js:312-321 | the phone filter yields only digits, at most ten, a prefix of the input's digits, and all of them when there are fewer than ten |
| Validators.PhoneInputFilterIdempotent | js/form-validation.js:312-321 | filtering a filtered value changes nothing |
| Validators.FilteredPhoneVerdict | js/form-validation.js:147-168 | a filtered value is never rejected as non-digit, and is accepted exactly when it matches the phone pattern |
| Validators.NoSeparatorInDigits | js/form-validation.js:147 | deleting whitespace and hyphens from a string of digits changes nothing |
| Validators.FieldForId | js/form-validation.js:271-296 | ids outside the eleven handled ones get no validator; exactly `confirmPassword` is checked as a confirmation, against the register password's value |
| Validators.LoginAccepts | js/form-validation.js:347-350 | the login submit's decision: the email and password validators both accept |
| Validators.RegisterAccepts | js/form-validation.js:388-402 | the register submit's decision: the six validators accept (the confirmation against the password) and the terms are checked |
| Validators.ContactAccepts | js/form-validation.js:438-444 | the contact submit's decision: the five validators accept, the message with minimum length ten |
| Validators.LoginAcceptsIff | js/form-validation.js:347-350 | login is accepted exactly when the email matches its pattern and the password is strong |
| Validators.RegisterAcceptsIff | js/form-validation.js:388-402 | registration is accepted exactly when both names are well formed, email and cleaned phone match, the password is strong, the confirmation equals it and the terms are checked |
| Validators.ConfirmStrong | js/form-validation.js:393 | against a strong password, a confirmation is accepted exactly when equal to it |
| Validators.ContactAcceptsIff | js/form-validation.js:438-444 | the contact form is accepted exactly when name, email, cleaned phone, subject and message meet their rules, with a minimum message length of ten |
| Validators.NameWithDigit | js/form-validation.js:89-93 | a digit in a name ("Bob2") is reported as a bad character |
| Validators.LowercasePasswordRejected | js/form-validation.js:197-201 | eight or more lower-case letters are rejected for lacking an upper-case letter |
| Validators.PasswordStrongExample | js/form-validation.js:172-216 | "Abcdefg1" is accepted |
| FormDisplay.Errored | js/form-validation.js:14-38 | after `showError` the control is invalid, not valid, and shows exactly the given message; id and value are unchanged |
| FormDisplay.Succeeded | js/form-validation.js:41-53 | after `showSuccess` the control is valid and shows no message |
| FormDisplay.Cleared | js/form-validation.js:56-64 | after `clearErrors` the control has neither class and no message |
| FormDisplay.Checked | js/form-validation.js:67-256 | a validated control is consistent and keeps its id and value |
| FormDisplay.CheckedShowsVerdict | js/form-validation.js:67-256 | a validated control is valid exactly on acceptance and invalid exactly on rejection, showing the message of the failed check |
| FormDisplay.CheckedIdempotent | js/form-validation.js:67-256 | validating a field twice shows what validating it once shows |
| FormDisplay.CheckedValid | js/form-validation.js:67-256 | for each rule set, `is-valid` means exactly that its validator accepted the value |
| FormDisplay.LoginVerdicts | js/form-validation.js:347-350 | the login controls both end valid exactly when the login is accepted |
| FormDisplay.RegisterVerdicts | js/form-validation.js:388-402 | the six register controls all end valid, with terms checked, exactly when registration is accepted |
| FormDisplay.ContactVerdicts | js/form-validation.js:438-444 | the five contact controls all end valid exactly when the contact form is accepted |
| FormDisplay.Form.constructor | js/form-validation.js:336-338 | a form as loaded: every control holds its default value and shows neither class nor message |
| FormDisplay.Form.ShowError | js/form-validation.js:14-38 | only control `i` changes, to its errored display |
| FormDisplay.Form.ShowSuccess | js/form-validation.js:41-53 | only control `i` changes, to its succeeded display |
| FormDisplay.Form.ClearErrors | js/form-validation.js:56-64 | every control loses its message and both classes, values untouched |
| FormDisplay.Form.Reset | js/form-validation.js:447 | every control gets its default value back, display untouched |
| FormDisplay.Form.Check | js/form-validation.js:67-256 | control `i` shows the verdict of `field` on its value, the result is whether it was accepted, and no other control changes |
| FormDisplay.Form.Blur | js/form-validation.js:271-296 | a handled id is validated by its rule set and nothing else changes; any other id changes nothing |
| FormDisplay.Form.Input | js/form-validation.js:299-306 | typing into an invalid control clears its class and message; a control not invalid is unchanged |
| FormDisplay.Form.PhoneInput | js/form-validation.js:312-321 | the phone control's value becomes its filtered value |
| FormDisplay.Form.SubmitLogin | js/form-validation.js:340-359 | after clearing, email and password show their verdicts, every other control is cleared, and the result is whether both are valid, which is exactly whether the login is accepted on the values submitted |
| FormDisplay.Form.SubmitRegister | js/form-validation.js:376-411 | after clearing, the six controls show their verdicts (the confirmation against the password's value), the rest are cleared, and the result is whether all six are valid and the terms checked, which is exactly whether registration is accepted on the values submitted |
| FormDisplay.Form.SubmitContact | js/form-validation.js:428-454 | the result is whether all five validators accept, which is exactly whether the contact form is accepted on the values submitted; on success the form is reset and cleared, otherwise the five controls show their verdicts and the rest are cleared |
| Auth.PasswordToggle.constructor | js/auth.js:4-9 | a page as served: a password input with the open eye, in sync |
| Auth.Clicked | js/auth.js:12-20 | a click turns a password input into text with the crossed eye, and anything else into a password input with the open eye; other icon classes are kept |
| Auth.ClickSyncs | js/auth.js:12-20 | after any click the icon agrees with the input type |
| Auth.TwoClicksRestoreIff | js/auth.js:12-20 | two clicks restore the state exactly when the icon agreed with the input |
| Auth.PasswordToggle.Click | js/auth.js:9-21 | the toggle's state becomes the clicked state, which is in sync |
| Auth.LoginAllowed | js/auth.js:41-48 | the login handler's test: email and password are both non-empty |
| Auth.Register | js/auth.js:69-106 | the register handler: mismatch, short password, terms, email pattern, then all fields non-empty; the first failing check decides |
| Auth.AlertText | js/auth.js:71-106 | the alert raised by each outcome of the register handler |
| Auth.FormLoginImpliesLogin | js/auth.js:41 | anything the login validators accept passes the auth login check |
| Auth.LoginWithoutFormat | js/auth.js:41-48 | the auth login check passes a one-letter email that the email validator rejects |
| Auth.RegisterFirstFailure | js/auth.js:69-91 | each early return happens exactly when the checks before it passed and its own failed |
| Auth.RegisteredIff | js/auth.js:69-101 | registration succeeds exactly when the passwords agree and have 8 or more characters, the terms are accepted, the email matches, and names and phone are non-empty |
| Auth.MissingFieldsMeansNameOrPhone | js/auth.js:93-106 | the "fill in all fields" alert means a name or the phone is empty; password and email cannot be |
| Auth.MismatchBeforeLength | js/auth.js:70-78 | "abc" against "abd" reports the mismatch, not the length |
| Auth.FormRegisterImpliesRegister | js/auth.js:69-101 | anything the register validators accept, the auth handler registers |
| Auth.RegisterSkipsStrength | js/auth.js:75 | the auth handler still registers with eight lower-case letters as password, which the password validator rejects |
| Site.Loaded | js/script.js:26-33 | the page after the load-time script: a stored "dark" makes the page dark, hides the moon and shows the sun; anything else leaves the page alone |
| Site.ThemeClicked | js/script.js:36-51 | the theme click: dark turns light, anything else dark; the new theme is stored and the icons follow |
| Site.InitialTheme | js/script.js:26 | the initial theme is the stored one when non-empty, and "light" otherwise |
| Site.LoadedOnlyWhenDark | js/script.js:26-33 | only a stored "dark" changes the page on load, making it dark with the moon hidden and the sun shown |
| Site.ThemeSwitch.constructor | js/script.js:26-33 | the page after the load-time script is the loaded state |
| Site.ThemeClickedCoherent | js/script.js:36-51 | a click maps dark to light and anything else to dark, stores the new theme, and leaves icons and storage agreeing with it |
| Site.ThemeTwoClicksIff | js/script.js:36-51 | two clicks restore the page exactly when it was coherent, and a dark page always comes back dark |
| Site.ThemeSwitch.Click | js/script.js:36-51 | the switch's state becomes the clicked state, which is coherent |
| Site.HeaderShadow | js/script.js:79-83 | the strong shadow above 100, the light one otherwise |
| Site.HeaderShadowThreshold | js/script.js:79-83 | the strong shadow shows exactly above 100, not at 100, and stays on for larger offsets |
| Site.Marked | js/script.js:101-106 | one pass of the inner loop: the link loses `active`, and gets it back when its href is "#" + the section id |
| Site.ActiveLinks | js/script.js:92-108 | `updateActiveLink`: when some section holds scrollY + 150, every link is marked for the last such section, since later passes overwrite earlier ones; otherwise the links are unchanged |
| Site.LastCovering | js/script.js:92-108 | finds the last section whose span holds the position, or reports that none does |
| Site.ActiveLinksMarkLastSection | js/script.js:92-108 | if some section holds scrollY+150, exactly the links pointing at the last such section are active; otherwise nothing changes; no href changes |
| Site.NavBar.UpdateActiveLink | js/script.js:92-108 | the nested loops leave the links as the active-link function says |
| Site.NewsletterFilter | js/script.js:122-124 | the newsletter input with all whitespace deleted |
| Site.NewsletterFilterClean | js/script.js:122-124 | the newsletter filter leaves no whitespace, is its own trim and is idempotent |
| Site.NewsletterForm.Input | js/script.js:122-124 | the input holds the filtered value, with no whitespace |
| Site.GmailAccepted | js/script.js:131-134 | the newsletter submit's test: the trimmed value matches the Gmail pattern |
| Site.GmailAcceptedIsEmail | js/script.js:131-137 | an accepted newsletter address also passes the email validator |
| Site.GmailCaseSensitive | js/script.js:132 | whatever precedes it, a value ending in "@Gmail.com" is rejected: the domain is case-sensitive |
| Site.CapitalSuffixNotGmail | js/script.js:132 | no suffix of a string ending in "@Gmail.com" matches the Gmail pattern |
| Site.NewsletterForm.Submit | js/script.js:128-151 | the result is whether the trimmed address matches the Gmail pattern; success empties the input, failure leaves it unchanged |
| Site.CardShown | js/script.js:235-242 | the search test for one card: the lowered title or the lowered address includes the lowered term |
| Site.LowerKeepsContains | js/script.js:235-242 | lowering both strings keeps an occurrence |
| Site.CardShownProperties | js/script.js:235-242 | an empty term shows every card, a term occurring as written shows its card, and the term's case does not matter |
| Site.ProjectGrid.Search | js/script.js:234-248 | each card is displayed "block" exactly when its lowered title or address contains the lowered term, otherwise "none"; texts are unchanged |
| Site.ToggledSave | js/script.js:309-322 | `toggleSave`: a hollow heart turns solid and red and is stored as saved; any other heart turns hollow, loses its colour and is stored as not saved |
| Site.Replace | js/script.js:314 | `classList.replace` swaps a present token for the new one and leaves other classes alone |
| Site.SavedFlagFollowsHeart | js/script.js:309-322 | after a toggle the stored flag is "true" exactly when the heart is solid, and otherwise "false" |
| Site.TwoTogglesRestore | js/script.js:309-322 | a heart showing one style is in sync after a toggle, and two toggles restore an in-sync heart |
| Site.FavouriteButton.ToggleSave | js/script.js:309-322 | the button's state becomes the toggled state |

## Left out

- String lengths are counted in Unicode scalar values, while JavaScript counts UTF-16 code units. The two differ only for characters outside the Basic Multilingual Plane.
- `toLowerCase` is modelled on ASCII letters only. Other characters are kept as they are.
- `showError` and `showSuccess` look up the form group with `closest`, place the message with `after` and special-case `input-with-icon`. This DOM placement is left out. A control records its classes and its message.
- A displayed message is recorded as the rule set and the failed check that produced it. `ErrorText` gives the words. Its catch-all arms cover the reasons each validator cannot produce (`Validators.NameReasons` and its siblings).
- `alert`, `console.log`, focusing the first invalid field, the redirect timers and `showNotification` are I/O. They are not modelled.
- The keypress handlers of `addRealTimeValidation` and `setupPhoneValidation` only cancel key events. The input handlers that follow them are modelled.
- The page loader, smooth scrolling, the IntersectionObserver animation, the mortgage calculator (floating point), `shareProperty` (a foreign promise API) and the social login buttons are left out. So is the code that is commented out in script.js.
- The guards that wire listeners only when an element exists are left out. So is the `lastScroll` variable, which nothing reads.
- `form.reset()` is modelled as restoring each control's default value. The newsletter input is emptied, as the handler does explicitly after its reset.
- Site.NewsletterForm.Submit: only the email input is modelled. `form.reset()` on the form's other inputs is not.
- DOM lookups by id become parameters. The submit methods take the positions of the controls with the expected ids. The register password value used on blur is passed in.
- Site.ThemeSwitch.Click, Auth.PasswordToggle.Click and Site.FavouriteButton.ToggleSave model one page's nodes. Other listeners attached to the same nodes are not modelled.
