# Signup form of the news-subscription web client

This project models the `SignUp` component of a small React client for a
news subscription service (src/components/signup.js). Three parts of it are
modelled:

- the validator `validateInputs`. It builds a fresh error map from the form
  snapshot, stores it in the `errors` state and reports whether the map is
  empty. Five independent checks are made: an unanchored `\S+@\S+\.\S+` test
  on the email, a length of at least 6 for the password, a non-empty full
  name, and at least one selected preference and category;
- the guard of `handleSubmit`. When validation fails, no request is built;
- the state handlers `handleChange` (replace one field of `formData`) and
  `handleCustomPreferenceAdd`. The adder trims the buffer and, if the result
  is not blank, does three things. It appends the result to the selected
  preferences, even when that value is already selected. It appends the
  result to the options list only when the list does not already hold it.
  It clears the buffer.

Modules:

- `JsString` gives the whitespace set of `\s` and `trim`. `Trim` is
  characterised by `TrimUnique`: whatever whitespace surrounds a trimmed core,
  `Trim` returns that core.
- `EmailPattern` gives the regular expression's meaning as a predicate over
  four indices (`Matches`). `Test` is the decision procedure the validator
  runs, and `TestIsMatch` proves the two agree.
- `SignUpForm` holds the pure values and rules. These are the form snapshot
  (`FormData`), the error map (`Validate`), the options updater
  (`AppendIfAbsent`) and the whole custom-add transition
  (`AddCustomPreference`) over the component's four state cells. The error
  map holds one of five messages (`ErrorMessage`) per failing key, and
  `Wording` gives each message's exact text, the string the form shows as
  the field's helper text.
- `SignUpComponent` holds the class `SignUp`. Its fields are the four state
  cells `formData`, `customPreference`, `errors` and `preferencesOptions`. Its
  methods are the handlers. `ValidateInputs`, `HandleSubmit`, `HandleChange`
  and `HandleCustomPreferenceAdd` are proved against the pure functions of
  `SignUpForm` that specify them (`Validate`, `WithField`,
  `AddCustomPreference`); `SetCustomPreference` states its new buffer
  directly. Every handler keeps the class invariant `Valid()`.

`preferences` is modelled as a sequence, as the code has it: the adder can
put the same value in it twice (`AddTwice`).

## Model

| member | source | states |
|---|---|---|
| `JsString.IsWhitespace` | src/components/signup.js:81 | the characters `\s` matches and `trim()` removes: the ECMAScript WhiteSpace and LineTerminator code points; its meaning for `trim()` is stated by `TrimStartSpec`, `TrimEndSpec` and `TrimUnique` |
| `JsString.TrimStartSpec` | src/components/signup.js:143 | the leading-whitespace pass of `trim()` keeps a suffix of its input; everything it drops is whitespace, and what it keeps does not start with whitespace |
| `JsString.TrimEndSpec` | src/components/signup.js:143 | the trailing-whitespace pass of `trim()` keeps a prefix of its input; everything it drops is whitespace, and what it keeps does not end with whitespace |
| `JsString.Trim` | src/components/signup.js:143 | `trim()` gives a string with no whitespace at either end, and it is empty exactly when the input is all whitespace (the adder's guard) |
| `JsString.TrimUnique` | src/components/signup.js:143 | for any whitespace prefix and suffix around a trimmed core, trim returns exactly that core |
| `JsString.TrimKeepsCore` | src/components/signup.js:143 | `trim()` returns a slice of its input with only whitespace before and after it |
| `JsString.TrimIdempotent` | src/components/signup.js:143 | trimming twice equals trimming once: the trimmed text is a fixed point of `trim()` |
| `EmailPattern.Matches` | src/components/signup.js:81 | the meaning of the unanchored `/\S+@\S+\.\S+/`: some substring is non-whitespace+ '@' non-whitespace+ '.' non-whitespace+ (reference definition for `Test`, see `TestIsMatch`) |
| `EmailPattern.Test` | src/components/signup.js:81 | the `.test(formData.email)` the validator runs; `TestIsMatch` proves it decides `Matches` |
| `EmailPattern.TestIsMatch` | src/components/signup.js:81 | the test run on the email succeeds exactly when some substring is non-whitespace+ '@' non-whitespace+ '.' non-whitespace+ |
| `EmailPattern.MatchIsUnanchored` | src/components/signup.js:81 | the pattern is unanchored: surrounding any matching email with arbitrary text, spaces included, keeps it matching |
| `EmailPattern.EmptyNeverMatches` | src/components/signup.js:81 | the empty email fails the pattern, so `!formData.email` adds nothing to the test |
| `EmailPattern.Samples` | src/components/signup.js:81 | "a@b.c" and " mail: a@b.c " match; "a@b", "a @b.c" and "a@.c" do not |
| `SignUpForm.WordingsDistinct` | src/components/signup.js:82-98 | the five message texts are pairwise different, so storing which message applies loses nothing of the text |
| `SignUpForm.WithField` | src/components/signup.js:137-140 | `{...prev, [field]: value}` gives `field` the new value and leaves every other field as it was |
| `SignUpForm.Validate` | src/components/signup.js:79-100 | the error map `validateInputs` builds, one rule after another; its meaning is stated by `ValidateReportsFailingRules` and `AcceptedIffAllRulesPass` |
| `SignUpForm.ValidateReportsFailingRules` | src/components/signup.js:78-100 | email error iff no pattern match; password error iff length < 6 (empty included); fullName error iff empty (no trim); preferences/categories error iff the array is empty; each present key holds its own message |
| `SignUpForm.AcceptedIffAllRulesPass` | src/components/signup.js:101-102 | the error map is empty exactly when all five rules pass |
| `SignUpForm.KeyDependsOnlyOnItsField` | src/components/signup.js:81-99 | two snapshots that agree on a field get the same verdict and message for that key |
| `SignUpForm.ChangeAffectsOnlyItsKey` | src/components/signup.js:137-140 | editing one field cannot add or remove the error of any other field |
| `SignUpForm.OneBadFieldOneError` | src/components/signup.js:81-102 | spoiling one field of an accepted form reports at most that one field |
| `SignUpForm.BlankNameAccepted` | src/components/signup.js:89-91 | a full name of one space is accepted; the empty name is not |
| `SignUpForm.SeedsDistinct` | src/components/signup.js:47-57 | the nine seed options are pairwise distinct |
| `SignUpForm.AppendIfAbsent` | src/components/signup.js:148-152 | the options update `prev.includes(v) ? prev : [...prev, v]`; its meaning is stated by `AppendIfAbsentKeepsOptions` |
| `SignUpForm.AppendIfAbsentKeepsOptions` | src/components/signup.js:148-152 | the options list keeps its old entries in order as a prefix, gains at most the new value, holds that value afterwards, is unchanged when the value was already listed, and stays duplicate-free |
| `SignUpForm.ListedOnce` | src/components/signup.js:148-152 | a duplicate-free options list holds each listed value exactly once |
| `SignUpForm.InitialStateInvariant` | src/components/signup.js:38-57 | the initial state satisfies the invariant: options duplicate-free and beginning with the seeds |
| `SignUpForm.AddCustomPreference` | src/components/signup.js:142-155 | the whole state transition of `handleCustomPreferenceAdd`; its meaning is stated by `AddCustomPreferenceSpec` |
| `SignUpForm.AddCustomPreferenceSpec` | src/components/signup.js:142-155 | no state change exactly when the buffer is blank; otherwise the trimmed value is appended to `preferences`, the other form fields are unchanged, options get the value only if absent, the buffer is cleared; errors never change; options only grow and the invariant is kept |
| `SignUpForm.AddKeepsSelectionListed` | src/components/signup.js:143-152 | if every selected preference is an option before an add, the same holds after it |
| `SignUpForm.AddTwice` | src/components/signup.js:143-152 | adding the same text twice selects it twice, but lists it once among the options |
| `SignUpForm.AddClimateToInitialState` | src/components/signup.js:142-155 | from the initial state, adding "  Climate  " selects "Climate" and lists it after the nine seeds |
| `SignUpComponent.SignUp.constructor` | src/components/signup.js:38-57 | initial state: an empty form, an empty buffer, no errors, the seed options; the invariant holds |
| `SignUpComponent.SignUp.ValidateInputs` | src/components/signup.js:78-103 | fills the error map one rule at a time and replaces `errors` with it, whatever was there before; it changes nothing else and returns true iff the map is empty; the invariant `Valid()` is kept |
| `SignUpComponent.SignUp.HandleSubmit` | src/components/signup.js:105-111 | a request is built exactly when validation passes, and its body wraps the current form; the invariant `Valid()` is kept |
| `SignUpComponent.SignUp.HandleChange` | src/components/signup.js:137-140 | `formData` becomes `WithField` of the old form; no other cell changes; the invariant `Valid()` is kept |
| `SignUpComponent.SignUp.SetCustomPreference` | src/components/signup.js:263 | the buffer takes the typed text; no other cell changes; the invariant `Valid()` is kept |
| `SignUpComponent.SignUp.HandleCustomPreferenceAdd` | src/components/signup.js:142-155 | the new state is `AddCustomPreference` of the old one, options only grow, and the invariant is kept |

## Left out

- The registration request itself: `fetch`, `response.json()`, `alert` and `console` (src/components/signup.js:113-134). These are I/O against a server outside this repository. `HandleSubmit` returns the body it would send.
- The hard-coded server URLs and ports (src/components/signup.js:114, src/services/api.js:1, src/pages/Login.js:17). They are configuration.
- All JSX and styling (src/components/signup.js:13-35, 157-277). The one state update written inline there is the buffer's change handler, which is modelled as `SetCustomPreference`.
- The login page, the navbar, the session token in `localStorage`, routing, the dashboard and the API wrapper (src/pages/*, src/components/Navbar.js, src/routes.js, src/App.js, src/services/api.js). They are browser storage and router plumbing. The pages `./pages/SignUp` and `./components/ProtectedRoute` that src/routes.js imports are not part of this model.
- Membership of `categories` in the fixed 17-value list (src/components/signup.js:58-76). Only the rendered menu enforces it, and `handleChange` accepts any array. For the same reason, "every selected preference is an option" is not a component invariant; it is proved only across an add (`AddKeepsSelectionListed`).
- React's asynchronous, batched state updates. Each handler is modelled as one atomic step on the current state. All reads in `handleCustomPreferenceAdd` use the same buffer value, so the order of its three updates does not matter.
- SignUpComponent.SignUp.HandleChange: requires the value kind to match the field (text for email, password and full name; an array for the two multi-selects). Every call site in the rendered form passes the matching kind, and a typed record cannot hold anything else.
- SignUpForm.ValidateReportsFailingRules: the password length is counted in Unicode characters, not UTF-16 code units, so a password with characters outside the Basic Multilingual Plane is counted shorter than JavaScript counts it. The regular expression engine's own Unicode tables are replaced by an explicit whitespace predicate, which is the ECMAScript WhiteSpace and LineTerminator list.
