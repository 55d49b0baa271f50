# Sign-in form controller — a verified Dafny model

This project models the logic inside the React component `SignIn` (`src/components/SignIn.tsx`).
The component runs a three-view sign-in flow: *choose* a method, enter an e-mail address and a
phone number *manually*, or go through *Google* and enter only a phone number. The model covers:

- the two field validators, the e-mail pattern `^[^\s@]+@[^\s@]+\.[^\s@]+$` and the phone
  pattern `^[0-9]{10}$` (module `Validators`);
- the phone field's normaliser, which drops every non-digit and keeps at most ten digits
  (module `PhoneInput`);
- the simulated Gmail detection (module `GmailDetection`). It has two parts. The first is the
  choice of the first Gmail address among the values the browser offers. The second is the
  address the fallback fabricates from the user agent and the last four digits of the clock;
- the form controller as a class `Form.SignInForm` (module `Form`). Its fields are the view,
  both inputs, both inline error messages and the `zhevents_last_gmail` local-storage slot.
  A ghost log records every call of `onSignInComplete`. There is one method per event handler.

Module `Common` holds the shared string helpers: `Option` for `null`, the digit class, a
first-occurrence search, and `includes`.

Each validator is given twice. The first version is the language of its regular expression,
read literally. For the e-mail pattern this is an existential over the positions of `@` and
of the matched `\.`. For the phone pattern it is the repetition `[0-9]{10}`. The second version
is a decision procedure. Lemmas prove that the two agree. The handlers are proved against a
class invariant `Valid()`, which says:

- the phone field only ever holds normalised digits;
- the Google view always shows an address;
- the error slots hold only the component's own two messages;
- the callback has only ever received a valid phone number, together with a valid address
  (manual flow) or a non-empty one (Google flow).

Browser inputs are parameters of the methods. These are the text typed, the user agent, the
clock as `Date.now()`, and what the credential manager, the page's e-mail inputs, session
storage, the JWT decoding and the OAuth user-info request return.

Each handler requires the view in which the component renders its control:

- the e-mail input's `onChange` and the manual submit: the manual view;
- the phone input: the manual or the Google view;
- the Google phone submit: the Google view;
- the Gmail and manual buttons: the choose view;
- each back arrow: its own view.

The asynchronous callbacks (credential response, OAuth user info) and the fallback can run in
any view.

In `handleCredentialResponse` (`src/components/SignIn.tsx:84-98`) a payload that decodes but
carries no `email` changes nothing; only a decoding exception runs the fallback.
`Form.SignInForm.HandleCredentialResponse` states exactly that.

## Model

| member | source | states |
|---|---|---|
| `Common.FindChar` | src/components/SignIn.tsx:101 | the index returned is the first `@` of the string, or the length when there is none; the email pattern splits at this index |
| `Common.ContainsIff` | src/components/SignIn.tsx:249 | `includes` holds exactly when the searched text occurs at some position |
| `Validators.EmailPatternIff` | src/components/SignIn.tsx:100-103 | the decision procedure accepts exactly the strings in the language of `^[^\s@]+@[^\s@]+\.[^\s@]+$` |
| `Validators.EmailStructure` | src/components/SignIn.tsx:101 | `L + "@" + D` passes exactly when `L` is a non-empty run without whitespace or `@`, and `D` is a run without whitespace or `@` holding a `.` that is neither its first nor its last character |
| `Validators.EmailAcceptedShape` | src/components/SignIn.tsx:101 | an accepted address holds exactly one `@` and no whitespace character |
| `Validators.EmailRejects` | src/components/SignIn.tsx:101 | a string with zero or several `@`, or with any whitespace, is rejected |
| `Validators.MatchDigitsIff` | src/components/SignIn.tsx:106 | the anchored repetition `[0-9]{n}` matches exactly the digit strings of length `n` |
| `Validators.ValidatePhoneIff` | src/components/SignIn.tsx:105-108 | a phone number passes exactly when it is ten ASCII digits |
| `PhoneInput.DigitsOfAllDigits` | src/components/SignIn.tsx:301 | `replace(/[^0-9]/g, '')` leaves only digits |
| `PhoneInput.DigitsOfAppend` | src/components/SignIn.tsx:301 | the digit filter distributes over concatenation |
| `PhoneInput.DigitsOfFixesDigits` | src/components/SignIn.tsx:301 | the digit filter leaves a string of digits unchanged |
| `PhoneInput.DigitsOfErasesNonDigits` | src/components/SignIn.tsx:301 | the digit filter erases a string without digits |
| `PhoneInput.NormalizePhoneShape` | src/components/SignIn.tsx:299-302 | the stored phone holds only digits, has length `min(10, #digits of the input)`, and is that many leading digits of the input, in order |
| `PhoneInput.NormalizePhoneIdempotent` | src/components/SignIn.tsx:301 | normalising a stored phone again changes nothing |
| `PhoneInput.NormalizeKeepsValidPhone` | src/components/SignIn.tsx:301 | a valid phone number typed in is stored unchanged |
| `PhoneInput.NormalizePhoneValidIff` | src/components/SignIn.tsx:301-303 | the stored phone passes `validatePhone` exactly when the input holds at least ten digits, and exactly when its length is ten (the handler's clearing test) |
| `PhoneInput.NormalizePhonePrefix` | src/components/SignIn.tsx:301 | typing more never changes the digits already kept: the stored phone for `v` is a prefix of the stored phone for `v + w` |
| `GmailDetection.DecimalRoundTrip` | src/components/SignIn.tsx:254 | `toString` of the clock is a non-empty digit string that reads back as the number |
| `GmailDetection.LastDigitsValue` | src/components/SignIn.tsx:254 | the last `k` characters of `n.toString()` are digits that read back as `n % 10^k` (the source uses `k = 4`; `k = 0`, where the model's `LastN` gives the empty string, is a case of the model only) |
| `GmailDetection.TimestampTag` | src/components/SignIn.tsx:254 | `Date.now().toString().slice(-4)` is one to four digits (exactly four once the clock reads 1000 or more) denoting the clock modulo 10000 |
| `GmailDetection.FallbackEmailIsGmail` | src/components/SignIn.tsx:245-264 | the fallback's address, reused or fabricated, always contains `@gmail.com` and is never empty |
| `GmailDetection.FabricatedEmailValid` | src/components/SignIn.tsx:253-263 | every fabricated `prefix + timestamp + "@gmail.com"` address passes the component's own `validateEmail` |
| `GmailDetection.FallbackStable` | src/components/SignIn.tsx:248-267 | once the fallback has stored its address, a later fallback on any device at any time settles on that same address |
| `GmailDetection.FirstGmailNone` | src/components/SignIn.tsx:197-236 | detection finds nothing exactly when no candidate contains `@gmail.com` |
| `GmailDetection.FirstGmailAt` | src/components/SignIn.tsx:197-236 | detection returns the candidate at `i` when it is the first one containing `@gmail.com` |
| `GmailDetection.FirstGmailAppend` | src/components/SignIn.tsx:223-234 | detection looks at later sources only when the earlier ones hold no Gmail address |
| `GmailDetection.DetectDeviceEmail` | src/components/SignIn.tsx:197-241 | the loop with early returns yields the first Gmail value among the stored address, the credential id, the e-mail inputs and session storage, in that order; any result contains `@gmail.com` |
| `Form.SignInForm.constructor` | src/components/SignIn.tsx:35-38 | the initial state: choose view, empty fields, no errors, no completion; local storage as given |
| `Form.SignInForm.OnEmailChange` | src/components/SignIn.tsx:403-408 | the e-mail becomes the typed text; the e-mail error is cleared exactly when it was set and the text is valid; only those two fields change |
| `Form.SignInForm.OnPhoneChange` | src/components/SignIn.tsx:299-306 | the phone becomes the normalised input; the phone error is cleared exactly when it was set and ten digits are kept, that is, exactly when the new phone is valid; only those two fields change |
| `Form.SignInForm.ManualSignIn` | src/components/SignIn.tsx:110-126 | the e-mail error is set iff the e-mail is invalid and the phone error iff the phone is invalid; exactly one `(email, phone, false)` completion is appended iff both are valid; view and fields unchanged |
| `Form.SignInForm.GooglePhoneSubmit` | src/components/SignIn.tsx:285-297 | any e-mail error is dropped; the phone error is set iff the phone is invalid; exactly one `(email, phone, true)` completion is appended iff the phone is valid; view and fields unchanged |
| `Form.SignInForm.ChooseManual` | src/components/SignIn.tsx:357 | the manual button moves the choose view to the manual view and changes nothing else |
| `Form.SignInForm.BackFromManual` | src/components/SignIn.tsx:378 | the manual view's back arrow returns to the choose view and changes nothing else |
| `Form.SignInForm.BackFromGoogle` | src/components/SignIn.tsx:455 | the Google view's back arrow returns to the choose view and changes nothing else |
| `Form.SignInForm.GoogleSignInFallback` | src/components/SignIn.tsx:243-274 | the address is the stored Gmail address when there is one, otherwise the fabricated one; afterwards storage and e-mail both hold it, it contains `@gmail.com`, and the view is Google |
| `Form.SignInForm.HandleCredentialResponse` | src/components/SignIn.tsx:84-98 | a decoded e-mail is shown and stored and switches to the Google view; a payload without one changes nothing; an undecodable one runs the fallback |
| `Form.SignInForm.OnUserInfo` | src/components/SignIn.tsx:176-190 | an e-mail in the user-info answer is shown and stored and switches to the Google view; a missing one or a failed request runs the fallback |
| `Form.SignInForm.GoogleSignIn` | src/components/SignIn.tsx:128-167 | a detected Gmail address is shown in the Google view with storage untouched; with nothing detected and no Google library, the freshly fabricated address is shown and stored; with the library, nothing changes here |

## Left out

- JSX rendering and the CSS class choices (`src/components/SignIn.tsx:308-510`) are presentation only. The view preconditions above are what the model keeps of them.
- Loading, initialising and removing the Google Identity script (`useEffect`, `window.google.accounts.*`) are third-party code and DOM mutation. Their outcome enters as the `googleLoaded` parameter of `GoogleSignIn`.
- GoogleSignIn: with the Google library loaded, the model does not model the One Tap prompt, its notification callback or the token client of `initiateOAuthFlow`. These are foreign asynchronous APIs. Their eventual answers are modelled by `HandleCredentialResponse` and `OnUserInfo`. The `catch` path, where the prompt call itself throws and the fallback runs, is not modelled.
- `isGoogleLoaded`, `isDetectingEmail` and the two-second `setTimeout` are loading indicators driven by timers and promises. The `getDeviceInfo` fields other than the user agent (platform, language, time zone) are never used by the selection.
- HandleCredentialResponse: the `atob` + `JSON.parse` decoding of the JWT is library code. Its outcome is the `CredentialPayload` parameter, and a truthy non-string `email` field is not represented.
- DetectDeviceEmail: the browser lookups (`localStorage`, `navigator.credentials.get`, `document.querySelectorAll`, `sessionStorage`) enter as parameters. An exception from `localStorage.getItem`, `querySelectorAll` or `sessionStorage.getItem` is caught at `src/components/SignIn.tsx:237-240` and makes detection return `null`; that path is not modelled. A failing `credentials.get` is caught at `src/components/SignIn.tsx:216-218` and detection goes on to the e-mail inputs; the model covers it as a `None` credential id.
- `Date.now()` is non-deterministic and enters as a natural-number parameter. `console.*` logging is left out.
- React's asynchronous state updates and stale closures are not modelled. The model reads the current fields, whereas a handler in the source reads the state of the render that created it. For example, `handleCredentialResponse` is registered once at mount.
- JavaScript strings are sequences of UTF-16 code units. The model uses Unicode scalar values, which agree with them on every character the patterns test.
