/** The sign-in form controller: which of the three views is shown, the two input
    fields, their inline error messages, the `zhevents_last_gmail` local-storage slot,
    and the calls made to the `onSignInComplete` callback. Each event handler of the
    component is a method; browser inputs (typed text, user agent, clock, what the
    Google libraries and storage hand back) are its parameters. */
module Form {
  import opened Common
  import opened Validators
  import opened PhoneInput
  import opened GmailDetection

  /** `signInMethod`: the view on screen. */
  datatype View = Choose | Manual | Google

  /** One call `onSignInComplete(email, phone, isGoogleSignIn)`. */
  datatype Completion = Completion(email: string, phone: string, isGoogleSignIn: bool)

  const EmailErrorMessage: string := "Please enter a valid email address"
  const PhoneErrorMessage: string := "Please enter a valid 10-digit phone number"

  /** What decoding a Google credential's JWT payload gave: it failed (the `catch`
      path), or it produced a payload whose `email` field is the string given
      (the empty string standing for a missing or empty field). */
  datatype CredentialPayload = Undecodable | Decoded(email: string)

  /** What the OAuth user-info request gave: the request or its JSON failed, or it
      produced a record whose `email` is the string given (empty when missing). */
  datatype UserInfo = FetchFailed | Fetched(email: string)

  class SignInForm {
    var signInMethod: View
    var email: string
    var phone: string
    var emailError: Option<string>
    var phoneError: Option<string>
    /** The `zhevents_last_gmail` local-storage slot (`None` when it holds nothing). */
    var storedGmail: Option<string>
    /** Every call made to `onSignInComplete`, oldest first. */
    ghost var completions: seq<Completion>

    /** The invariant every handler keeps: the phone field only ever holds a normalised
        value, the Google view always shows an address, error slots hold only the
        component's own messages, and the callback only ever received a valid phone
        number together with a valid address (manual flow) or a non-empty one (Google flow). */
    ghost predicate Valid()
      reads this
    {
      AllDigits(phone) && |phone| <= PhoneLength &&
      (signInMethod == Google ==> email != []) &&
      (emailError == None || emailError == Some(EmailErrorMessage)) &&
      (phoneError == None || phoneError == Some(PhoneErrorMessage)) &&
      forall c :: c in completions ==>
        ValidatePhone(c.phone) &&
        (if c.isGoogleSignIn then c.email != [] else ValidateEmail(c.email))
    }

    /** The component's initial state, over whatever local storage already holds. */
    constructor (stored: Option<string>)
      ensures Valid()
      ensures signInMethod == Choose && email == [] && phone == []
      ensures emailError == None && phoneError == None
      ensures storedGmail == stored && completions == []
    {
      signInMethod := Choose;
      email, phone := [], [];
      emailError, phoneError := None, None;
      storedGmail := stored;
      completions := [];
    }

    /** The e-mail input's `onChange` (rendered in the manual view only): store the
        text, and clear the e-mail error when there was one and the text is now valid. */
    method OnEmailChange(value: string)
      requires Valid() && signInMethod == Manual
      modifies this`email, this`emailError
      ensures Valid()
      ensures email == value
      ensures emailError == if old(emailError).Some? && ValidateEmail(value) then None else old(emailError)
    {
      email := value;
      if emailError.Some? && ValidateEmail(value) {
        emailError := None;
      }
    }

    /** `handlePhoneChange` (the phone input of the manual and the Google view): store the
        normalised digits, and clear the phone error when there was one and ten digits are kept. */
    method OnPhoneChange(value: string)
      requires Valid() && signInMethod != Choose
      modifies this`phone, this`phoneError
      ensures Valid()
      ensures phone == NormalizePhone(value)
      ensures phoneError == if old(phoneError).Some? && |phone| == PhoneLength then None else old(phoneError)
      ensures old(phoneError).Some? ==> (phoneError == None <==> ValidatePhone(phone))
    {
      var numericValue := NormalizePhone(value);
      NormalizePhoneShape(value);
      NormalizePhoneValidIff(value);
      phone := numericValue;
      if phoneError.Some? && |numericValue| == PhoneLength {
        phoneError := None;
      }
    }

    /** `handleManualSignIn`: replace both error messages by the validation outcome and
        call back with `isGoogleSignIn = false` when both fields are valid. */
    method ManualSignIn()
      requires Valid() && signInMethod == Manual
      modifies this`emailError, this`phoneError, this`completions
      ensures Valid()
      ensures emailError.Some? <==> !ValidateEmail(email)
      ensures phoneError.Some? <==> !ValidatePhone(phone)
      ensures completions ==
        if ValidateEmail(email) && ValidatePhone(phone)
        then old(completions) + [Completion(email, phone, false)]
        else old(completions)
    {
      var newEmailError: Option<string> := None;
      var newPhoneError: Option<string> := None;
      if email == [] || !ValidateEmail(email) {
        newEmailError := Some(EmailErrorMessage);
      }
      if phone == [] || !ValidatePhone(phone) {
        newPhoneError := Some(PhoneErrorMessage);
      }
      emailError, phoneError := newEmailError, newPhoneError;
      if newEmailError == None && newPhoneError == None {
        completions := completions + [Completion(email, phone, false)];
      }
    }

    /** `handleGooglePhoneSubmit`: only the phone is checked; the error set becomes just the
        phone error or nothing, and a valid phone calls back with `isGoogleSignIn = true`. */
    method GooglePhoneSubmit()
      requires Valid() && signInMethod == Google
      modifies this`emailError, this`phoneError, this`completions
      ensures Valid()
      ensures emailError == None
      ensures phoneError.Some? <==> !ValidatePhone(phone)
      ensures completions ==
        if ValidatePhone(phone)
        then old(completions) + [Completion(email, phone, true)]
        else old(completions)
    {
      var newPhoneError: Option<string> := None;
      if phone == [] || !ValidatePhone(phone) {
        newPhoneError := Some(PhoneErrorMessage);
      }
      emailError, phoneError := None, newPhoneError;
      if newPhoneError == None {
        completions := completions + [Completion(email, phone, true)];
      }
    }

    /** The choose view's "Sign in with Email id and Phone Number" button. */
    method ChooseManual()
      requires Valid() && signInMethod == Choose
      modifies this`signInMethod
      ensures Valid() && signInMethod == Manual
    {
      signInMethod := Manual;
    }

    /** The manual view's back arrow. */
    method BackFromManual()
      requires Valid() && signInMethod == Manual
      modifies this`signInMethod
      ensures Valid() && signInMethod == Choose
    {
      signInMethod := Choose;
    }

    /** The Google view's back arrow. */
    method BackFromGoogle()
      requires Valid() && signInMethod == Google
      modifies this`signInMethod
      ensures Valid() && signInMethod == Choose
    {
      signInMethod := Choose;
    }

    /** `handleGoogleSignInFallback`: reuse the stored Gmail address or fabricate one from
        the user agent and the clock, store it, show it and switch to the Google view. */
    method GoogleSignInFallback(userAgent: string, now: nat)
      requires Valid()
      modifies this`email, this`signInMethod, this`storedGmail
      ensures Valid()
      ensures email == FallbackEmail(old(storedGmail), userAgent, now)
      ensures storedGmail == Some(email) && signInMethod == Google
      ensures IsGmail(email)
    {
      var detectedEmail: string;
      if storedGmail.Some? && IsGmail(storedGmail.value) {
        detectedEmail := storedGmail.value;
      } else {
        detectedEmail := FabricatedEmail(userAgent, now);
      }
      FallbackEmailIsGmail(storedGmail, userAgent, now);
      storedGmail := Some(detectedEmail);
      email := detectedEmail;
      signInMethod := Google;
    }

    /** `handleCredentialResponse`: a payload with an e-mail shows it, stores it and switches
        to the Google view; a payload without one changes nothing; a payload that cannot be
        decoded runs the fallback. */
    method HandleCredentialResponse(payload: CredentialPayload, userAgent: string, now: nat)
      requires Valid()
      modifies this`email, this`signInMethod, this`storedGmail
      ensures Valid()
      ensures payload.Decoded? && payload.email != [] ==>
        email == payload.email && storedGmail == Some(email) && signInMethod == Google
      ensures payload.Decoded? && payload.email == [] ==>
        email == old(email) && storedGmail == old(storedGmail) && signInMethod == old(signInMethod)
      ensures payload.Undecodable? ==>
        email == FallbackEmail(old(storedGmail), userAgent, now) &&
        storedGmail == Some(email) && signInMethod == Google
    {
      match payload
      case Undecodable =>
        GoogleSignInFallback(userAgent, now);
      case Decoded(e) =>
        if e != [] {
          email := e;
          signInMethod := Google;
          storedGmail := Some(e);
        }
    }

    /** The OAuth token callback's user-info step: an e-mail in the answer is shown, stored
        and switches to the Google view; a missing one or a failed request runs the fallback. */
    method OnUserInfo(info: UserInfo, userAgent: string, now: nat)
      requires Valid()
      modifies this`email, this`signInMethod, this`storedGmail
      ensures Valid()
      ensures signInMethod == Google && storedGmail == Some(email)
      ensures email ==
        if info.Fetched? && info.email != [] then info.email
        else FallbackEmail(old(storedGmail), userAgent, now)
    {
      if info.Fetched? && info.email != [] {
        email := info.email;
        signInMethod := Google;
        storedGmail := Some(info.email);
      } else {
        GoogleSignInFallback(userAgent, now);
      }
    }

    /** `handleGoogleSignIn` (the choose view's Gmail button): a Gmail address detected on
        the device is shown in the Google view; otherwise, without the Google library, the
        fallback runs; with it, the Google prompt takes over and its answer arrives later
        through `HandleCredentialResponse` or `OnUserInfo`. */
    method GoogleSignIn(credentialId: Option<string>, inputValues: seq<string>,
                        sessionEmail: Option<string>, googleLoaded: bool,
                        userAgent: string, now: nat)
      requires Valid() && signInMethod == Choose
      modifies this`email, this`signInMethod, this`storedGmail
      ensures Valid()
      ensures var detected := FirstGmail(Candidates(old(storedGmail), credentialId, inputValues, sessionEmail));
        if detected.Some? then
          email == detected.value && signInMethod == Google && storedGmail == old(storedGmail)
        else if !googleLoaded then
          email == FabricatedEmail(userAgent, now) && signInMethod == Google && storedGmail == Some(email)
        else
          email == old(email) && signInMethod == old(signInMethod) && storedGmail == old(storedGmail)
    {
      var detectedEmail := DetectDeviceEmail(storedGmail, credentialId, inputValues, sessionEmail);
      if detectedEmail.Some? {
        ContainsIff(detectedEmail.value, GmailSuffix);
        email := detectedEmail.value;
        signInMethod := Google;
      } else if !googleLoaded {
        FirstGmailAppend(OptionSeq(storedGmail),
                         OptionSeq(credentialId) + inputValues + OptionSeq(sessionEmail));
        assert Candidates(storedGmail, credentialId, inputValues, sessionEmail) ==
               OptionSeq(storedGmail) + (OptionSeq(credentialId) + inputValues + OptionSeq(sessionEmail));
        GoogleSignInFallback(userAgent, now);
      }
    }
  }

  /** A client of the handlers' contracts: a user picks the manual flow, types a valid
      address and a valid phone number, and submits; the callback receives exactly
      those two with `isGoogleSignIn = false`, and no error is shown. */
  method ManualFlowClient(address: string, digits: string)
    requires ValidateEmail(address) && ValidatePhone(digits)
  {
    NormalizeKeepsValidPhone(digits);
    var form := new SignInForm(None);
    form.ChooseManual();
    form.OnEmailChange(address);
    form.OnPhoneChange(digits);
    form.ManualSignIn();
    assert form.completions == [Completion(address, digits, false)];
    assert form.emailError == None && form.phoneError == None;
    form.BackFromManual();
    assert form.signInMethod == Choose;
  }

  /** The Google flow from the choose view without the Google library: the fallback
      fabricates an address, and a valid phone number completes the sign-in with it
      and `isGoogleSignIn = true`. */
  method GoogleFallbackClient(userAgent: string, now: nat, digits: string)
    requires ValidatePhone(digits)
  {
    NormalizeKeepsValidPhone(digits);
    var form := new SignInForm(None);
    form.GoogleSignIn(None, [], None, false, userAgent, now);
    assert form.signInMethod == Google && form.email == FabricatedEmail(userAgent, now);
    form.OnPhoneChange(digits);
    form.GooglePhoneSubmit();
    assert form.completions == [Completion(FabricatedEmail(userAgent, now), digits, true)];
  }
}
