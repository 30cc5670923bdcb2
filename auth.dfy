/** The rules of the login and registration pages (auth.js): the
    password-visibility toggle, the login handler's check and the register
    handler's sequence of early returns. These run beside, and are weaker
    than, the validators of form-validation.js. */
module Auth {
  import opened Text
  import opened Patterns
  import opened Validators

  // ---------------------------------------------------------------------
  // Password visibility toggle
  // ---------------------------------------------------------------------

  const PasswordType: string := "password"
  const TextType: string := "text"
  const EyeIcon: string := "fa-eye"
  const EyeSlashIcon: string := "fa-eye-slash"

  /** What one toggle shows: the `type` attribute of the password input and
      the class list of the icon inside the toggle button. */
  datatype ToggleView = ToggleView(inputType: string, iconClasses: set<string>)

  /** The click handler of `togglePasswordVisibility`: a password input
      becomes a text input with the crossed-out eye; anything else becomes a
      password input with the open eye. */
  function Clicked(v: ToggleView): (w: ToggleView)
    ensures v.inputType == PasswordType ==> w.inputType == TextType
    ensures v.inputType != PasswordType ==> w.inputType == PasswordType
    ensures w.inputType == TextType ==> EyeSlashIcon in w.iconClasses && EyeIcon !in w.iconClasses
    ensures w.inputType == PasswordType ==> EyeIcon in w.iconClasses && EyeSlashIcon !in w.iconClasses
    ensures forall c :: c != EyeIcon && c != EyeSlashIcon ==> (c in w.iconClasses <==> c in v.iconClasses)
  {
    if v.inputType == PasswordType then
      ToggleView(TextType, v.iconClasses - {EyeIcon} + {EyeSlashIcon})
    else
      ToggleView(PasswordType, v.iconClasses - {EyeSlashIcon} + {EyeIcon})
  }

  /** The icon agrees with the input: an open eye on a hidden password, a
      crossed-out eye on visible text, never both. */
  predicate InSync(v: ToggleView)
  {
    (v.inputType == PasswordType && EyeIcon in v.iconClasses && EyeSlashIcon !in v.iconClasses) ||
    (v.inputType == TextType && EyeSlashIcon in v.iconClasses && EyeIcon !in v.iconClasses)
  }

  /** After any click the icon agrees with the input, whatever the state
      before. */
  lemma ClickSyncs(v: ToggleView)
    ensures InSync(Clicked(v))
  {
  }

  /** Two clicks give back the state they started from exactly when that
      state was in sync. */
  lemma TwoClicksRestoreIff(v: ToggleView)
    ensures Clicked(Clicked(v)) == v <==> InSync(v)
  {
    if InSync(v) {
      assert Clicked(Clicked(v)).iconClasses == v.iconClasses;
    }
    if Clicked(Clicked(v)) == v {
      assert InSync(Clicked(Clicked(v))) by { ClickSyncs(Clicked(v)); }
    }
  }

  /** One toggle button and the input it controls. */
  class PasswordToggle {
    var inputType: string
    var iconClasses: set<string>

    function View(): ToggleView
      reads this
    {
      ToggleView(inputType, iconClasses)
    }

    /** A page as served: a password input with the open eye. */
    constructor ()
      ensures View() == ToggleView(PasswordType, {EyeIcon}) && InSync(View())
    {
      inputType := PasswordType;
      iconClasses := {EyeIcon};
    }

    /** One click on the toggle button. */
    method Click()
      modifies this
      ensures View() == Clicked(old(View()))
      ensures InSync(View())
    {
      if inputType == PasswordType {
        inputType := TextType;
        iconClasses := iconClasses - {EyeIcon};
        iconClasses := iconClasses + {EyeSlashIcon};
      } else {
        inputType := PasswordType;
        iconClasses := iconClasses - {EyeSlashIcon};
        iconClasses := iconClasses + {EyeIcon};
      }
      ClickSyncs(old(View()));
    }
  }

  // ---------------------------------------------------------------------
  // Login
  // ---------------------------------------------------------------------

  /** The login handler's test: both values are truthy, that is, non-empty.
      No format is checked. */
  predicate LoginAllowed(email: string, password: string)
  {
    email != [] && password != []
  }

  /** Whatever the login validators of form-validation.js accept, this
      handler lets through too. */
  lemma FormLoginImpliesLogin(email: string, password: string)
    requires LoginAccepts(email, password)
    ensures LoginAllowed(email, password)
  {
  }

  /** A one-letter "email" passes this handler although the email validator
      rejects it. */
  lemma LoginWithoutFormat()
    ensures LoginAllowed("a", "b")
    ensures ValidateEmail("a") == Rejected(BadEmail)
  {
    TrimFixedPoint("a");
  }

  // ---------------------------------------------------------------------
  // Registration
  // ---------------------------------------------------------------------

  /** The values the register handler reads. */
  datatype Registration = Registration(
    firstName: string,
    lastName: string,
    email: string,
    phone: string,
    password: string,
    confirmPassword: string,
    agreeTerms: bool)

  /** The branch the register handler ends in. */
  datatype RegisterOutcome =
    | Registered
    | PasswordsDiffer
    | PasswordTooShort
    | TermsNotAccepted
    | InvalidEmail
    | MissingFields

  /** The register handler: five checks in a fixed order, the first that
      fails ends the handler with its alert. */
  function Register(r: Registration): RegisterOutcome
  {
    if r.password != r.confirmPassword then PasswordsDiffer
    else if |r.password| < 8 then PasswordTooShort
    else if !r.agreeTerms then TermsNotAccepted
    else if !MatchesEmail(r.email) then InvalidEmail
    else if r.firstName != [] && r.lastName != [] && r.email != [] && r.phone != [] && r.password != [] then
      Registered
    else MissingFields
  }

  /** The alert each branch raises. */
  function AlertText(o: RegisterOutcome): string
  {
    match o
    case Registered => "Registration successful! Please check your email to verify your account."
    case PasswordsDiffer => "Passwords do not match!"
    case PasswordTooShort => "Password must be at least 8 characters long."
    case TermsNotAccepted => "Please agree to Terms & Conditions."
    case InvalidEmail => "Please enter a valid email address."
    case MissingFields => "Please fill in all required fields."
  }

  /** Each outcome happens exactly when every check before it passed and
      its own check failed. */
  lemma RegisterFirstFailure(r: Registration)
    ensures Register(r) == PasswordsDiffer <==> r.password != r.confirmPassword
    ensures Register(r) == PasswordTooShort <==> r.password == r.confirmPassword && |r.password| < 8
    ensures Register(r) == TermsNotAccepted <==>
              r.password == r.confirmPassword && |r.password| >= 8 && !r.agreeTerms
    ensures Register(r) == InvalidEmail <==>
              r.password == r.confirmPassword && |r.password| >= 8 && r.agreeTerms && !MatchesEmail(r.email)
  {
  }

  /** Registration goes through exactly when the passwords agree, are at
      least eight characters long, the terms are accepted, the email matches
      the pattern, and the names and the phone are filled in. */
  lemma RegisteredIff(r: Registration)
    ensures Register(r) == Registered <==>
              r.password == r.confirmPassword && |r.password| >= 8 && r.agreeTerms &&
              MatchesEmail(r.email) && r.firstName != [] && r.lastName != [] && r.phone != []
  {
    if MatchesEmail(r.email) {
      var _ := EmailSplit(r.email);
    }
  }

  /** The last alert can only be about a name or the phone: the password
      and the email cannot be empty once the checks before it passed. */
  lemma MissingFieldsMeansNameOrPhone(r: Registration)
    requires Register(r) == MissingFields
    ensures r.firstName == [] || r.lastName == [] || r.phone == []
    ensures r.password != [] && r.email != []
  {
    var _ := EmailSplit(r.email);
  }

  /** Equality is tested before length: a short, mismatched pair reports
      the mismatch. */
  lemma MismatchBeforeLength(r: Registration)
    requires r.password == "abc" && r.confirmPassword == "abd"
    ensures Register(r) == PasswordsDiffer
  {
    assert r.password[2] != r.confirmPassword[2];
  }

  /** Whatever the register validators of form-validation.js accept, this
      handler registers too. */
  lemma FormRegisterImpliesRegister(r: Registration)
    requires RegisterAccepts(r.firstName, r.lastName, r.email, r.phone,
                             r.password, r.confirmPassword, r.agreeTerms)
    ensures Register(r) == Registered
  {
    RegisterAcceptsIff(r.firstName, r.lastName, r.email, r.phone,
                       r.password, r.confirmPassword, r.agreeTerms);
    RegisteredIff(r);
  }

  /** The converse fails: this handler checks no password strength, so a
      registration it accepts still goes through with eight or more
      lower-case letters (such as "abcdefgh") as the password, which the
      password validator rejects for lacking an upper-case letter. */
  lemma RegisterSkipsStrength(r: Registration, weak: string)
    requires Register(r) == Registered
    requires |weak| >= 8 && forall k :: 0 <= k < |weak| ==> IsLower(weak[k])
    ensures Register(r.(password := weak, confirmPassword := weak)) == Registered
    ensures ValidatePassword(weak, false, "") == Rejected(NoUppercase)
  {
    RegisteredIff(r);
    RegisteredIff(r.(password := weak, confirmPassword := weak));
    LowercasePasswordRejected(weak);
  }
}
