/** The field validators of form-validation.js and the decisions built on
    them: each validator runs an ordered chain of checks over one string and
    the first failing check picks the message; the submit handlers accept a
    form exactly when every validator they run accepts. Rendering the
    verdict on the page lives in module FormDisplay. */
module Validators {
  import opened Optional
  import opened Text
  import opened Patterns

  /** Which check of a chain failed. */
  datatype Reason =
    | Required         // empty or blank
    | EdgeSpaces       // leading or trailing whitespace
    | TooShort
    | BadCharacters    // outside `patterns.name`
    | NoLeadingLetter
    | ContainsSpace    // a U+0020 inside an email
    | BadEmail         // outside `patterns.email`
    | NonDigit
    | WrongLength
    | BadLeadingDigit
    | Mismatch         // confirmation differs from the password
    | NoUppercase
    | NoLowercase
    | NoDigit

  datatype Verdict = Accepted | Rejected(reason: Reason)

  /** The rule set to apply, with what each validator takes besides the
      value: a display name, the password to confirm, a minimum length. */
  datatype Field =
    | Name(fieldName: string)
    | Email
    | Phone
    | Password
    | ConfirmPassword(original: string)
    | Select(fieldName: string)
    | Message(fieldName: string, minLength: nat)

  // ---------------------------------------------------------------------
  // The validators
  // ---------------------------------------------------------------------

  /** `validateName`. The last check (must start with a letter) can never
      fire: the pattern check before it already demands a leading letter. */
  function ValidateName(value: string): Verdict
  {
    var t := Trim(value);
    if t == [] then Rejected(Required)
    else if value != t then Rejected(EdgeSpaces)
    else if |t| < 2 then Rejected(TooShort)
    else if !MatchesName(t) then Rejected(BadCharacters)
    else if !IsLetter(t[0]) then Rejected(NoLeadingLetter)
    else Accepted
  }

  /** `validateEmail`. Only U+0020 counts as a space for the third check. */
  function ValidateEmail(value: string): Verdict
  {
    var t := Trim(value);
    if t == [] then Rejected(Required)
    else if value != t then Rejected(EdgeSpaces)
    else if ' ' in value then Rejected(ContainsSpace)
    else if !MatchesEmail(t) then Rejected(BadEmail)
    else Accepted
  }

  /** `[\s-]` */
  predicate IsPhoneSeparator(c: char)
  {
    IsWhitespace(c) || c == '-'
  }

  /** `value.replace(/[\s-]/g, '')` */
  function PhoneDigits(value: string): string
  {
    Remove(value, IsPhoneSeparator)
  }

  /** `^\d+$` */
  predicate AllDigits(s: string)
  {
    |s| >= 1 && forall k :: 0 <= k < |s| ==> IsDigit(s[k])
  }

  /** `validatePhone`: the checks after the first run on the value with its
      whitespace and hyphens deleted. */
  function ValidatePhone(value: string): Verdict
  {
    var clean := PhoneDigits(value);
    if Trim(value) == [] then Rejected(Required)
    else if !AllDigits(clean) then Rejected(NonDigit)
    else if |clean| != 10 then Rejected(WrongLength)
    else if !('6' <= clean[0] <= '9') then Rejected(BadLeadingDigit)
    else Accepted
  }

  /** `validatePassword(input, isConfirm, originalPassword)`. An empty
      `original` is falsy, so a confirmation against an empty password runs
      the strength rules instead of the comparison. */
  function ValidatePassword(value: string, isConfirm: bool, original: string): Verdict
  {
    if Trim(value) == [] then Rejected(Required)
    else if isConfirm && original != [] then
      (if value != original then Rejected(Mismatch) else Accepted)
    else if |value| < 8 then Rejected(TooShort)
    else if !HasUpper(value) then Rejected(NoUppercase)
    else if !HasLower(value) then Rejected(NoLowercase)
    else if !HasDigit(value) then Rejected(NoDigit)
    else Accepted
  }

  /** `validateSelect`: any non-empty value, blank or not, is a choice. */
  function ValidateSelect(value: string): (r: Verdict)
    ensures r == Accepted <==> value != []
    ensures r.Rejected? ==> r.reason == Required
  {
    if value == [] then Rejected(Required) else Accepted
  }

  /** `validateMessage(input, fieldName, minLength)`. */
  function ValidateMessage(value: string, minLength: nat): Verdict
  {
    var t := Trim(value);
    if t == [] then Rejected(Required)
    else if value != t then Rejected(EdgeSpaces)
    else if |t| < minLength then Rejected(TooShort)
    else Accepted
  }

  /** The messages the name validator can pick: never the missing leading
      letter, since a value that passes the pattern already starts with a
      letter. */
  lemma NameReasons(value: string)
    ensures ValidateName(value).Rejected? ==>
              ValidateName(value).reason in {Required, EdgeSpaces, TooShort, BadCharacters}
  {
    var t := Trim(value);
    if t != [] && value == t && |t| >= 2 && MatchesName(t) {
      assert IsLetter(t[0]);
    }
  }

  /** The messages the email validator can pick. */
  lemma EmailReasons(value: string)
    ensures ValidateEmail(value).Rejected? ==>
              ValidateEmail(value).reason in {Required, EdgeSpaces, ContainsSpace, BadEmail}
  {
    var t := Trim(value);
    if t == [] {
    } else if value != t {
    } else if ' ' in value {
    } else if !MatchesEmail(t) {
    }
  }

  /** The messages the phone validator can pick. */
  lemma PhoneReasons(value: string)
    ensures ValidatePhone(value).Rejected? ==>
              ValidatePhone(value).reason in {Required, NonDigit, WrongLength, BadLeadingDigit}
  {
    var clean := PhoneDigits(value);
    if Trim(value) == [] {
    } else if !AllDigits(clean) {
    } else if |clean| != 10 {
    }
  }

  /** The messages the password validator can pick: a confirmation against
      a non-empty password is only ever "required" or "do not match", and
      every other check never reports a mismatch. */
  lemma PasswordReasons(value: string, isConfirm: bool, original: string)
    ensures ValidatePassword(value, isConfirm, original).Rejected? ==>
              ValidatePassword(value, isConfirm, original).reason in
                {Required, Mismatch, TooShort, NoUppercase, NoLowercase, NoDigit}
    ensures isConfirm && original != [] && ValidatePassword(value, isConfirm, original).Rejected? ==>
              ValidatePassword(value, isConfirm, original).reason in {Required, Mismatch}
    ensures !(isConfirm && original != []) ==> ValidatePassword(value, isConfirm, original) != Rejected(Mismatch)
  {
    if Trim(value) == [] {
    } else if isConfirm && original != [] {
    } else if |value| < 8 {
    } else if !HasUpper(value) {
    } else if !HasLower(value) {
    }
  }

  /** The messages the message validator can pick. */
  lemma MessageReasons(value: string, minLength: nat)
    ensures ValidateMessage(value, minLength).Rejected? ==>
              ValidateMessage(value, minLength).reason in {Required, EdgeSpaces, TooShort}
  {
    var v := ValidateMessage(value, minLength);
    assert v == Accepted || v == Rejected(Required) || v == Rejected(EdgeSpaces) || v == Rejected(TooShort);
  }

  /** One entry point per rule set. */
  function Validate(field: Field, value: string): Verdict
  {
    match field
    case Name(_) => ValidateName(value)
    case Email => ValidateEmail(value)
    case Phone => ValidatePhone(value)
    case Password => ValidatePassword(value, false, "")
    case ConfirmPassword(original) => ValidatePassword(value, true, original)
    case Select(_) => ValidateSelect(value)
    case Message(_, minLength) => ValidateMessage(value, minLength)
  }

  /** The text `showError` displays for a rejection. */
  function ErrorText(field: Field, reason: Reason): string
  {
    match field
    case Name(fieldName) =>
      (match reason
       case Required => fieldName + " is required"
       case EdgeSpaces => fieldName + " cannot start or end with spaces"
       case TooShort => fieldName + " must be at least 2 characters"
       case BadCharacters => fieldName + " can only contain letters, spaces, hyphens, and apostrophes"
       case _ => fieldName + " must start with a letter")
    case Email =>
      (match reason
       case Required => "Email address is required"
       case EdgeSpaces => "Email cannot start or end with spaces"
       case ContainsSpace => "Email cannot contain spaces"
       case _ => "Please enter a valid email address")
    case Phone =>
      (match reason
       case Required => "Phone number is required"
       case NonDigit => "Phone number can only contain digits"
       case WrongLength => "Phone number must be exactly 10 digits"
       case _ => "Phone number must start with 6, 7, 8, or 9")
    case Password => PasswordErrorText(reason)
    case ConfirmPassword(_) => PasswordErrorText(reason)
    case Select(fieldName) => "Please select a " + fieldName
    case Message(fieldName, minLength) =>
      (match reason
       case Required => fieldName + " is required"
       case EdgeSpaces => fieldName + " cannot start or end with spaces"
       case _ => fieldName + " must be at least " + Decimal(minLength) + " characters")
  }

  function PasswordErrorText(reason: Reason): string
  {
    match reason
    case Required => "Password is required"
    case Mismatch => "Passwords do not match"
    case TooShort => "Password must be at least 8 characters long"
    case NoUppercase => "Password must contain at least one uppercase letter"
    case NoLowercase => "Password must contain at least one lowercase letter"
    case _ => "Password must contain at least one number"
  }

  // ---------------------------------------------------------------------
  // What each validator accepts, stated without the chain
  // ---------------------------------------------------------------------

  /** A name the name validator accepts: no whitespace at either end, at
      least two characters, and the name pattern. */
  predicate WellFormedName(v: string)
  {
    !Blank(v) && Trim(v) == v && |v| >= 2 && MatchesName(v)
  }

  /** The strength rules of the password validator. */
  predicate StrongPassword(v: string)
  {
    |v| >= 8 && HasUpper(v) && HasLower(v) && HasDigit(v)
  }

  lemma NameAcceptedIff(value: string)
    ensures ValidateName(value) == Accepted <==> WellFormedName(value)
  {
  }

  /** An accepted name begins with an ASCII letter and ends with a letter,
      an apostrophe or a hyphen. */
  lemma AcceptedNameEnds(value: string)
    requires ValidateName(value) == Accepted
    ensures IsLetter(value[0])
    ensures var c := value[|value| - 1]; IsLetter(c) || c == '\'' || c == '-'
  {
    TrimFixedPoint(value);
  }

  /** An email is accepted exactly when it matches `patterns.email`: a
      match has no whitespace at all, so the blank, edge-space and
      space checks before the pattern only choose the message. */
  lemma EmailAcceptedIff(value: string)
    ensures ValidateEmail(value) == Accepted <==> MatchesEmail(value)
  {
    if MatchesEmail(value) {
      EmailClean(value);
      TrimWithoutWhitespace(value);
    }
  }

  /** An accepted email has no whitespace, exactly one '@', and after it a
      dot with allowed characters on both sides. */
  lemma AcceptedEmailShape(value: string) returns (at: nat, dot: nat)
    requires ValidateEmail(value) == Accepted
    ensures !HasWhitespace(value) && multiset(value)['@'] == 1
    ensures 0 < at && at + 1 < dot < |value| - 1 && value[at] == '@' && value[dot] == '.'
    ensures EmailChars(value[..at]) && EmailChars(value[at + 1..dot]) && EmailChars(value[dot + 1..])
  {
    EmailAcceptedIff(value);
    EmailClean(value);
    at, dot := EmailShape(value);
  }

  /** A trimmed, non-blank value holding a space is reported as containing
      a space before the format check runs; the format check would have
      rejected it too. */
  lemma EmailSpaceReportedFirst(value: string)
    requires !Blank(value) && Trim(value) == value && ' ' in value
    ensures ValidateEmail(value) == Rejected(ContainsSpace)
    ensures !MatchesEmail(value)
  {
    var k :| 0 <= k < |value| && value[k] == ' ';
    if MatchesEmail(value) {
      EmailClean(value);
      assert IsWhitespace(value[k]);
      assert false;
    }
  }

  /** A phone number is accepted exactly when, with whitespace and hyphens
      deleted, it matches `patterns.phone`. */
  lemma PhoneAcceptedIff(value: string)
    ensures ValidatePhone(value) == Accepted <==> MatchesPhone(PhoneDigits(value))
  {
    if MatchesPhone(PhoneDigits(value)) && Trim(value) == [] {
      RemoveEverything(value, IsPhoneSeparator);
      assert false;
    }
  }

  /** A password that is not checked as a confirmation against a non-empty
      password is accepted exactly when it passes the strength rules. */
  lemma PasswordAcceptedIff(value: string, isConfirm: bool, original: string)
    requires !(isConfirm && original != [])
    ensures ValidatePassword(value, isConfirm, original) == Accepted <==> StrongPassword(value)
  {
    if StrongPassword(value) {
      var k :| 0 <= k < |value| && IsUpper(value[k]);
      assert !IsWhitespace(value[k]);
    }
  }

  /** A confirmation against a non-empty password is accepted exactly when
      it equals that password (which must not be blank: a blank value is
      "required" first); the strength rules are not applied. */
  lemma ConfirmAcceptedIff(value: string, original: string)
    requires original != []
    ensures ValidatePassword(value, true, original) == Accepted <==> value == original && !Blank(original)
  {
  }

  /** A confirmation against an empty password falls through to the
      strength rules. */
  lemma ConfirmEmptyOriginal(value: string)
    ensures ValidatePassword(value, true, "") == ValidatePassword(value, false, "")
  {
  }

  /** Everything `patterns.password` matches the validator accepts; the
      pattern is never applied, and the validator is looser: it lets a line
      terminator through. */
  lemma PasswordPatternStricter(value: string)
    requires MatchesPassword(value)
    ensures ValidatePassword(value, false, "") == Accepted
    ensures ValidatePassword("Abcdefg1\n", false, "") == Accepted
    ensures !MatchesPassword("Abcdefg1\n")
  {
    PasswordAcceptedIff(value, false, "");
    var w := "Abcdefg1\n";
    assert IsUpper(w[0]) && IsLower(w[1]) && IsDigit(w[7]);
    assert IsLineTerminator(w[8]);
    PasswordAcceptedIff(w, false, "");
  }

  /** A message is accepted exactly when it is non-blank, has no whitespace
      at either end and is at least `minLength` long. */
  lemma MessageAcceptedIff(value: string, minLength: nat)
    ensures ValidateMessage(value, minLength) == Accepted <==>
              !Blank(value) && Trim(value) == value && |value| >= minLength
  {
  }

  /** Lowering the minimum length never turns an accepted message into a
      rejected one. */
  lemma MessageMinLengthMonotone(value: string, minLength: nat, lower: nat)
    requires lower <= minLength && ValidateMessage(value, minLength) == Accepted
    ensures ValidateMessage(value, lower) == Accepted
  {
  }

  // ---------------------------------------------------------------------
  // The phone input filter
  // ---------------------------------------------------------------------

  /** The `input` handler of `setupPhoneValidation`: delete every non-digit
      and keep at most the first ten digits. */
  function PhoneInputFilter(value: string): (r: string)
    ensures |r| <= 10
    ensures forall k :: 0 <= k < |r| ==> IsDigit(r[k])
    ensures r <= Remove(value, IsNonDigit)
    ensures |r| == if |Remove(value, IsNonDigit)| < 10 then |Remove(value, IsNonDigit)| else 10
  {
    var digits := Remove(value, IsNonDigit);
    if |digits| > 10 then digits[..10] else digits
  }

  /** Filtering an already filtered value changes nothing. */
  lemma PhoneInputFilterIdempotent(value: string)
    ensures PhoneInputFilter(PhoneInputFilter(value)) == PhoneInputFilter(value)
  {
    var r := PhoneInputFilter(value);
    RemoveNothing(r, IsNonDigit);
  }

  /** A filtered value is never rejected for a non-digit, and it is
      accepted exactly when it matches `patterns.phone` as it stands. */
  lemma FilteredPhoneVerdict(value: string)
    ensures ValidatePhone(PhoneInputFilter(value)) != Rejected(NonDigit)
    ensures ValidatePhone(PhoneInputFilter(value)) == Accepted <==> MatchesPhone(PhoneInputFilter(value))
  {
    var r := PhoneInputFilter(value);
    NoSeparatorInDigits(r);
    PhoneAcceptedIff(r);
    assert PhoneDigits(r) == r;
  }

  /** A string of digits has no separator to delete. */
  lemma NoSeparatorInDigits(s: string)
    requires forall k :: 0 <= k < |s| ==> IsDigit(s[k])
    ensures PhoneDigits(s) == s
  {
    RemoveNothing(s, IsPhoneSeparator);
  }

  // ---------------------------------------------------------------------
  // Which rule set a field gets on blur
  // ---------------------------------------------------------------------

  const HandledIds: set<string> :=
    {"firstName", "lastName", "name", "email", "regEmail", "phone",
     "password", "regPassword", "confirmPassword", "subject", "message"}

  /** The `blur` handler of `addRealTimeValidation`: the rule set for an
      element id, with the current value of `regPassword` for the
      confirmation; any other id is not validated. */
  function FieldForId(id: string, regPassword: string): (r: Option<Field>)
    ensures r.None? <==> id !in HandledIds
    ensures r.Some? && r.value.ConfirmPassword? <==> id == "confirmPassword"
    ensures r.Some? && r.value.ConfirmPassword? ==> r.value.original == regPassword
  {
    if id == "firstName" then Some(Name("First name"))
    else if id == "lastName" then Some(Name("Last name"))
    else if id == "name" then Some(Name("Full name"))
    else if id == "email" || id == "regEmail" then Some(Email)
    else if id == "phone" then Some(Phone)
    else if id == "password" then Some(Password)
    else if id == "regPassword" then Some(Password)
    else if id == "confirmPassword" then Some(ConfirmPassword(regPassword))
    else if id == "subject" then Some(Select("subject"))
    else if id == "message" then Some(Message("Message", 10))
    else None
  }

  // ---------------------------------------------------------------------
  // The submit decisions
  // ---------------------------------------------------------------------

  /** The login form's submit accepts when the email and the password
      validators both accept. */
  predicate LoginAccepts(email: string, password: string)
  {
    ValidateEmail(email) == Accepted && ValidatePassword(password, false, "") == Accepted
  }

  /** The register form's submit: six validators, the confirmation checked
      against the password field's value, and the terms box. */
  predicate RegisterAccepts(firstName: string, lastName: string, email: string, phone: string,
                            password: string, confirmPassword: string, terms: bool)
  {
    ValidateName(firstName) == Accepted && ValidateName(lastName) == Accepted &&
    ValidateEmail(email) == Accepted && ValidatePhone(phone) == Accepted &&
    ValidatePassword(password, false, "") == Accepted &&
    ValidatePassword(confirmPassword, true, password) == Accepted && terms
  }

  /** The contact form's submit: five validators, the message at least ten
      characters long. */
  predicate ContactAccepts(name: string, email: string, phone: string, subject: string, message: string)
  {
    ValidateName(name) == Accepted && ValidateEmail(email) == Accepted &&
    ValidatePhone(phone) == Accepted && ValidateSelect(subject) == Accepted &&
    ValidateMessage(message, 10) == Accepted
  }

  lemma LoginAcceptsIff(email: string, password: string)
    ensures LoginAccepts(email, password) <==> MatchesEmail(email) && StrongPassword(password)
  {
    EmailAcceptedIff(email);
    PasswordAcceptedIff(password, false, "");
  }

  /** Registration is accepted exactly when both names are well formed, the
      email and the cleaned phone match their patterns, the password is
      strong, the confirmation equals it, and the terms are accepted. */
  lemma RegisterAcceptsIff(firstName: string, lastName: string, email: string, phone: string,
                           password: string, confirmPassword: string, terms: bool)
    ensures RegisterAccepts(firstName, lastName, email, phone, password, confirmPassword, terms) <==>
              WellFormedName(firstName) && WellFormedName(lastName) && MatchesEmail(email) &&
              MatchesPhone(PhoneDigits(phone)) && StrongPassword(password) &&
              confirmPassword == password && terms
  {
    NameAcceptedIff(firstName);
    NameAcceptedIff(lastName);
    EmailAcceptedIff(email);
    PhoneAcceptedIff(phone);
    PasswordAcceptedIff(password, false, "");
    if StrongPassword(password) {
      ConfirmStrong(confirmPassword, password);
    }
  }

  /** Against a strong password, a confirmation is accepted exactly when it
      is equal to it. */
  lemma ConfirmStrong(value: string, password: string)
    requires StrongPassword(password)
    ensures ValidatePassword(value, true, password) == Accepted <==> value == password
  {
    var k :| 0 <= k < |password| && IsUpper(password[k]);
    assert !IsWhitespace(password[k]);
  }

  lemma ContactAcceptsIff(name: string, email: string, phone: string, subject: string, message: string)
    ensures ContactAccepts(name, email, phone, subject, message) <==>
              WellFormedName(name) && MatchesEmail(email) && MatchesPhone(PhoneDigits(phone)) &&
              subject != [] && !Blank(message) && Trim(message) == message && |message| >= 10
  {
    NameAcceptedIff(name);
    EmailAcceptedIff(email);
    PhoneAcceptedIff(phone);
    MessageAcceptedIff(message, 10);
  }

  /** A digit inside a name is reported as a bad character. */
  lemma NameWithDigit()
    ensures ValidateName("Bob2") == Rejected(BadCharacters)
  {
    var s := "Bob2";
    assert !IsWhitespace(s[0]) && !IsWhitespace(s[3]) && !IsNameChar(s[3]);
    TrimFixedPoint(s);
  }

  /** Eight or more lower-case letters (such as "abcdefgh") are long
      enough but lack an upper-case letter. */
  lemma LowercasePasswordRejected(value: string)
    requires |value| >= 8 && forall k :: 0 <= k < |value| ==> IsLower(value[k])
    ensures ValidatePassword(value, false, "") == Rejected(NoUppercase)
  {
    assert !IsWhitespace(value[0]);
    assert !HasUpper(value) by {
      forall k | 0 <= k < |value| ensures !IsUpper(value[k]) {
        assert IsLower(value[k]);
      }
    }
  }

  /** The shortest shape of a strong password. */
  lemma PasswordStrongExample()
    ensures ValidatePassword("Abcdefg1", false, "") == Accepted
  {
    var s := "Abcdefg1";
    assert IsUpper(s[0]) && IsLower(s[1]) && IsDigit(s[7]);
    PasswordAcceptedIff(s, false, "");
  }

}
