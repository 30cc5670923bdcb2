/** What form-validation.js does to the page: `showError`, `showSuccess`
    and `clearErrors` on the controls of one form, the `blur` and `input`
    handlers that `addRealTimeValidation` installs, the phone `input`
    handler, and the three submit handlers. Each control's display is the
    pair of classes `is-invalid`/`is-valid` and the text of the
    `.error-message` node shown for it, if any. */
module FormDisplay {
  import opened Optional
  import opened Text
  import opened Validators

  /** An error message on display, recorded as the rule set and the failed
      check that produced it; the words on the page are its `Text()`. */
  datatype Notice = Notice(field: Field, reason: Reason)
  {
    function Text(): string
    {
      ErrorText(field, reason)
    }
  }

  /** One `input`, `textarea` or `select`: its id, its current value, the
      value `reset()` restores, and its display. */
  datatype Control = Control(
    id: string,
    value: string,
    defaultValue: string,
    invalid: bool,
    valid: bool,
    error: Option<Notice>)

  /** The display a control has between handlers: never both classes, and
      an error text exactly when it is marked invalid. */
  predicate Consistent(c: Control)
  {
    !(c.invalid && c.valid) && (c.error.Some? <==> c.invalid)
  }

  /** The display after `showError(input, message)`. */
  function Errored(c: Control, message: Notice): (d: Control)
    ensures Consistent(d) && d.error == Some(message)
    ensures d.id == c.id && d.value == c.value && d.defaultValue == c.defaultValue
  {
    c.(invalid := true, valid := false, error := Some(message))
  }

  /** The display after `showSuccess(input)`. */
  function Succeeded(c: Control): (d: Control)
    ensures Consistent(d) && d.valid
    ensures d.id == c.id && d.value == c.value && d.defaultValue == c.defaultValue
  {
    c.(invalid := false, valid := true, error := None)
  }

  /** The display after `clearErrors`: neither class, no error text. */
  function Cleared(c: Control): (d: Control)
    ensures Consistent(d) && !d.invalid && !d.valid
    ensures d.id == c.id && d.value == c.value && d.defaultValue == c.defaultValue
  {
    c.(invalid := false, valid := false, error := None)
  }

  /** The display after the validator for `field` ran on the control's
      value. */
  function Checked(c: Control, field: Field): (d: Control)
    ensures Consistent(d)
    ensures d.id == c.id && d.value == c.value && d.defaultValue == c.defaultValue
  {
    match Validate(field, c.value)
    case Accepted => Succeeded(c)
    case Rejected(reason) => Errored(c, Notice(field, reason))
  }

  /** A checked control is marked valid exactly when the validator accepts
      its value, and otherwise is marked invalid and shows the message of
      the first failing check. */
  lemma CheckedShowsVerdict(c: Control, field: Field)
    ensures Checked(c, field).valid <==> Validate(field, c.value) == Accepted
    ensures Checked(c, field).invalid <==> Validate(field, c.value).Rejected?
    ensures Validate(field, c.value).Rejected? ==>
              Checked(c, field).error.Some? &&
              Checked(c, field).error.value.Text() == ErrorText(field, Validate(field, c.value).reason)
  {
  }

  /** Checking a field twice shows the same thing as checking it once: the
      display depends on the value alone. */
  lemma CheckedIdempotent(c: Control, field: Field)
    ensures Checked(Checked(c, field), field) == Checked(c, field)
  {
  }


  /** What a checked control's `is-valid` class says, rule set by rule
      set: exactly that the validator for its field accepted its value. */
  lemma CheckedValid(c: Control, field: Field)
    ensures field.Name? ==> (Checked(c, field).valid <==> ValidateName(c.value) == Accepted)
    ensures field.Email? ==> (Checked(c, field).valid <==> ValidateEmail(c.value) == Accepted)
    ensures field.Phone? ==> (Checked(c, field).valid <==> ValidatePhone(c.value) == Accepted)
    ensures field.Password? ==> (Checked(c, field).valid <==> ValidatePassword(c.value, false, "") == Accepted)
    ensures field.ConfirmPassword? ==>
              (Checked(c, field).valid <==> ValidatePassword(c.value, true, field.original) == Accepted)
    ensures field.Select? ==> (Checked(c, field).valid <==> ValidateSelect(c.value) == Accepted)
    ensures field.Message? ==>
              (Checked(c, field).valid <==> ValidateMessage(c.value, field.minLength) == Accepted)
  {
    CheckedShowsVerdict(c, field);
  }

  /** The login handler's decision, read off the displays its validators
      leave behind. */
  lemma LoginVerdicts(email: Control, password: Control)
    ensures (Checked(email, Email).valid && Checked(password, Password).valid) <==>
            LoginAccepts(email.value, password.value)
  {
    CheckedValid(email, Email);
    CheckedValid(password, Password);
  }

  /** The register handler's decision, read off the displays its
      validators leave behind. */
  lemma RegisterVerdicts(firstName: Control, lastName: Control, email: Control, phone: Control,
                         password: Control, confirm: Control, terms: bool)
    ensures (Checked(firstName, Name("First name")).valid && Checked(lastName, Name("Last name")).valid &&
             Checked(email, Email).valid && Checked(phone, Phone).valid &&
             Checked(password, Password).valid &&
             Checked(confirm, ConfirmPassword(password.value)).valid && terms) <==>
            RegisterAccepts(firstName.value, lastName.value, email.value, phone.value,
                            password.value, confirm.value, terms)
  {
    CheckedValid(firstName, Name("First name"));
    CheckedValid(lastName, Name("Last name"));
    CheckedValid(email, Email);
    CheckedValid(phone, Phone);
    CheckedValid(password, Password);
    CheckedValid(confirm, ConfirmPassword(password.value));
  }

  /** The contact handler's decision, read off the displays its
      validators leave behind. */
  lemma ContactVerdicts(name: Control, email: Control, phone: Control, subject: Control, message: Control)
    ensures (Checked(name, Name("Full name")).valid && Checked(email, Email).valid &&
             Checked(phone, Phone).valid && Checked(subject, Select("subject")).valid &&
             Checked(message, Message("Message", 10)).valid) <==>
            ContactAccepts(name.value, email.value, phone.value, subject.value, message.value)
  {
    CheckedValid(name, Name("Full name"));
    CheckedValid(email, Email);
    CheckedValid(phone, Phone);
    CheckedValid(subject, Select("subject"));
    CheckedValid(message, Message("Message", 10));
  }

  class Form {
    /** The form's controls in document order. */
    var controls: seq<Control>

    ghost predicate Valid()
      reads this
    {
      forall k :: 0 <= k < |controls| ==> Consistent(controls[k])
    }

    /** A freshly loaded form: every control holds its default value and
        shows nothing. */
    constructor (ids: seq<string>, defaults: seq<string>)
      requires |ids| == |defaults|
      ensures Valid() && |controls| == |ids|
      ensures forall k :: 0 <= k < |ids| ==>
                controls[k] == Control(ids[k], defaults[k], defaults[k], false, false, None)
    {
      controls := seq(|ids|, k requires 0 <= k < |ids| =>
                        Control(ids[k], defaults[k], defaults[k], false, false, None));
    }

    /** `showError`: marks control `i` invalid and shows `message` for it,
        replacing any message it had. */
    method ShowError(i: nat, message: Notice)
      requires Valid() && i < |controls|
      modifies this
      ensures Valid()
      ensures controls == old(controls)[i := Errored(old(controls)[i], message)]
    {
      controls := controls[i := Errored(controls[i], message)];
    }

    /** `showSuccess`: marks control `i` valid and removes its message. */
    method ShowSuccess(i: nat)
      requires Valid() && i < |controls|
      modifies this
      ensures Valid()
      ensures controls == old(controls)[i := Succeeded(old(controls)[i])]
    {
      controls := controls[i := Succeeded(controls[i])];
    }

    /** `clearErrors`: first removes every error message, then both classes
        from every control. */
    method ClearErrors()
      modifies this
      ensures Valid()
      ensures |controls| == |old(controls)|
      ensures forall k :: 0 <= k < |controls| ==> controls[k] == Cleared(old(controls)[k])
    {
      var k := 0;
      while k < |controls|
        invariant k <= |controls| == |old(controls)|
        invariant forall j :: 0 <= j < k ==> controls[j] == old(controls)[j].(error := None)
        invariant forall j :: k <= j < |controls| ==> controls[j] == old(controls)[j]
      {
        controls := controls[k := controls[k].(error := None)];
        k := k + 1;
      }
      k := 0;
      while k < |controls|
        invariant k <= |controls| == |old(controls)|
        invariant forall j :: 0 <= j < k ==> controls[j] == Cleared(old(controls)[j])
        invariant forall j :: k <= j < |controls| ==> controls[j] == old(controls)[j].(error := None)
      {
        controls := controls[k := controls[k].(invalid := false, valid := false)];
        k := k + 1;
      }
    }

    /** `reset()`: every control gets its default value back; the display
        is left as it is. */
    method Reset()
      requires Valid()
      modifies this
      ensures Valid()
      ensures |controls| == |old(controls)|
      ensures forall k :: 0 <= k < |controls| ==>
                controls[k] == old(controls)[k].(value := old(controls)[k].defaultValue)
    {
      var k := 0;
      while k < |controls|
        invariant k <= |controls| == |old(controls)|
        invariant forall j :: 0 <= j < k ==> controls[j] == old(controls)[j].(value := old(controls)[j].defaultValue)
        invariant forall j :: k <= j < |controls| ==> controls[j] == old(controls)[j]
      {
        controls := controls[k := controls[k].(value := controls[k].defaultValue)];
        k := k + 1;
      }
    }

    /** A `validate*` call on control `i`: runs the rule set for `field` on
        its value, shows the verdict, and returns whether it accepted. */
    method Check(i: nat, field: Field) returns (ok: bool)
      requires Valid() && i < |controls|
      modifies this
      ensures Valid()
      ensures |controls| == |old(controls)| && controls[i] == Checked(old(controls)[i], field)
      ensures ok == controls[i].valid
      ensures forall k :: 0 <= k < |controls| && k != i ==> controls[k] == old(controls)[k]
      ensures forall k :: 0 <= k < |controls| ==>
                controls[k].id == old(controls)[k].id && controls[k].value == old(controls)[k].value &&
                controls[k].defaultValue == old(controls)[k].defaultValue
    {
      var verdict := Validate(field, controls[i].value);
      if verdict == Accepted {
        ShowSuccess(i);
      } else {
        ShowError(i, Notice(field, verdict.reason));
      }
      assert controls == old(controls)[i := Checked(old(controls)[i], field)];
      ok := controls[i].valid;
    }

    /** The `blur` handler: validates control `i` by the rule set its id
        selects (the confirmation against `regPassword`, the current value
        of the register password field); other ids are left alone. */
    method Blur(i: nat, regPassword: string)
      requires Valid() && i < |controls|
      modifies this
      ensures Valid()
      ensures match FieldForId(old(controls)[i].id, regPassword)
              case None => controls == old(controls)
              case Some(field) => controls == old(controls)[i := Checked(old(controls)[i], field)]
    {
      var field := FieldForId(controls[i].id, regPassword);
      if field.Some? {
        var _ := Check(i, field.value);
        assert controls == old(controls)[i := Checked(old(controls)[i], field.value)];
      }
    }

    /** The `input` handler of `addRealTimeValidation`: typing into an
        invalid control removes its message and its `is-invalid` class. */
    method Input(i: nat)
      requires Valid() && i < |controls|
      modifies this
      ensures Valid()
      ensures old(controls)[i].invalid ==> controls == old(controls)[i := Cleared(old(controls)[i])]
      ensures !old(controls)[i].invalid ==> controls == old(controls)
    {
      if controls[i].invalid {
        controls := controls[i := controls[i].(error := None, invalid := false)];
      }
    }

    /** The `input` handler of `setupPhoneValidation`: the phone control
        keeps only its first ten digits. */
    method PhoneInput(i: nat)
      requires Valid() && i < |controls|
      modifies this
      ensures Valid()
      ensures controls == old(controls)[i := old(controls)[i].(value := PhoneInputFilter(old(controls)[i].value))]
    {
      controls := controls[i := controls[i].(value := PhoneInputFilter(controls[i].value))];
    }

    /** The login form's `submit` handler. `email` and `password` are the
        positions of the controls with those ids. */
    method SubmitLogin(email: nat, password: nat) returns (ok: bool)
      requires Valid() && email < |controls| && password < |controls|
      requires controls[email].id == "email" && controls[password].id == "password"
      modifies this
      ensures Valid() && |controls| == |old(controls)|
      ensures ok <==> controls[email].valid && controls[password].valid
      ensures ok <==> LoginAccepts(old(controls)[email].value, old(controls)[password].value)
      ensures controls[email] == Checked(Cleared(old(controls)[email]), Email)
      ensures controls[password] == Checked(Cleared(old(controls)[password]), Password)
      ensures forall k :: 0 <= k < |controls| && k != email && k != password ==>
                controls[k] == Cleared(old(controls)[k])
    {
      ClearErrors();
      ghost var cleared := controls;
      var emailOk := Check(email, Email);
      var passwordOk := Check(password, Password);
      ok := emailOk && passwordOk;
      LoginVerdicts(cleared[email], cleared[password]);
    }

    /** The register form's `submit` handler: six validators, the
        confirmation against the password control's value, and the terms
        box (whose state is `terms`). */
    method SubmitRegister(firstName: nat, lastName: nat, email: nat, phone: nat,
                          password: nat, confirm: nat, terms: bool) returns (ok: bool)
      requires Valid()
      requires firstName < |controls| && lastName < |controls| && email < |controls|
      requires phone < |controls| && password < |controls| && confirm < |controls|
      requires controls[firstName].id == "firstName" && controls[lastName].id == "lastName"
      requires controls[email].id == "regEmail" && controls[phone].id == "phone"
      requires controls[password].id == "regPassword" && controls[confirm].id == "confirmPassword"
      modifies this
      ensures Valid() && |controls| == |old(controls)|
      ensures ok <==> controls[firstName].valid && controls[lastName].valid && controls[email].valid &&
                      controls[phone].valid && controls[password].valid && controls[confirm].valid && terms
      ensures ok <==> RegisterAccepts(old(controls)[firstName].value, old(controls)[lastName].value,
                                      old(controls)[email].value, old(controls)[phone].value,
                                      old(controls)[password].value, old(controls)[confirm].value, terms)
      ensures controls[firstName] == Checked(Cleared(old(controls)[firstName]), Name("First name"))
      ensures controls[lastName] == Checked(Cleared(old(controls)[lastName]), Name("Last name"))
      ensures controls[email] == Checked(Cleared(old(controls)[email]), Email)
      ensures controls[phone] == Checked(Cleared(old(controls)[phone]), Phone)
      ensures controls[password] == Checked(Cleared(old(controls)[password]), Password)
      ensures controls[confirm] ==
                Checked(Cleared(old(controls)[confirm]), ConfirmPassword(old(controls)[password].value))
      ensures forall k :: 0 <= k < |controls| && k !in {firstName, lastName, email, phone, password, confirm} ==>
                controls[k] == Cleared(old(controls)[k])
    {
      ClearErrors();
      ghost var cleared := controls;
      var firstNameOk := Check(firstName, Name("First name"));
      var lastNameOk := Check(lastName, Name("Last name"));
      var emailOk := Check(email, Email);
      var phoneOk := Check(phone, Phone);
      var passwordOk := Check(password, Password);
      var confirmOk := Check(confirm, ConfirmPassword(controls[password].value));
      ok := firstNameOk && lastNameOk && emailOk && phoneOk && passwordOk && confirmOk && terms;
      RegisterVerdicts(cleared[firstName], cleared[lastName], cleared[email], cleared[phone],
                       cleared[password], cleared[confirm], terms);
    }

    /** The contact form's `submit` handler. On success the form is reset
        and every message cleared; otherwise each validated control shows
        its verdict. */
    method SubmitContact(name: nat, email: nat, phone: nat, subject: nat, message: nat) returns (ok: bool)
      requires Valid()
      requires name < |controls| && email < |controls| && phone < |controls|
      requires subject < |controls| && message < |controls|
      requires controls[name].id == "name" && controls[email].id == "email"
      requires controls[phone].id == "phone" && controls[subject].id == "subject"
      requires controls[message].id == "message"
      modifies this
      ensures Valid() && |controls| == |old(controls)|
      ensures ok <==> Checked(Cleared(old(controls)[name]), Name("Full name")).valid &&
                      Checked(Cleared(old(controls)[email]), Email).valid &&
                      Checked(Cleared(old(controls)[phone]), Phone).valid &&
                      Checked(Cleared(old(controls)[subject]), Select("subject")).valid &&
                      Checked(Cleared(old(controls)[message]), Message("Message", 10)).valid
      ensures ok <==> ContactAccepts(old(controls)[name].value, old(controls)[email].value,
                                     old(controls)[phone].value, old(controls)[subject].value,
                                     old(controls)[message].value)
      ensures ok ==> forall k :: 0 <= k < |controls| ==>
                controls[k] == Cleared(old(controls)[k]).(value := old(controls)[k].defaultValue)
      ensures !ok ==> controls[name] == Checked(Cleared(old(controls)[name]), Name("Full name"))
      ensures !ok ==> controls[email] == Checked(Cleared(old(controls)[email]), Email)
      ensures !ok ==> controls[phone] == Checked(Cleared(old(controls)[phone]), Phone)
      ensures !ok ==> controls[subject] == Checked(Cleared(old(controls)[subject]), Select("subject"))
      ensures !ok ==> controls[message] == Checked(Cleared(old(controls)[message]), Message("Message", 10))
      ensures !ok ==> forall k :: 0 <= k < |controls| && k !in {name, email, phone, subject, message} ==>
                controls[k] == Cleared(old(controls)[k])
    {
      ClearErrors();
      ghost var cleared := controls;
      var nameOk := Check(name, Name("Full name"));
      var emailOk := Check(email, Email);
      var phoneOk := Check(phone, Phone);
      var subjectOk := Check(subject, Select("subject"));
      var messageOk := Check(message, Message("Message", 10));
      ghost var checked := controls;
      ok := nameOk && emailOk && phoneOk && subjectOk && messageOk;
      assert cleared[name].value == old(controls)[name].value && cleared[email].value == old(controls)[email].value;
      assert cleared[phone].value == old(controls)[phone].value && cleared[subject].value == old(controls)[subject].value;
      assert cleared[message].value == old(controls)[message].value;
      ContactVerdicts(cleared[name], cleared[email], cleared[phone], cleared[subject], cleared[message]);
      if ok {
        Reset();
        ClearErrors();
        assert forall k :: 0 <= k < |controls| ==>
                 controls[k] == Cleared(old(controls)[k]).(value := old(controls)[k].defaultValue) by {
          forall k | 0 <= k < |controls|
            ensures controls[k] == Cleared(old(controls)[k]).(value := old(controls)[k].defaultValue)
          {
            assert checked[k].id == old(controls)[k].id;
            assert checked[k].defaultValue == old(controls)[k].defaultValue;
          }
        }
      }
    }
  }

}
