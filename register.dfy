/** The registration form's submit handler (`Register.js`): three checks
    in a fixed order, each ending the handler with its message, and only
    then the call to `register`, whose result decides between navigating
    away and showing an error. */
module Register {
  import opened Js

  const FillAllFields := "Please fill in all fields"
  const PasswordsDiffer := "Passwords do not match"
  const PasswordTooShort := "Password must be at least 6 characters"
  const RegistrationFailed := "Registration failed"
  const RegistrationError := "Error during registration"
  const MinPasswordLength := 6

  /** The first check that fails, if any. The values are taken as typed:
      nothing is trimmed, and the length is JavaScript's UTF-16 length. */
  function Validate(username: string, password: string, confirm: string): (r: Option<string>)
    ensures r.None? <==> username != "" && password == confirm && Utf16Length(password) >= MinPasswordLength
    ensures r.Some? ==> r.value == FillAllFields || r.value == PasswordsDiffer || r.value == PasswordTooShort
  {
    if username == "" || password == "" || confirm == "" then Some(FillAllFields)
    else if password != confirm then Some(PasswordsDiffer)
    else if Utf16Length(password) < MinPasswordLength then Some(PasswordTooShort)
    else None
  }

  /** What the awaited `register(username, password)` gave: its result
      object, or an exception. */
  datatype RegisterReply = Resolved(success: bool, error: JsVal) | Threw

  /** How the submission ends: a validation message (no call was made),
      navigation to `/`, or the error shown. */
  datatype Submission = Invalid(message: string) | Registered | Failed(error: JsVal)

  /** `handleSubmit`; `reply` is what `register` would give, and is looked
      at only once every check has passed. */
  function Submit(username: string, password: string, confirm: string, reply: RegisterReply): (r: Submission)
    ensures r.Invalid? <==> Validate(username, password, confirm).Some?
    ensures r.Invalid? ==> r.message == Validate(username, password, confirm).value
    ensures r.Registered? <==> Validate(username, password, confirm).None? && reply.Resolved? && reply.success
    ensures r.Failed? ==> Truthy(r.error)
  {
    match Validate(username, password, confirm)
    case Some(message) => Invalid(message)
    case None =>
      match reply
      case Threw => Failed(Str(RegistrationError))
      case Resolved(success, error) => if success then Registered else Failed(Or(error, Str(RegistrationFailed)))
  }

  /** Each message is given exactly when the checks before it pass and its
      own fails. */
  lemma ValidateOrder(username: string, password: string, confirm: string)
    ensures Validate(username, password, confirm) == Some(FillAllFields) <==>
              username == "" || password == "" || confirm == ""
    ensures Validate(username, password, confirm) == Some(PasswordsDiffer) <==>
              username != "" && password != "" && confirm != "" && password != confirm
    ensures Validate(username, password, confirm) == Some(PasswordTooShort) <==>
              username != "" && password != "" && password == confirm && Utf16Length(password) < MinPasswordLength
    ensures Validate(username, password, confirm).None? <==>
              username != "" && password == confirm && Utf16Length(password) >= MinPasswordLength
  {
  }

  /** `register` is reached only when every check passes: otherwise the
      outcome does not depend on what it would give. */
  lemma RegisterOnlyWhenValid(username: string, password: string, confirm: string, r1: RegisterReply, r2: RegisterReply)
    requires Validate(username, password, confirm).Some?
    ensures Submit(username, password, confirm, r1) == Submit(username, password, confirm, r2)
    ensures Submit(username, password, confirm, r1) == Invalid(Validate(username, password, confirm).value)
  {
  }

  /** A failed result shows its `error`, or 'Registration failed' when that
      is missing or empty; a successful one navigates away. */
  lemma FailureMessage(username: string, password: string, confirm: string, error: JsVal)
    requires Validate(username, password, confirm).None?
    ensures Submit(username, password, confirm, Resolved(true, error)) == Registered
    ensures Truthy(error) ==> Submit(username, password, confirm, Resolved(false, error)) == Failed(error)
    ensures !Truthy(error) ==> Submit(username, password, confirm, Resolved(false, error)) == Failed(Str(RegistrationFailed))
    ensures Submit(username, password, confirm, Threw) == Failed(Str(RegistrationError))
  {
  }

  /** Nothing is trimmed: a blank user name and a password of six spaces
      pass every check. */
  lemma WhitespacePasses()
    ensures Validate(" ", "      ", "      ").None?
  {
    assert Utf16Length("      ") == 6;
  }

  /** A mismatch is reported before the length: a short, mismatched pair
      gets the mismatch message. */
  lemma MismatchBeforeLength()
    ensures Validate("ann", "abc", "abd") == Some(PasswordsDiffer)
  {
  }

  /** The length counts UTF-16 code units: three characters beyond the
      Basic Multilingual Plane count as six and pass. */
  lemma LengthInCodeUnits()
    ensures Validate("ann", "\U{1F600}\U{1F600}\U{1F600}", "\U{1F600}\U{1F600}\U{1F600}").None?
  {
    var p := "\U{1F600}\U{1F600}\U{1F600}";
    assert p[1..] == "\U{1F600}\U{1F600}" && p[1..][1..] == "\U{1F600}";
    assert Utf16Length(p) == 6;
  }
}
