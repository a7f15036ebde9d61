/** Credential validation of the sign-in form (app/utils/validation.server.ts). */
module Validation {
  import opened Wrappers
  import opened Strings

  datatype Credentials = Credentials(email: string, password: string)

  /** The `ValidationError` record: each key is present only for a field that failed. */
  datatype ValidationError = ValidationError(email: Option<string>, password: Option<string>) {
    /** `Object.keys(validationErrors).length == 0`. */
    predicate IsEmpty() {
      email.None? && password.None?
    }
  }

  const InvalidEmailMessage := "Invalid email address."
  const InvalidPasswordMessage := "Invalid password. Must be at least 7 characters long."

  /** `value && value.includes('@')`: the empty string is falsy. */
  function IsValidEmail(value: string): (r: bool)
    ensures r <==> value != "" && '@' in value
  {
    IncludesChar(value, '@');
    value != "" && Includes(value, "@")
  }

  /**
   * `value && value.trim().length >= 7`: a valid password has at least seven
   * characters, and one without surrounding whitespace is valid exactly when it has.
   */
  function IsValidPassword(value: string): (r: bool)
    ensures r ==> |value| >= 7
    ensures value != [] && !IsSpace(value[0]) && !IsSpace(value[|value| - 1]) ==> (r <==> |value| >= 7)
  {
    var valid := value != "" && |Trim(value)| >= 7;
    if value != [] && !IsSpace(value[0]) && !IsSpace(value[|value| - 1]) then
      TrimUntrimmed(value);
      valid
    else valid
  }

  /** Only the trimmed length counts: leading and trailing whitespace is ignored. */
  lemma PasswordIgnoresPadding(lead: string, value: string, trail: string)
    requires AllSpaces(lead) && AllSpaces(trail)
    ensures IsValidPassword(lead + value + trail) <==> |Trim(value)| >= 7
  {
    TrimPadded(lead, value, trail);
  }

  /** `validateCredentials`: builds the error record field by field and throws it
      (here: returns `Failure`) when it has any key. */
  method ValidateCredentials(input: Credentials) returns (r: Result<(), ValidationError>)
    ensures r.Success? <==> IsValidEmail(input.email) && IsValidPassword(input.password)
    ensures r.Failure? ==> !r.error.IsEmpty()
    ensures r.Failure? ==> (r.error.email.Some? <==> !IsValidEmail(input.email))
    ensures r.Failure? ==> (r.error.password.Some? <==> !IsValidPassword(input.password))
    ensures r.Failure? && r.error.email.Some? ==> r.error.email.value == InvalidEmailMessage
    ensures r.Failure? && r.error.password.Some? ==> r.error.password.value == InvalidPasswordMessage
  {
    var validationErrors := ValidationError(None, None);
    if !IsValidEmail(input.email) {
      validationErrors := validationErrors.(email := Some(InvalidEmailMessage));
    }
    if !IsValidPassword(input.password) {
      validationErrors := validationErrors.(password := Some(InvalidPasswordMessage));
    }
    if !validationErrors.IsEmpty() {
      return Failure(validationErrors);
    }
    return Success(());
  }
}
