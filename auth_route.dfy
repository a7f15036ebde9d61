/** The `action` of the sign-in/sign-up route (app/routes/auth.tsx). */
module AuthRoute {
  import opened Wrappers
  import opened Store
  import opened Validation
  import opened Auth

  /** What the action returns: the session redirect, the validation record, or a message. */
  datatype ActionResponse =
    | Redirected(redirect: SessionRedirect)
    | ValidationFailed(errors: ValidationError)
    | CredentialsMessage(credentials: string)

  const GenericFailureMessage := "Invalid username or password."

  /** `searchParams.get('mode') || 'login'`: an absent or empty parameter means login. */
  function AuthMode(mode: Option<string>): (r: string)
    ensures r == "login" <==> mode.None? || mode.value == "" || mode.value == "login"
    ensures r != "login" ==> mode == Some(r)
  {
    if mode.None? || mode.value == "" then "login" else mode.value
  }

  /**
   * `String(formData.get(name))`: a present field keeps its text and a missing one
   * becomes the string "null", so the two cannot be told apart afterwards.
   */
  function FormString(field: Option<string>): (r: string)
    ensures field.Some? ==> r == field.value
    ensures r == "null" <==> field == None || field == Some("null")
  {
    match field
    case None => "null"
    case Some(v) => v
  }

  function CredentialsOf(email: Option<string>, password: Option<string>): Credentials {
    Credentials(FormString(email), FormString(password))
  }

  /** A missing field fails validation: "null" has no '@' and is shorter than 7 characters. */
  lemma MissingFieldsFailValidation(email: Option<string>, password: Option<string>)
    ensures email.None? ==> !IsValidEmail(CredentialsOf(email, password).email)
    ensures password.None? ==> !IsValidPassword(CredentialsOf(email, password).password)
  {
    var n := "null";
    assert !Strings.IsSpace(n[0]) && !Strings.IsSpace(n[3]);
    assert Strings.TrimStart(n) == n;
    assert Strings.TrimEnd(n) == n;
  }

  /** The catch block: an `ExistingUserError` shows its own message, anything else a fixed one. */
  function ErrorResponse(error: Error): (r: ActionResponse)
    ensures r.CredentialsMessage?
    ensures error.name == "ExistingUserError" ==> r.credentials == error.message
    ensures error.name != "ExistingUserError" ==> r.credentials == GenericFailureMessage
  {
    if error.name == "ExistingUserError" then CredentialsMessage(error.message)
    else CredentialsMessage(GenericFailureMessage)
  }

  /** The response for what `login` or `signup` produced. */
  function OutcomeResponse(outcome: Result<SessionRedirect, Error>): (r: ActionResponse)
    ensures r.Redirected? <==> outcome.Success?
    ensures outcome.Success? ==> r.redirect == outcome.value
    ensures outcome.Failure? ==> r == ErrorResponse(outcome.error)
  {
    match outcome
    case Success(redirect) => Redirected(redirect)
    case Failure(error) => ErrorResponse(error)
  }

  /** Both causes of a failed login, unknown email and wrong password, read alike. */
  lemma LoginFailuresLookAlike(users: seq<User>, credentials: Credentials, compare: (string, string) -> bool)
    requires Login(users, credentials, compare).Failure?
    ensures OutcomeResponse(Login(users, credentials, compare)) == CredentialsMessage(GenericFailureMessage)
  {
  }

  /** A sign-up with a taken email reports the error's own message. */
  lemma ExistingUserMessage()
    ensures OutcomeResponse(Failure(ExistingUserError))
         == CredentialsMessage("A user with the provided email address exists already.")
  {
  }

  /** `action`: validate first and stop there on failure; then `login` for mode
      "login" and `signup` for every other mode; map thrown errors to messages. */
  method Action(db: Database, mode: Option<string>, email: Option<string>, password: Option<string>,
                hash: string -> string, compare: (string, string) -> bool, newId: Id)
    returns (resp: ActionResponse)
    requires db.Valid()
    requires !HasUser(db.users, newId)
    modifies db
    ensures db.Valid()
    ensures db.teams == old(db.teams) && db.members == old(db.members)
    ensures var c := CredentialsOf(email, password);
            !(IsValidEmail(c.email) && IsValidPassword(c.password)) ==>
              && resp.ValidationFailed? && !resp.errors.IsEmpty() && db.users == old(db.users)
              && (resp.errors.email.Some? <==> !IsValidEmail(c.email))
              && (resp.errors.password.Some? <==> !IsValidPassword(c.password))
              && (resp.errors.email.Some? ==> resp.errors.email.value == InvalidEmailMessage)
              && (resp.errors.password.Some? ==> resp.errors.password.value == InvalidPasswordMessage)
    ensures var c := CredentialsOf(email, password);
            IsValidEmail(c.email) && IsValidPassword(c.password) && AuthMode(mode) == "login" ==>
              resp == OutcomeResponse(Login(old(db.users), c, compare)) && db.users == old(db.users)
    ensures var c := CredentialsOf(email, password);
            IsValidEmail(c.email) && IsValidPassword(c.password) && AuthMode(mode) != "login" ==>
              if c.email in Emails(old(db.users)) then
                resp == CredentialsMessage(ExistingUserError.message) && db.users == old(db.users)
              else
                && resp == Redirected(CreateUserSession(newId, HomePath))
                && db.users == old(db.users) + [User(newId, c.email, hash(c.password), None)]
  {
    var authMode := AuthMode(mode);
    var credentials := CredentialsOf(email, password);

    var validation := ValidateCredentials(credentials);
    if validation.Failure? {
      return ValidationFailed(validation.error);
    }

    if authMode == "login" {
      resp := OutcomeResponse(Login(db.users, credentials, compare));
    } else {
      var outcome := Signup(db, credentials, hash, newId);
      resp := OutcomeResponse(outcome);
    }
  }
}
