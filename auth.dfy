/**
 * Session-based authentication (app/utils/auth.server.ts). The cookie session is
 * an optional `userId`; bcrypt's `hash(password, 12)` and `compare` are the
 * function parameters `hash` and `compare`.
 */
module Auth {
  import opened Wrappers
  import opened Store
  import opened Validation

  /** The cookie session: the value of its `userId` entry, if any. */
  datatype Session = Session(userId: Option<string>)

  /** `createUserSession`: a redirect whose Set-Cookie header commits `session`. */
  datatype SessionRedirect = SessionRedirect(location: string, session: Session)

  /** The redirect `requireUserId` throws: to `/auth` with query parameter `redirectTo`. */
  datatype AuthRedirect = AuthRedirect(redirectTo: string)

  const HomePath := "/teams"
  const ExistingUserError :=
    Error("ExistingUserError", "A user with the provided email address exists already.")
  const WrongCredentialsError :=
    Error("wrongCredentialsError", "Could not log you in, please check the provided credentials.")

  /**
   * `createUserSession`: redirects to `redirectPath` with a session that
   * `getUserFromSession` reads back as `userId` (when that id is truthy).
   */
  function CreateUserSession(userId: Id, redirectPath: string): (r: SessionRedirect)
    ensures r.location == redirectPath
    ensures r.session.userId == Some(userId)
    ensures userId != "" ==> GetUserFromSession(r.session) == Some(userId)
  {
    SessionRedirect(redirectPath, Session(Some(userId)))
  }

  /** JavaScript truthiness of a session entry: present and not the empty string. */
  predicate Truthy(entry: Option<string>) {
    entry.Some? && entry.value != ""
  }

  /** `getUserFromSession`: null when the session holds no truthy `userId`, else that id. */
  function GetUserFromSession(session: Session): (r: Option<Id>)
    ensures r.None? <==> !Truthy(session.userId)
    ensures r.Some? ==> r == session.userId && r.value != ""
  {
    var userId := session.userId;
    if userId.None? || userId.value == "" then None else userId
  }

  /** `requireUserId`: the session's `userId`, or a redirect to `/auth` carrying
      `redirectTo`, which defaults to the request's pathname. */
  function RequireUserId(session: Session, pathname: string, redirectTo: Option<string>): (r: Result<Id, AuthRedirect>)
    ensures r.Success? <==> GetUserFromSession(session).Some?
    ensures r.Success? ==> r.value == GetUserFromSession(session).value
    ensures r.Failure? ==> r.error.redirectTo == if redirectTo.Some? then redirectTo.value else pathname
  {
    var target := redirectTo.GetOr(pathname);
    match session.userId
    case None => Failure(AuthRedirect(target))
    case Some(userId) => if userId == "" then Failure(AuthRedirect(target)) else Success(userId)
  }

  /** `signup`: rejects an email already in the user table; otherwise stores a new
      user with the digest of the password and opens a session for it.
      `newId` is the fresh id the store assigns to the new row. */
  method Signup(db: Database, credentials: Credentials, hash: string -> string, newId: Id)
    returns (r: Result<SessionRedirect, Error>)
    requires db.Valid()
    requires !HasUser(db.users, newId)
    modifies db
    ensures db.Valid()
    ensures db.teams == old(db.teams) && db.members == old(db.members)
    ensures r.Failure? <==> credentials.email in Emails(old(db.users))
    ensures r.Failure? ==> r.error == ExistingUserError && db.users == old(db.users)
    ensures r.Success? ==>
      && db.users == old(db.users) + [User(newId, credentials.email, hash(credentials.password), None)]
      && r.value == CreateUserSession(newId, HomePath)
  {
    var existingUser := FindUserByEmail(db.users, credentials.email);
    if existingUser.Some? {
      return Failure(ExistingUserError);
    }
    var passwordHash := hash(credentials.password);
    var user := User(newId, credentials.email, passwordHash, None);
    ghost var before := db.users;
    db.users := db.users + [user];
    forall k | k in db.members ensures HasUser(db.users, k.0) {
      var i :| 0 <= i < |before| && before[i].id == k.0;
      assert db.users[i] == before[i];
    }
    return Success(CreateUserSession(newId, HomePath));
  }

  /** `login`: looks the email up and compares the password with the stored digest.
      Both failure causes raise the same error. */
  function Login(users: seq<User>, credentials: Credentials, compare: (string, string) -> bool)
    : (r: Result<SessionRedirect, Error>)
    ensures r.Failure? ==> r.error == WrongCredentialsError
    ensures credentials.email !in Emails(users) ==> r.Failure?
    ensures r.Success? ==> exists u :: u in users && u.email == credentials.email
                                       && compare(credentials.password, u.password)
                                       && r.value == CreateUserSession(u.id, HomePath)
  {
    match FindUserByEmail(users, credentials.email)
    case None => Failure(WrongCredentialsError)
    case Some(existingUser) =>
      if !compare(credentials.password, existingUser.password) then Failure(WrongCredentialsError)
      else Success(CreateUserSession(existingUser.id, HomePath))
  }

  ghost predicate UniqueEmails(users: seq<User>) {
    forall i, j :: 0 <= i < j < |users| ==> users[i].email != users[j].email
  }

  lemma {:induction false} FindUniqueEmail(users: seq<User>, i: nat)
    requires UniqueEmails(users) && i < |users|
    ensures FindUserByEmail(users, users[i].email) == Some(users[i])
  {
    if i > 0 {
      assert users[0].email != users[i].email;
      assert users[1..][i - 1] == users[i];
      FindUniqueEmail(users[1..], i - 1);
    }
  }

  /** With unique emails, login succeeds exactly for a user with that email whose
      stored digest matches the password, and opens that user's session. */
  lemma LoginSucceedsIff(users: seq<User>, credentials: Credentials, compare: (string, string) -> bool, i: nat)
    requires UniqueEmails(users) && i < |users| && users[i].email == credentials.email
    ensures Login(users, credentials, compare).Success? <==> compare(credentials.password, users[i].password)
    ensures Login(users, credentials, compare).Success? ==>
      Login(users, credentials, compare).value == CreateUserSession(users[i].id, HomePath)
  {
    FindUniqueEmail(users, i);
  }

  lemma {:induction false} FindAppended(users: seq<User>, u: User)
    requires u.email !in Emails(users)
    ensures FindUserByEmail(users + [u], u.email) == Some(u)
  {
    if users == [] {
      assert users + [u] == [u];
    } else {
      assert (users + [u])[1..] == users[1..] + [u];
      assert Emails(users)[0] == users[0].email;
      FindAppended(users[1..], u);
    }
  }

  /** A user who has just signed up can log in with the same password, provided
      `compare` accepts every password against its own digest. */
  lemma SignupThenLogin(users: seq<User>, credentials: Credentials, hash: string -> string,
                        compare: (string, string) -> bool, newId: Id)
    requires credentials.email !in Emails(users)
    requires forall p :: compare(p, hash(p))
    ensures var after := users + [User(newId, credentials.email, hash(credentials.password), None)];
            Login(after, credentials, compare) == Success(CreateUserSession(newId, HomePath))
  {
    FindAppended(users, User(newId, credentials.email, hash(credentials.password), None));
  }

  /** The session opened by signup or login identifies its user to `requireUserId`. */
  lemma SessionIdentifiesUser(userId: Id, pathname: string, redirectTo: Option<string>)
    requires userId != ""
    ensures RequireUserId(CreateUserSession(userId, HomePath).session, pathname, redirectTo) == Success(userId)
  {
  }
}
