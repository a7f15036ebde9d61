# group-task-manager in Dafny

A Dafny model of the server side of group-task-manager, a Remix web application
that has users, teams and tasks. The model covers:

- **Credential validation** (`app/utils/validation.server.ts`): an email must be
  non-empty and contain `@`. A password must be non-empty and at least 7
  characters long once trimmed. The error record carries one fixed message per
  failing field.
- **Cookie-session authentication** (`app/utils/auth.server.ts`). Sign-up refuses
  an email that is already registered, stores the bcrypt digest and opens a
  session. Login looks the email up and compares digests. Both login failures
  raise the same error. `getUserFromSession` and `requireUserId` read the
  session's `userId`, and `requireUserId` redirects to `/auth` with `redirectTo`
  when the id is missing.
- **The sign-in/sign-up action** (`app/routes/auth.tsx`). The `mode` query
  parameter defaults to login, and `String()` turns a missing form field into
  `"null"`. Validation runs first. The action then dispatches to login or
  signup. A thrown `ExistingUserError` shows its own message; any other thrown
  error shows a generic message.
- **Team provisioning** (`app/utils/teams.server.ts`), one transaction that:
  - creates the team with its creator as ADMIN;
  - looks up the invited emails;
  - inserts MEMBER rows with `skipDuplicates`;
  - reports the invited emails that matched no user, in order and with
    duplicates.

  A failure inside the transaction leaves the store unchanged.
- **The new-team action** (`app/routes/teams_.new.tsx`). It builds the team data,
  trims the submitted emails and keeps those containing `@`. It answers with a
  JSON partial success, a redirect to `/teams`, or a 400 response.
- **The dashboard** (`app/routes/tasks.tsx`):
  - the loader's "assigned to me or created by me" query;
  - the status/search filter, which ignores case;
  - the per-status counts computed by `reduce`.

The store is a `Database` class with a user table (`seq<User>`), a team table and a
membership table keyed by `(userId, teamId)`. The operations that write to it are
methods with `modifies db`. Every such method keeps the invariant `Valid()`: ids
and emails are unique, each team is stored under its own id, and every membership
row references an existing user and team. Pure logic (lookups, the validity
tests, filtering, response mapping) consists of functions with lemmas about them.
Two computations that build a value step by step are methods:
`Validation.ValidateCredentials` fills in the error record field by field, and
`Tasks.StatusCounts` is the dashboard's `reduce` written as a loop.

The outside world enters the model as parameters:
- bcrypt's `hash(password, 12)` and `compare` are the functions `hash` and `compare`;
- the ids the database generates are `newId`/`newTeamId` with a freshness precondition;
- the cookie is a `Session` value;
- a storage failure inside the transaction is a `Fault` naming the failing statement.

## Model

| member | source | states |
|---|---|---|
| Seqs.Filter | app/utils/teams.server.ts:43 | `filter` keeps exactly the elements satisfying the predicate and never grows the sequence |
| Seqs.FilterIsSubsequence | app/utils/teams.server.ts:43 | the filtered sequence is a subsequence of the input: order is kept |
| Seqs.FilterMultiplicity | app/utils/teams.server.ts:43 | a kept value keeps every one of its occurrences; a rejected value has none |
| Strings.Trim | app/utils/validation.server.ts:11 | `trim()` leaves no whitespace at either end |
| Strings.TrimIsSlice | app/utils/validation.server.ts:11 | `trim()` returns the slice of its input between a whitespace prefix and a whitespace suffix |
| Strings.TrimKeeps | app/routes/teams_.new.tsx:18-19 | trimming keeps every non-whitespace character, in both directions of the iff, so `@` survives `trim()` |
| Strings.TrimPadded | app/utils/validation.server.ts:11 | whitespace padding on either side does not change `trim()` |
| Strings.Lower | app/routes/tasks.tsx:40-41 | `toLowerCase()` keeps the length, turns each upper-case ASCII letter into its lower-case letter, leaves no upper-case ASCII letter, and keeps every other character in place |
| Strings.LowerIdempotent | app/routes/tasks.tsx:40-41 | lower-casing twice is the same as lower-casing once |
| Strings.Includes | app/routes/tasks.tsx:40-41 | `includes` of the empty string always holds, and a found substring is no longer than the string |
| Strings.IncludesAt | app/routes/tasks.tsx:40-41 | `includes` holds iff the substring occurs at some position |
| Strings.IncludesChar | app/utils/validation.server.ts:7 | `includes` of a one-character string is membership of that character |
| Strings.JoinSplit | app/routes/teams_.new.tsx:128 | joining the lines of a string gives the string back, and no line holds a line break |
| Strings.SplitJoin | app/routes/teams_.new.tsx:128 | splitting lines that were joined with line breaks gives the lines back |
| Store.FindUserByEmail | app/utils/auth.server.ts:57 | `findFirst({ where: { email } })` returns a user with that email, and returns none iff no user has it |
| Validation.IsValidEmail | app/utils/validation.server.ts:6-8 | valid iff non-empty and containing `@` |
| Validation.IsValidPassword | app/utils/validation.server.ts:10-12 | a valid password has at least 7 characters; a password without whitespace at its ends is valid iff it has at least 7 characters |
| Validation.PasswordIgnoresPadding | app/utils/validation.server.ts:10-12 | password validity depends only on the trimmed length being at least 7 |
| Validation.ValidateCredentials | app/utils/validation.server.ts:14-28 | succeeds iff both fields are valid; otherwise the thrown record is non-empty, has an email key iff the email is invalid and a password key iff the password is invalid, and carries the fixed messages |
| Auth.CreateUserSession | app/utils/auth.server.ts:20-28 | redirects to the given path with a session whose `userId` is the given id, which `getUserFromSession` reads back when the id is non-empty |
| Auth.GetUserFromSession | app/utils/auth.server.ts:30-41 | null iff the session's `userId` is missing or empty; otherwise that id |
| Auth.RequireUserId | app/utils/auth.server.ts:100-111 | returns the session's user id iff `getUserFromSession` finds one; otherwise a redirect whose `redirectTo` defaults to the request's pathname |
| Auth.Signup | app/utils/auth.server.ts:56-74 | fails with `ExistingUserError` iff the email is already stored, leaving the users as they were; otherwise appends exactly one user with the password's digest and opens its session on `/teams`; keeps the store consistent |
| Auth.Login | app/utils/auth.server.ts:76-98 | every failure is `wrongCredentialsError`; an unknown email fails; a success opens the session of a stored user with that email whose digest matches |
| Auth.FindUniqueEmail | app/utils/auth.server.ts:77 | with unique emails the lookup finds the one user holding the email |
| Auth.LoginSucceedsIff | app/utils/auth.server.ts:76-98 | with unique emails, login succeeds iff `compare` accepts the stored digest, and then opens that user's session |
| Auth.FindAppended | app/utils/auth.server.ts:69-71 | a user appended with a fresh email is what the lookup of that email finds |
| Auth.SignupThenLogin | app/utils/auth.server.ts:56-98 | after a sign-up, login with the same credentials opens the new user's session, given that `compare` accepts each password against its digest |
| Auth.SessionIdentifiesUser | app/utils/auth.server.ts:20-28 | the session committed by `createUserSession` makes `requireUserId` return that user |
| AuthRoute.AuthMode | app/routes/auth.tsx:16 | the mode is login iff the parameter is absent, empty or `login`; any other value is kept |
| AuthRoute.FormString | app/routes/auth.tsx:19-21 | `String()` keeps a present field's text and turns a missing one into `"null"`, so a missing field and the text "null" give the same string |
| AuthRoute.MissingFieldsFailValidation | app/routes/auth.tsx:19-21 | a missing email or password becomes `"null"`, which fails its validation |
| AuthRoute.ErrorResponse | app/routes/auth.tsx:35-43 | an `ExistingUserError` answers with its own message; any other error with "Invalid username or password." |
| AuthRoute.OutcomeResponse | app/routes/auth.tsx:29-43 | a redirect iff login/signup succeeded, with that redirect; otherwise the error's response |
| AuthRoute.LoginFailuresLookAlike | app/routes/auth.tsx:39-43 | both causes of a failed login produce the same generic message |
| AuthRoute.ExistingUserMessage | app/routes/auth.tsx:39-41 | a duplicate sign-up shows "A user with the provided email address exists already." |
| AuthRoute.Action | app/routes/auth.tsx:14-44 | invalid credentials give the validation record and change nothing; the record has an email key iff the email is invalid and a password key iff the password is invalid, with the fixed messages. Otherwise mode `login` gives the login response and changes nothing, and any other mode signs up: a taken email gives the existing-user message with no change, a fresh email appends the user and redirects with its session |
| Teams.UsersWithEmailIn | app/utils/teams.server.ts:25-29 | `findMany` returns exactly the stored users whose email is among the invited ones |
| Teams.InsertMembers | app/utils/teams.server.ts:32-39 | `createMany` with `skipDuplicates` keeps every existing row and its role, adds only MEMBER rows of the team for listed users, and gives every listed user a row |
| Teams.CreateMany | app/utils/teams.server.ts:32-39 | the row-by-row insert loop produces the table `InsertMembers` describes |
| Teams.CreateTeamWithMembers | app/utils/teams.server.ts:9-49 | fails iff a statement fails or the creator is not a user, and then leaves teams and memberships unchanged (all-or-nothing), with the error specified. On success it stores the team with the given name and description, writes exactly `Provision`'s memberships, reports exactly `Unmatched`, and keeps the store consistent |
| Teams.Provision | app/utils/teams.server.ts:11-39 | after the transaction the creator is the team's ADMIN, every other existing row keeps its role, and every added row belongs to the new team |
| Teams.InvalidEmails | app/utils/teams.server.ts:42-43 | exactly the invited emails that are not among the valid ones, never more than were invited |
| Teams.Unmatched | app/utils/teams.server.ts:25-43 | the report never has more entries than the invitations, and every reported email was invited |
| Teams.ProvisionKeepsConsistent | app/utils/teams.server.ts:11-39 | the rows the transaction writes reference existing users and teams |
| Teams.ProvisionedMembership | app/utils/teams.server.ts:11-39 | the creator is ADMIN even when inviting their own email; every invited existing user is a member and nobody else is; the others are MEMBER; other teams' rows are untouched |
| Teams.NoInvitations | app/utils/teams.server.ts:9-49 | with no invitations the creator is the only member and nothing is reported |
| Teams.MatchedEmails | app/utils/teams.server.ts:25-42 | an invited email is among the found users' emails iff some stored user has it |
| Teams.UnmatchedExactly | app/utils/teams.server.ts:42-43 | an email is reported iff it was invited and no stored user has it (exact string comparison); a reported email finds no user |
| Teams.UnmatchedKeepsOrderAndDuplicates | app/utils/teams.server.ts:43 | the report is a subsequence of the invitations, and each unmatched email appears as often as it was invited |
| Teams.ExampleTwoOfThree | app/utils/teams.server.ts:25-43 | with users a@x.com and b@x.com, inviting a, b and c reports only c |
| Teams.ExampleCaseSensitive | app/utils/teams.server.ts:27 | "A@x.com" does not match the user a@x.com |
| NewTeamRoute.TeamDataOf | app/routes/teams_.new.tsx:12-15 | a missing name becomes the empty string; the description is passed through |
| NewTeamRoute.TrimAll | app/routes/teams_.new.tsx:17-18 | `map(m => m.toString().trim())` gives one entry per value, none longer than its value and none with whitespace at either end |
| NewTeamRoute.MemberEmails | app/routes/teams_.new.tsx:17-19 | the member emails, as written: at most one per submitted value, each containing `@` |
| NewTeamRoute.HasAt | app/routes/teams_.new.tsx:19 | the email filter passes iff the string contains `@` |
| NewTeamRoute.MemberEmailsWellFormed | app/routes/teams_.new.tsx:17-19 | every email handed on contains `@` and has no whitespace at either end |
| NewTeamRoute.MemberEmailsExactly | app/routes/teams_.new.tsx:17-19 | an email is handed on iff it is the trimmed form of a submitted value containing `@`; submission order is kept |
| NewTeamRoute.MemberEmailsAllKept | app/routes/teams_.new.tsx:17-19 | when every value contains `@`, the emails are the trimmed values |
| NewTeamRoute.OneValueOneEmail | app/routes/teams_.new.tsx:17-19 | one submitted value yields its trimmed form if it contains `@`, and nothing otherwise |
| NewTeamRoute.LinesNotSplit | app/routes/teams_.new.tsx:17-19 | as written, two lines of the textarea reach provisioning as one string |
| NewTeamRoute.NoLongerEmail | app/utils/teams.server.ts:25-43 | a string longer than every stored email matches no user and is reported |
| NewTeamRoute.TwoLinesAsWritten | app/routes/teams_.new.tsx:17-22 | as written, two registered addresses on two lines add nobody, and the whole text is reported as invalid |
| NewTeamRoute.TextareaEmails | app/routes/teams_.new.tsx:120-128 | with the lines split, every email handed on contains `@` |
| NewTeamRoute.TextareaLines | app/routes/teams_.new.tsx:120-128 | with the lines split, a textarea of lines yields what those lines would give as separate values |
| NewTeamRoute.TextareaEmailsExactly | app/routes/teams_.new.tsx:120-128 | with the lines split, an email is handed on iff it is the trimmed form of a line containing `@` |
| NewTeamRoute.TwoLinesTwoEmails | app/routes/teams_.new.tsx:120-128 | with the lines split, two addresses separated by a browser's "\r\n" become two emails |
| NewTeamRoute.ProvisionResponse | app/routes/teams_.new.tsx:24-38 | JSON with `success: true` iff some emails matched nobody; a redirect to `/teams` iff all matched; 400 with "Failed to create team" and the error's message iff provisioning failed |
| NewTeamRoute.Action | app/routes/teams_.new.tsx:8-39 | without a session, the sign-in redirect and no change. Otherwise the transaction runs on the trimmed submitted values that contain `@`, each value taken whole. On success the team is stored under the new id with the form's name and description, the memberships are exactly `Provision`'s, and the response is `ProvisionResponse` of the team and the unmatched emails. A fault or an unknown creator yields 400 with "Failed to create team" and the transaction error's message, and no change |
| Tasks.Loader | app/routes/tasks.tsx:11-29 | without a session, the sign-in redirect to the current path; otherwise the user's tasks |
| Tasks.OwnedTasks | app/routes/tasks.tsx:14-20 | the loaded tasks are exactly the stored tasks assigned to or created by the user, never more than the table |
| Tasks.OwnedTasksExactly | app/routes/tasks.tsx:14-20 | a task is loaded iff it is assigned to or was created by the user; table order is kept |
| Tasks.Matches | app/routes/tasks.tsx:39-42 | a task matches iff its status passes the filter and the lower-cased query occurs at some position of its lower-cased title or description |
| Tasks.MatchesIgnoresQueryCase | app/routes/tasks.tsx:40-41 | the search ignores the case of the query: a query and its lower-cased form match the same tasks |
| Tasks.FilteredTasks | app/routes/tasks.tsx:38-43 | the shown tasks are exactly the loaded tasks that match, never more than were loaded |
| Tasks.FilteredTasksExactly | app/routes/tasks.tsx:38-43 | a task is shown iff its status passes the filter and the lower-cased query occurs in its lower-cased title or description; order is kept |
| Tasks.UnfilteredShowsAll | app/routes/tasks.tsx:33-43 | the initial view (status 'ALL', empty query) shows every task |
| Tasks.StatusCounts | app/routes/tasks.tsx:46-50 | the `reduce` yields a key for each of the four initial statuses and each status that occurs. 'ALL' counts every task, plus once more each task whose own status is 'ALL'. Every other key counts how many tasks have that status |
| Tasks.CountsPartitionTasks | app/routes/tasks.tsx:45-50 | when every status is TODO, IN_PROGRESS or DONE, their counts add up to the number of tasks and none has status 'ALL' |
| Tasks.StatusCountsAddUp | app/routes/tasks.tsx:45-50 | a corollary of `StatusCounts`: with the three statuses only, 'ALL' equals the number of tasks and TODO + IN_PROGRESS + DONE |

## Findings

| source | as written | input that shows it | evidently intended | confidence | as-written member | corrected member |
|---|---|---|---|---|---|---|
| app/routes/teams_.new.tsx:17-19 | the value of the members textarea is trimmed and filtered as one string; it is never split at line breaks | users a@x.com and b@x.com; the textarea holds "a@x.com" and "b@x.com" on two lines, submitted as "a@x.com\r\nb@x.com". Nobody is added, and the whole text is reported as an invalid email | one email per line, as the form's hint "Enter one email address per line" (line 128) says | high; not executed | NewTeamRoute.TwoLinesAsWritten | NewTeamRoute.TextareaEmailsExactly |

`NewTeamRoute.MemberEmails` models the code as written, and `NewTeamRoute.Action`
uses it, as the route does. `NewTeamRoute.TextareaEmails` is the corrected
definition: it first splits every value at its line breaks. Its intended
properties are proved in `TextareaLines`, `TextareaEmailsExactly` and
`TwoLinesTwoEmails`.

## Left out

- Prisma and the database engine are modelled as in-memory tables. Query plans, the `include` of related rows and the `orderBy: { dueDate: 'asc' }` of the dashboard loader (app/routes/tasks.tsx:25) are not modelled: the loader keeps table order.
- bcrypt is the pair of parameters `hash` and `compare`. Its salt, its cost factor 12 and its internals are not modelled.
- Cookie storage is not modelled. That covers the secret, the `secure`/`sameSite`/`httpOnly`/`maxAge` flags (app/utils/auth.server.ts:8-18), cookie serialisation and signing, and the `Set-Cookie` header itself. A session is just its `userId` entry.
- `requireUserId` reads its session through `app/utils/session.server.ts`, a separate storage. The model treats both storages as the same session value.
- The redirect to `/auth?redirectTo=…` is modelled by its `redirectTo` value. URL encoding of the query string is not modelled.
- `destroyUserSession` (app/utils/auth.server.ts:43-53) and the logout route are not part of this model.
- `console.log(error.message)` (app/routes/auth.tsx:37) is I/O and is left out.
- `trim()` removes only ASCII whitespace, and `toLowerCase()` maps only ASCII letters. The Unicode cases are not modelled.
- Form values are strings or absent. `File` entries of `FormData` are not modelled.
- Every thrown value is an `Error` with a name and a message. Non-`Error` throws (the `instanceof Error` and `String(error)` paths) are not modelled.
- The React components, JSX rendering, `useState` and `useActionData` are UI and are left out, as are the other routes.
- Fresh ids are inputs with a freshness precondition. The id generator (cuid/uuid) is not modelled.
- The errors a storage statement can raise are modelled as arbitrary injected `Error` values with a placeholder name and message. The foreign-key error for a creator who is not a user is a named constant with a placeholder message.
- Validation.IsValidPassword: `length` in JavaScript counts UTF-16 code units, while the model counts characters (Unicode scalar values). A password made of characters outside the Basic Multilingual Plane counts double in the source, so "😀😀😀😀" (four emoji, eight code units) passes the source's check but fails the model's.
- Auth.Signup: the storage statements `findFirst` and `create` cannot fail in the model. In the source such a failure is thrown, is caught at app/routes/auth.tsx:35-43 and answers "Invalid username or password.", which `AuthRoute.ErrorResponse` gives for any error that is not an `ExistingUserError`.
- Auth.Login: the lookup `findFirst` cannot fail in the model; a failure in the source reaches the same catch block and answers with the generic message.
- Teams.CreateTeamWithMembers: a creator id that names no user fails with a foreign-key error. This stands for the relation constraint of the database schema; the schema file is not part of this model.
- Tasks.StatusCounts: the accumulator is a `map<string, nat>`, not a JavaScript object. Key order and prototype keys are not modelled.
- The user's `name` column is carried in `User` but no modelled operation reads or writes it.
- `Seqs.IsSubsequence`, `Store.Consistent` and `Store.Database.Valid` are ghost specifications, not code of the application.
