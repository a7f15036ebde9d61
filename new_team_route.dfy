/** The `action` of the new-team route (app/routes/teams_.new.tsx). */
module NewTeamRoute {
  import opened Wrappers
  import opened Seqs
  import opened Strings
  import opened Store
  import opened Auth
  import opened Teams

  /** The submitted form: `name` and `description` if present, and `getAll("members")`.
      The members field is a single textarea, so `members` holds at most one value
      when the form is submitted from the page. */
  datatype NewTeamForm = NewTeamForm(name: Option<string>, description: Option<string>, members: seq<string>)

  datatype Response =
    | Json(team: Team, invalidEmails: seq<string>, success: bool)  // Response.json(...)
    | Redirect(location: string)
    | BadRequest(status: nat, error: string, details: string)     // data(..., { status: 400 })
    | AuthRequired(redirect: AuthRedirect)                         // thrown by requireUserId

  const FailureMessage := "Failed to create team"

  /** `{ name: get("name")?.toString() || "", description: get("description")?.toString() }`. */
  function TeamDataOf(form: NewTeamForm): (r: TeamData)
    ensures form.name.None? ==> r.name == ""
    ensures form.name.Some? ==> r.name == form.name.value
    ensures r.description == form.description
  {
    TeamData(form.name.GetOr(""), form.description)
  }

  /** `values.map(m => m.toString().trim())`: one entry per value, none longer than
      its value, none starting or ending with whitespace. */
  function TrimAll(values: seq<string>): (r: seq<string>)
    ensures |r| == |values|
    ensures forall i :: 0 <= i < |r| ==> |r[i]| <= |values[i]|
    ensures forall i :: 0 <= i < |r| && r[i] != [] ==> !IsSpace(r[i][0]) && !IsSpace(r[i][|r[i]| - 1])
  {
    seq(|values|, i requires 0 <= i < |values| => Trim(values[i]))
  }

  /** The filter's test, `email.includes("@")`. */
  function HasAt(email: string): (r: bool)
    ensures r <==> '@' in email
  {
    IncludesChar(email, '@');
    Includes(email, "@")
  }

  /** `getAll("members").map(m => m.toString().trim()).filter(email => email.includes("@"))`:
      at most one email per value, each containing '@'. */
  function MemberEmails(values: seq<string>): (r: seq<string>)
    ensures |r| <= |values|
    ensures forall e :: e in r ==> '@' in e
  {
    Filter(TrimAll(values), HasAt)
  }

  lemma MemberEmailsFromTrimmed(values: seq<string>, e: string)
    requires e in MemberEmails(values)
    ensures '@' in e && e in TrimAll(values)
  {
    var r := MemberEmails(values);
    var j :| 0 <= j < |r| && r[j] == e;
    assert HasAt(r[j]);
  }

  lemma TrimmedValue(values: seq<string>, e: string)
    requires e in TrimAll(values)
    ensures e != [] ==> !IsSpace(e[0]) && !IsSpace(e[|e| - 1])
  {
    var i := TrimmedIndex(values, e);
  }

  /** Every email handed to provisioning contains '@' and is trimmed at both ends. */
  lemma MemberEmailsWellFormed(values: seq<string>, e: string)
    requires e in MemberEmails(values)
    ensures '@' in e
    ensures e != [] ==> !IsSpace(e[0]) && !IsSpace(e[|e| - 1])
  {
    MemberEmailsFromTrimmed(values, e);
    TrimmedValue(values, e);
  }

  lemma KeptValue(values: seq<string>, i: nat)
    requires i < |values| && '@' in values[i]
    ensures Trim(values[i]) in MemberEmails(values)
  {
    TrimKeeps(values[i], '@');
    assert TrimAll(values)[i] == Trim(values[i]);
  }

  lemma TrimmedIndex(values: seq<string>, e: string) returns (i: nat)
    requires e in TrimAll(values)
    ensures i < |values| && Trim(values[i]) == e
  {
    i :| 0 <= i < |values| && TrimAll(values)[i] == e;
  }

  lemma TrimmedSource(values: seq<string>, e: string) returns (i: nat)
    requires e in MemberEmails(values)
    ensures i < |values| && Trim(values[i]) == e && '@' in e
  {
    MemberEmailsFromTrimmed(values, e);
    i := TrimmedIndex(values, e);
  }

  lemma AtSurvivesTrim(v: string, e: string)
    requires Trim(v) == e && '@' in e
    ensures '@' in v
  {
    TrimKeeps(v, '@');
  }

  /** An email is handed on exactly when it is the trimmed form of a submitted value
      containing '@'; the submitted order is kept. */
  lemma MemberEmailsExactly(values: seq<string>, e: string)
    ensures e in MemberEmails(values) <==> exists i :: 0 <= i < |values| && Trim(values[i]) == e && '@' in values[i]
    ensures IsSubsequence(MemberEmails(values), TrimAll(values))
  {
    FilterIsSubsequence(TrimAll(values), HasAt);
    if i :| 0 <= i < |values| && Trim(values[i]) == e && '@' in values[i] {
      KeptValue(values, i);
    }
    if e in MemberEmails(values) {
      var i := TrimmedSource(values, e);
      AtSurvivesTrim(values[i], e);
    }
  }

  /** A single textarea value is not split at line breaks: it yields at most one email. */
  lemma OneValueOneEmail(value: string)
    ensures MemberEmails([value]) == if '@' in value then [Trim(value)] else []
  {
    var t := TrimAll([value]);
    assert t == [Trim(value)];
    TrimKeeps(value, '@');
    if '@' in value {
      FilterAll(t, HasAt);
    } else {
      FilterNone(t, HasAt);
    }
  }

  /** Two addresses on two lines of the textarea reach provisioning as one string. */
  lemma LinesNotSplit(first: string, second: string)
    requires '@' in first && first != [] && second != []
    requires !IsSpace(first[0]) && !IsSpace(second[|second| - 1])
    ensures MemberEmails([first + "\n" + second]) == [first + "\n" + second]
  {
    var v := first + "\n" + second;
    assert v[0] == first[0] && v[|v| - 1] == second[|second| - 1];
    var k :| 0 <= k < |first| && first[k] == '@';
    assert v[k] == '@';
    OneValueOneEmail(v);
    TrimUntrimmed(v);
  }

  /** The entries of every submitted value, one per line, in order. */
  function Lines(values: seq<string>): seq<string> {
    if values == [] then [] else SplitLines(values[0]) + Lines(values[1..])
  }

  /** The member emails as the form's hint ("one email address per line") intends them:
      each value is split at its line breaks before trimming and filtering; every
      email contains '@'. */
  function TextareaEmails(values: seq<string>): (r: seq<string>)
    ensures forall e :: e in r ==> '@' in e
  {
    MemberEmails(Lines(values))
  }

  /** A textarea whose lines are `lines` yields one entry per line. */
  lemma TextareaLines(lines: seq<string>)
    requires |lines| >= 1
    requires forall i :: 0 <= i < |lines| ==> '\n' !in lines[i]
    ensures TextareaEmails([JoinLines(lines)]) == MemberEmails(lines)
  {
    SplitJoin(lines);
    LinesSingle(JoinLines(lines));
  }

  lemma LinesSingle(v: string)
    ensures Lines([v]) == SplitLines(v)
  {
    assert [v][1..] == [];
  }

  /** An email is handed on exactly when it is the trimmed form of a line of the
      textarea that contains '@'. */
  lemma TextareaEmailsExactly(lines: seq<string>, e: string)
    requires |lines| >= 1
    requires forall i :: 0 <= i < |lines| ==> '\n' !in lines[i]
    ensures e in TextareaEmails([JoinLines(lines)]) <==>
            exists i :: 0 <= i < |lines| && Trim(lines[i]) == e && '@' in lines[i]
  {
    TextareaLines(lines);
    MemberEmailsExactly(lines, e);
  }

  /** Values that all contain '@' are all handed on, trimmed. */
  lemma MemberEmailsAllKept(values: seq<string>)
    requires forall i :: 0 <= i < |values| ==> '@' in values[i]
    ensures MemberEmails(values) == TrimAll(values)
  {
    var t := TrimAll(values);
    forall i | 0 <= i < |t| ensures HasAt(t[i]) {
      TrimKeeps(values[i], '@');
    }
    FilterAll(t, HasAt);
  }

  lemma TrimAllPair(x: string, y: string)
    ensures TrimAll([x, y]) == [Trim(x), Trim(y)]
  {
    var t := TrimAll([x, y]);
    assert t[0] == Trim(x) && t[1] == Trim(y);
  }

  /** Two values that both contain '@' are both handed on, trimmed. */
  lemma MemberEmailsOfTwo(x: string, y: string)
    requires '@' in x && '@' in y
    ensures MemberEmails([x, y]) == [Trim(x), Trim(y)]
  {
    var values := [x, y];
    assert forall i :: 0 <= i < |values| ==> '@' in values[i];
    MemberEmailsAllKept(values);
    TrimAllPair(x, y);
  }

  /** A line that is already trimmed, followed by the '\r' of a "\r\n" break, trims to itself. */
  lemma TrimCarriageReturn(x: string)
    requires x != [] && !IsSpace(x[0]) && !IsSpace(x[|x| - 1])
    ensures Trim(x + "\r") == x
  {
    TrimPadded("", x, "\r");
    assert "" + x + "\r" == x + "\r";
    TrimUntrimmed(x);
  }

  /** An address as a user types it on one line: '@', no surrounding whitespace, no break. */
  predicate TypedAddress(x: string) {
    '@' in x && '\n' !in x && x != [] && !IsSpace(x[0]) && !IsSpace(x[|x| - 1])
  }

  /** Two addresses on two lines, with the "\r\n" break a browser submits, become two emails. */
  lemma TwoLinesTwoEmails(x: string, y: string)
    requires TypedAddress(x) && TypedAddress(y)
    ensures TextareaEmails([x + "\r\n" + y]) == [x, y]
  {
    var lines := [x + "\r", y];
    assert lines[1..] == [y];
    assert JoinLines(lines) == x + "\r\n" + y;
    assert '\n' !in lines[0] && '@' in lines[0];
    TextareaLines(lines);
    MemberEmailsOfTwo(lines[0], lines[1]);
    TrimCarriageReturn(x);
    TrimUntrimmed(y);
  }

  /** No user's email is `v`: `v` is reported and nobody is matched. */
  lemma NoLongerEmail(users: seq<User>, v: string)
    requires forall i :: 0 <= i < |users| ==> |users[i].email| < |v|
    ensures UsersWithEmailIn(users, [v]) == []
    ensures Unmatched(users, [v]) == [v]
  {
    FilterNone(users, (u: User) => u.email in [v]);
    assert Emails([]) == [];
    assert [v][1..] == [];
  }

  /** As written, the same submission reaches provisioning as one string: it matches
      neither user, so neither is added and the whole text is reported as invalid. */
  lemma TwoLinesAsWritten(members: map<(Id, Id), Role>, a: User, b: User, userId: Id, teamId: Id)
    requires TypedAddress(a.email) && TypedAddress(b.email)
    requires forall k :: k in members ==> k.1 != teamId
    ensures var v := a.email + "\r\n" + b.email;
      && MemberEmails([v]) == [v]
      && Unmatched([a, b], MemberEmails([v])) == [v]
      && forall uid :: (uid, teamId) in Provision(members, [a, b], userId, teamId, MemberEmails([v])) <==> uid == userId
  {
    var v := a.email + "\r\n" + b.email;
    assert a.email + "\r" + "\n" + b.email == v;
    LinesNotSplit(a.email + "\r", b.email);
    NoLongerEmail([a, b], v);
    ProvisionedMembership(members, [a, b], userId, teamId, [v]);
  }

  /** The response for the outcome of provisioning: a partial-success body when some
      emails matched nobody, a redirect to /teams when all matched, 400 on failure. */
  function ProvisionResponse(outcome: Result<Provisioned, Error>): (r: Response)
    ensures r.Json? <==> outcome.Success? && outcome.value.invalidEmails != []
    ensures r.Json? ==> r.team == outcome.value.team && r.invalidEmails == outcome.value.invalidEmails && r.success
    ensures r.Redirect? <==> outcome.Success? && outcome.value.invalidEmails == []
    ensures r.Redirect? ==> r.location == "/teams"
    ensures r.BadRequest? <==> outcome.Failure?
    ensures r.BadRequest? ==> r.status == 400 && r.error == FailureMessage && r.details == outcome.error.message
  {
    match outcome
    case Success(p) =>
      if |p.invalidEmails| > 0 then Json(p.team, p.invalidEmails, true) else Redirect("/teams")
    case Failure(e) => BadRequest(400, FailureMessage, e.message)
  }

  /** `action`: requires a session, then provisions the team from the form.
      `pathname` is the request's path (the default `redirectTo`). The member emails
      are the trimmed submitted values that contain '@' (`MemberEmails`), each value
      taken whole; `TextareaEmails` is the one-per-line reading the form's hint asks for. */
  method Action(db: Database, session: Session, pathname: string, form: NewTeamForm,
                newTeamId: Id, fault: Fault)
    returns (resp: Response)
    requires db.Valid()
    requires newTeamId !in db.teams
    modifies db
    ensures db.Valid()
    ensures db.users == old(db.users)
    ensures RequireUserId(session, pathname, None).Failure? ==>
              resp == AuthRequired(AuthRedirect(pathname))
              && db.teams == old(db.teams) && db.members == old(db.members)
    ensures RequireUserId(session, pathname, None).Success? ==>
              var userId := RequireUserId(session, pathname, None).value;
              var emails := MemberEmails(form.members);
              var team := Team(newTeamId, TeamDataOf(form).name, form.description);
              if fault.FailAt? || !HasUser(old(db.users), userId) then
                var error := if fault.FailAt? && (fault.step == CreateTeam || HasUser(old(db.users), userId))
                             then fault.error else ForeignKeyViolation;
                && resp == BadRequest(400, FailureMessage, error.message)
                && db.teams == old(db.teams) && db.members == old(db.members)
              else
                && resp == ProvisionResponse(Success(Provisioned(team, Unmatched(old(db.users), emails))))
                && db.teams == old(db.teams)[newTeamId := team]
                && db.members == Provision(old(db.members), old(db.users), userId, newTeamId, emails)
  {
    var auth := RequireUserId(session, pathname, None);
    if auth.Failure? {
      return AuthRequired(auth.error);
    }
    var userId := auth.value;
    var teamData := TeamDataOf(form);
    var memberEmails := MemberEmails(form.members);
    var outcome := CreateTeamWithMembers(db, userId, teamData, memberEmails, newTeamId, fault);
    resp := ProvisionResponse(outcome);
  }
}
