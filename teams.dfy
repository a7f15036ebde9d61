/**
 * Team provisioning (app/utils/teams.server.ts): one transaction that creates a
 * team with its creator as ADMIN, adds every existing user whose email was
 * invited as MEMBER (skipping rows that already exist), and reports the invited
 * emails that match no user.
 */
module Teams {
  import opened Wrappers
  import opened Seqs
  import opened Store

  datatype TeamData = TeamData(name: string, description: Option<string>)

  /** What the transaction returns on commit. */
  datatype Provisioned = Provisioned(team: Team, invalidEmails: seq<string>)

  /** The statements of the transaction, in order. */
  datatype Step = CreateTeam | FindUsers | CreateMembers

  /** A storage failure (connection lost, timeout, ...) raised by one statement. */
  datatype Fault = NoFault | FailAt(step: Step, error: Error)

  /** The nested admin membership references a user that does not exist. */
  const ForeignKeyViolation := Error("StorageError", "Foreign key constraint failed on TeamMember.userId")

  /** `tx.user.findMany({ where: { email: { in: memberEmails } } })`. */
  function UsersWithEmailIn(users: seq<User>, emails: seq<string>): (r: seq<User>)
    ensures forall u :: u in r <==> u in users && u.email in emails
  {
    Filter(users, (u: User) => u.email in emails)
  }

  /** `tx.teamMember.createMany` with `skipDuplicates`: a MEMBER row of `teamId`
      for each of `users`, leaving every row that already exists as it is. */
  function InsertMembers(members: map<(Id, Id), Role>, users: seq<User>, teamId: Id)
    : (r: map<(Id, Id), Role>)
    ensures forall k :: k in members ==> k in r && r[k] == members[k]
    ensures forall k :: k in r && k !in members ==>
              r[k] == Member && k.1 == teamId && HasUser(users, k.0)
    ensures forall i :: 0 <= i < |users| ==> (users[i].id, teamId) in r
    decreases |users|
  {
    if users == [] then members
    else
      var key := (users[0].id, teamId);
      var r := InsertMembers(if key in members then members else members[key := Member], users[1..], teamId);
      assert forall k :: HasUser(users[1..], k) ==> HasUser(users, k) by {
        forall k | HasUser(users[1..], k) ensures HasUser(users, k) {
          var i :| 0 <= i < |users[1..]| && users[1..][i].id == k;
          assert users[i + 1].id == k;
        }
      }
      assert HasUser(users, users[0].id) by { assert users[0].id == users[0].id; }
      assert forall i :: 1 <= i < |users| ==> users[i] == users[1..][i - 1];
      r
  }

  /** The row-by-row insert of `createMany` with `skipDuplicates`. */
  method CreateMany(members: map<(Id, Id), Role>, users: seq<User>, teamId: Id)
    returns (r: map<(Id, Id), Role>)
    ensures r == InsertMembers(members, users, teamId)
  {
    r := members;
    var i := 0;
    while i < |users|
      invariant 0 <= i <= |users|
      invariant InsertMembers(r, users[i..], teamId) == InsertMembers(members, users, teamId)
    {
      var key := (users[i].id, teamId);
      if key !in r {
        r := r[key := Member];
      }
      assert users[i..][1..] == users[i + 1..];
      i := i + 1;
    }
  }

  /** The membership table after the transaction: the admin row, then the MEMBER rows.
      The creator is the team's admin, every other existing row is kept, and every
      added row belongs to the new team. */
  function Provision(members: map<(Id, Id), Role>, users: seq<User>, userId: Id, teamId: Id,
                     memberEmails: seq<string>): (r: map<(Id, Id), Role>)
    ensures (userId, teamId) in r && r[(userId, teamId)] == Admin
    ensures forall k :: k in members && k != (userId, teamId) ==> k in r && r[k] == members[k]
    ensures forall k :: k in r && k !in members ==> k.1 == teamId
  {
    InsertMembers(members[(userId, teamId) := Admin], UsersWithEmailIn(users, memberEmails), teamId)
  }

  /** `memberEmails.filter(email => !validEmails.includes(email))`: exactly the
      invited emails that are not valid. */
  function InvalidEmails(memberEmails: seq<string>, validEmails: seq<string>): (r: seq<string>)
    ensures |r| <= |memberEmails|
    ensures forall e :: e in r <==> e in memberEmails && e !in validEmails
  {
    Filter(memberEmails, e => e !in validEmails)
  }

  /** The invited emails the transaction reports, given the user table it read:
      never more than were invited, and only invited ones. */
  function Unmatched(users: seq<User>, memberEmails: seq<string>): (r: seq<string>)
    ensures |r| <= |memberEmails|
    ensures forall e :: e in r ==> e in memberEmails
  {
    InvalidEmails(memberEmails, Emails(UsersWithEmailIn(users, memberEmails)))
  }

  /** `createTeamWithMembers`. The changes are staged and written to `db` only when
      every statement has succeeded, so a failure leaves `db` as it was.
      `newTeamId` is the fresh id the store assigns to the team row. */
  method CreateTeamWithMembers(db: Database, userId: Id, teamData: TeamData, memberEmails: seq<string>,
                               newTeamId: Id, fault: Fault)
    returns (r: Result<Provisioned, Error>)
    requires db.Valid()
    requires newTeamId !in db.teams
    modifies db
    ensures db.Valid()
    ensures db.users == old(db.users)
    ensures r.Failure? <==> fault.FailAt? || !HasUser(old(db.users), userId)
    ensures r.Failure? ==> db.teams == old(db.teams) && db.members == old(db.members)
    ensures r.Failure? ==>
      r.error == if fault.FailAt? && (fault.step == CreateTeam || HasUser(old(db.users), userId))
                 then fault.error else ForeignKeyViolation
    ensures r.Success? ==>
      && r.value.team == Team(newTeamId, teamData.name, teamData.description)
      && db.teams == old(db.teams)[newTeamId := r.value.team]
      && db.members == Provision(old(db.members), old(db.users), userId, newTeamId, memberEmails)
      && r.value.invalidEmails == Unmatched(old(db.users), memberEmails)
  {
    // 1. The team, with the creator's ADMIN row as a nested insert.
    if fault.FailAt? && fault.step == CreateTeam {
      return Failure(fault.error);
    }
    if !HasUser(db.users, userId) {
      return Failure(ForeignKeyViolation);
    }
    var team := Team(newTeamId, teamData.name, teamData.description);
    var teams := db.teams[newTeamId := team];
    var members := db.members[(userId, newTeamId) := Admin];

    // 2. The invited users that exist.
    if fault.FailAt? && fault.step == FindUsers {
      return Failure(fault.error);
    }
    var existingUsers := UsersWithEmailIn(db.users, memberEmails);

    // 3. Their MEMBER rows, skipping duplicates.
    if fault.FailAt? && fault.step == CreateMembers {
      return Failure(fault.error);
    }
    members := CreateMany(members, existingUsers, newTeamId);

    // 4. The invited emails that matched nobody.
    var validEmails := Emails(existingUsers);
    var invalidEmails := InvalidEmails(memberEmails, validEmails);

    ProvisionKeepsConsistent(db.users, db.teams, db.members, userId, team, memberEmails);
    db.teams, db.members := teams, members;
    return Success(Provisioned(team, invalidEmails));
  }

  /** The rows the transaction writes keep the store consistent. */
  lemma ProvisionKeepsConsistent(users: seq<User>, teams: map<Id, Team>, members: map<(Id, Id), Role>,
                                 userId: Id, team: Team, memberEmails: seq<string>)
    requires Consistent(users, teams, members)
    requires HasUser(users, userId)
    ensures Consistent(users, teams[team.id := team], Provision(members, users, userId, team.id, memberEmails))
  {
    var existing := UsersWithEmailIn(users, memberEmails);
    var staged := members[(userId, team.id) := Admin];
    forall k | k in Provision(members, users, userId, team.id, memberEmails)
      ensures HasUser(users, k.0) && k.1 in teams[team.id := team]
    {
      if k !in staged {
        var i :| 0 <= i < |existing| && existing[i].id == k.0;
        assert existing[i] in users;
        var j :| 0 <= j < |users| && users[j] == existing[i];
        assert users[j].id == k.0;
      }
    }
  }

  /** The new team's rows: the creator is ADMIN (even when inviting their own email),
      every invited existing user is a member, nobody else is, every other member is
      MEMBER, and the rows of other teams are untouched. */
  lemma ProvisionedMembership(members: map<(Id, Id), Role>, users: seq<User>, userId: Id, teamId: Id,
                              memberEmails: seq<string>)
    requires forall k :: k in members ==> k.1 != teamId
    ensures var r := Provision(members, users, userId, teamId, memberEmails);
      && (userId, teamId) in r && r[(userId, teamId)] == Admin
      && (forall u :: u in users && u.email in memberEmails ==> (u.id, teamId) in r)
      && (forall uid :: (uid, teamId) in r ==>
            uid == userId || exists u :: u in users && u.email in memberEmails && u.id == uid)
      && (forall uid :: (uid, teamId) in r && uid != userId ==> r[(uid, teamId)] == Member)
      && (forall k :: k in r && k.1 != teamId ==> k in members && r[k] == members[k])
      && (forall k :: k in members ==> k in r && r[k] == members[k])
  {
    var existing := UsersWithEmailIn(users, memberEmails);
    var staged := members[(userId, teamId) := Admin];
    var r := Provision(members, users, userId, teamId, memberEmails);
    forall u | u in users && u.email in memberEmails ensures (u.id, teamId) in r {
      var i :| 0 <= i < |existing| && existing[i] == u;
    }
    forall uid | (uid, teamId) in r && uid != userId
      ensures exists u :: u in users && u.email in memberEmails && u.id == uid
    {
      var i :| 0 <= i < |existing| && existing[i].id == uid;
      assert existing[i] in existing;
    }
  }

  /** With no invitations the creator is the team's only member and nothing is reported. */
  lemma NoInvitations(members: map<(Id, Id), Role>, users: seq<User>, userId: Id, teamId: Id)
    requires forall k :: k in members ==> k.1 != teamId
    ensures Unmatched(users, []) == []
    ensures forall uid :: (uid, teamId) in Provision(members, users, userId, teamId, []) <==> uid == userId
  {
    ProvisionedMembership(members, users, userId, teamId, []);
  }

  lemma MatchedEmails(users: seq<User>, memberEmails: seq<string>, e: string)
    requires e in memberEmails
    ensures e in Emails(UsersWithEmailIn(users, memberEmails)) <==> e in Emails(users)
  {
    var existing := UsersWithEmailIn(users, memberEmails);
    if e in Emails(users) {
      var i :| 0 <= i < |users| && Emails(users)[i] == e;
      assert users[i] in existing;
      var j :| 0 <= j < |existing| && existing[j] == users[i];
      assert Emails(existing)[j] == e;
    }
    if e in Emails(existing) {
      var j :| 0 <= j < |existing| && Emails(existing)[j] == e;
      assert existing[j] in users;
      var i :| 0 <= i < |users| && users[i] == existing[j];
      assert Emails(users)[i] == e;
    }
  }

  /** An invited email is reported exactly when no user in the store has it; the
      comparison is exact string equality, so case matters. */
  lemma UnmatchedExactly(users: seq<User>, memberEmails: seq<string>, e: string)
    ensures e in Unmatched(users, memberEmails) <==> e in memberEmails && e !in Emails(users)
    ensures e in Unmatched(users, memberEmails) ==> FindUserByEmail(users, e).None?
  {
    if e in memberEmails {
      MatchedEmails(users, memberEmails, e);
    }
  }

  /** The report keeps the input's order and its duplicates. */
  lemma UnmatchedKeepsOrderAndDuplicates(users: seq<User>, memberEmails: seq<string>, e: string)
    ensures IsSubsequence(Unmatched(users, memberEmails), memberEmails)
    ensures multiset(Unmatched(users, memberEmails))[e]
         == if e in Emails(users) then 0 else multiset(memberEmails)[e]
  {
    var validEmails := Emails(UsersWithEmailIn(users, memberEmails));
    FilterIsSubsequence(memberEmails, e => e !in validEmails);
    FilterMultiplicity(memberEmails, e => e !in validEmails, e);
    if e in memberEmails {
      MatchedEmails(users, memberEmails, e);
    }
  }

  /** Two users a@x.com and b@x.com; inviting a, b and c reports only c. */
  lemma ExampleTwoOfThree(a: User, b: User)
    requires a.email == "a@x.com" && b.email == "b@x.com"
    ensures Unmatched([a, b], ["a@x.com", "b@x.com", "c@x.com"]) == ["c@x.com"]
  {
    var users := [a, b];
    var invited := ["a@x.com", "b@x.com", "c@x.com"];
    assert UsersWithEmailIn(users, invited) == users by {
      FilterAll(users, (u: User) => u.email in invited);
    }
    assert Emails(users) == ["a@x.com", "b@x.com"];
    assert invited[1..] == ["b@x.com", "c@x.com"] && invited[2..] == ["c@x.com"];
  }

  /** Matching is case-sensitive: "A@x.com" does not resolve to the user a@x.com. */
  lemma ExampleCaseSensitive(a: User)
    requires a.email == "a@x.com"
    ensures Unmatched([a], ["A@x.com"]) == ["A@x.com"]
  {
    assert "A@x.com" != "a@x.com" by { assert "A@x.com"[0] != "a@x.com"[0]; }
    assert UsersWithEmailIn([a], ["A@x.com"]) == [];
  }
}
