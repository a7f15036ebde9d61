/**
 * An in-memory stand-in for the relational store behind the application:
 * the user table, the team table and the team-membership table with its
 * composite (userId, teamId) key.
 */
module Store {
  import opened Wrappers

  type Id = string

  datatype Role = Admin | Member

  /** A user row; `password` holds the bcrypt digest, never the plaintext. */
  datatype User = User(id: Id, email: string, password: string, name: Option<string>)

  datatype Team = Team(id: Id, name: string, description: Option<string>)

  /** The emails of `users`, in order: `users.map(u => u.email)`. */
  function Emails(users: seq<User>): (r: seq<string>)
    ensures |r| == |users|
    ensures forall i :: 0 <= i < |users| ==> r[i] == users[i].email
  {
    if users == [] then [] else [users[0].email] + Emails(users[1..])
  }

  /** `findFirst({ where: { email } })` over the user table. */
  function FindUserByEmail(users: seq<User>, email: string): (r: Option<User>)
    ensures r.Some? ==> r.value in users && r.value.email == email
    ensures r.None? <==> email !in Emails(users)
  {
    if users == [] then None
    else if users[0].email == email then Some(users[0])
    else FindUserByEmail(users[1..], email)
  }

  predicate HasUser(users: seq<User>, id: Id) {
    exists i :: 0 <= i < |users| && users[i].id == id
  }

  /** The constraints the schema enforces: unique user ids and emails, teams stored
      under their own id, and memberships that reference an existing user and team. */
  ghost predicate Consistent(users: seq<User>, teams: map<Id, Team>, members: map<(Id, Id), Role>) {
    && (forall i, j :: 0 <= i < j < |users| ==> users[i].id != users[j].id)
    && (forall i, j :: 0 <= i < j < |users| ==> users[i].email != users[j].email)
    && (forall id :: id in teams ==> teams[id].id == id)
    && (forall k :: k in members ==> HasUser(users, k.0) && k.1 in teams)
  }

  /** The tables, updated in place by the operations that write them. */
  class Database {
    var users: seq<User>
    var teams: map<Id, Team>
    var members: map<(Id, Id), Role>

    ghost predicate Valid()
      reads this
    {
      Consistent(users, teams, members)
    }

    constructor ()
      ensures Valid()
      ensures users == [] && teams == map[] && members == map[]
    {
      users, teams, members := [], map[], map[];
    }
  }
}
