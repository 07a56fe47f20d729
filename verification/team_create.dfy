/** `POST /api/team/create`: open a new team with a fresh invite code and make the caller
    its administrator. */
module TeamCreateRoute {
  import opened Wrappers
  import opened Schema
  import opened Tables
  import opened Store
  import opened Auth
  import opened InviteCode
  import opened Membership

  /** No user belongs to a team whose id was never handed out. */
  lemma NoMembersYet(db: Db)
    requires db.Valid()
    ensures forall u :: u in db.users ==> u.teamId != Some(db.nextId)
  {
    forall u | u in db.users && u.teamId.Some?
      ensures u.teamId != Some(db.nextId)
    {
      var t :| t in db.teams && t.id == u.teamId.value;
    }
  }

  /** The first write of a successful creation: the team row. */
  method AddTeam(db: Db, team: Team)
    requires db.Valid()
    requires team.id == db.nextId
    requires FindTeamByCode(db.teams, team.inviteCode).None?
    modifies db
    ensures db.Valid()
    ensures db.users == old(db.users) && db.goals == old(db.goals) && db.checks == old(db.checks)
    ensures db.teams == old(db.teams) + [team]
    ensures db.nextId == old(db.nextId) + 1
    ensures FindTeamByCode(db.teams, team.inviteCode) == Some(team)
    ensures forall u :: u in db.users ==> u.teamId != Some(team.id)
  {
    InsertTeam(db.teams, team);
    NoMembersYet(db);
    db.teams, db.nextId := db.teams + [team], db.nextId + 1;
  }

  method Create(db: Db, caller: Option<AuthUser>, name: Option<string>, random: Bytes4) returns (r: Reply<Team>)
    requires db.Valid()
    modifies db
    ensures db.Valid()
    ensures db.goals == old(db.goals) && db.checks == old(db.checks)
    ensures r.Failure? ==> db.users == old(db.users) && db.teams == old(db.teams) && db.nextId == old(db.nextId)
    ensures caller.None? ==> r == Failure(401, "Unauthorized")
    ensures caller.Some? && !Truthy(name) ==> r == Failure(400, "name is required")
    ensures caller.Some? && Truthy(name) ==>
      var existing := FindUser(old(db.users), caller.value.id);
      var code := Generate(random);
      if existing.Some? && existing.value.teamId.Some? then
        r == Failure(400, "Already in a team")
      else if FindTeamByCode(old(db.teams), code).Some? then
        // the unique constraint on inviteCode rejects the insert
        r == Failure(500, "Internal Server Error")
      else
        var team := Team(old(db.nextId), name.value, code);
        && r == Success(200, team)
        && db.teams == old(db.teams) + [team]
        && FindTeamByCode(db.teams, code) == Some(team)
        && db.users == PlaceUser(old(db.users), caller.value, team.id, ADMIN, old(db.nextId) + 1)
        // the caller is the new team's only member
        && forall u :: u in db.users && u.teamId == Some(team.id) ==> u.authUserId == caller.value.id
  {
    if caller.None? {
      return Failure(401, "Unauthorized");
    }
    if !Truthy(name) {
      return Failure(400, "name is required");
    }
    var auth := caller.value;
    var code := Generate(random);
    var existing := FindUser(db.users, auth.id);
    if existing.Some? && existing.value.teamId.Some? {
      return Failure(400, "Already in a team");
    }
    if FindTeamByCode(db.teams, code).Some? {
      return Failure(500, "Internal Server Error");
    }
    var team := Team(db.nextId, name.value, code);
    AddTeam(db, team);
    PlaceUserSoleMember(db.users, auth, team.id, ADMIN, db.nextId);
    InsertTeam(old(db.teams), team);
    Place(db, auth, team.id, ADMIN);
    r := Success(200, team);
  }
}
