/** `PATCH /api/team/update`: the team's administrator renames it. */
module TeamUpdateRoute {
  import opened Wrappers
  import opened Schema
  import opened Tables
  import opened Store
  import opened Auth

  /** Answers the team's id and new name. */
  method Rename(db: Db, caller: Option<AuthUser>, name: Option<string>) returns (r: Reply<(Id, string)>)
    requires db.Valid()
    modifies db
    ensures db.Valid()
    ensures db.users == old(db.users) && db.goals == old(db.goals) && db.checks == old(db.checks)
    ensures db.nextId == old(db.nextId)
    ensures r.Failure? ==> db.teams == old(db.teams)
    ensures caller.None? ==> r == Failure(401, "Unauthorized")
    ensures caller.Some? && !Truthy(name) ==> r == Failure(400, "name is required")
    ensures caller.Some? && Truthy(name) ==>
      var me := FindUser(db.users, caller.value.id);
      if me.None? || me.value.teamId.None? then r == Failure(400, "No team joined")
      else if me.value.role != ADMIN then r == Failure(403, "Only admin can rename team")
      else
        var teamId := me.value.teamId.value;
        && HasTeam(old(db.teams), teamId)
        && var team := FindTeam(old(db.teams), teamId).value.(name := name.value);
        && r == Success(200, (teamId, name.value))
        && db.teams == ReplaceTeamRow(old(db.teams), team)
        && FindTeam(db.teams, teamId) == Some(team)
        && (forall id :: id != teamId ==> FindTeam(db.teams, id) == FindTeam(old(db.teams), id))
  {
    if caller.None? {
      return Failure(401, "Unauthorized");
    }
    if !Truthy(name) {
      return Failure(400, "name is required");
    }
    var me := FindUser(db.users, caller.value.id);
    if me.None? || me.value.teamId.None? {
      return Failure(400, "No team joined");
    }
    if me.value.role != ADMIN {
      return Failure(403, "Only admin can rename team");
    }
    var teamId := me.value.teamId.value;
    var team := FindTeam(db.teams, teamId).value.(name := name.value);
    forall x | x in db.teams && x.id != teamId
      ensures x.inviteCode != team.inviteCode
    {
      FindTeamByCodeRow(db.teams, FindTeam(db.teams, teamId).value);
    }
    ReplaceTeamRowSpec(db.teams, team);
    db.teams := ReplaceTeamRow(db.teams, team);
    r := Success(200, (teamId, name.value));
  }
}
