/** `POST /api/team/invite`: the team's administrator replaces its invite code. */
module TeamInviteRoute {
  import opened Wrappers
  import opened Schema
  import opened Tables
  import opened Store
  import opened Auth
  import opened InviteCode

  /** Once a team's code is replaced, the old code finds no team. */
  lemma OldCodeRetired(teams: seq<Team>, t: Team)
    requires UniqueTeamIds(teams) && UniqueInviteCodes(teams) && HasTeam(teams, t.id)
    requires t.inviteCode != FindTeam(teams, t.id).value.inviteCode
    ensures FindTeamByCode(ReplaceTeamRow(teams, t), FindTeam(teams, t.id).value.inviteCode).None?
  {
    var i := TeamIndex(teams, t.id).value;
    var oldCode := teams[i].inviteCode;
    var teams' := ReplaceTeamRow(teams, t);
    forall x | x in teams'
      ensures x.inviteCode != oldCode
    {
      var j :| 0 <= j < |teams'| && teams'[j] == x;
      if j != i {
        assert x == teams[j];
      }
    }
  }

  /** Answers the team's id and new code. A code another team holds is rejected by the
      unique constraint; drawing the team's own current code is accepted. */
  method Rotate(db: Db, caller: Option<AuthUser>, random: Bytes4) returns (r: Reply<(Id, string)>)
    requires db.Valid()
    modifies db
    ensures db.Valid()
    ensures db.users == old(db.users) && db.goals == old(db.goals) && db.checks == old(db.checks)
    ensures db.nextId == old(db.nextId)
    ensures r.Failure? ==> db.teams == old(db.teams)
    ensures caller.None? ==> r == Failure(401, "Unauthorized")
    ensures caller.Some? ==>
      var me := FindUser(db.users, caller.value.id);
      var code := Generate(random);
      if me.None? then r == Failure(404, "User not found")
      else if me.value.role != ADMIN then r == Failure(403, "Only admin can create invite")
      else if me.value.teamId.None? then r == Failure(400, "No team assigned")
      else
        var teamId := me.value.teamId.value;
        var holder := FindTeamByCode(old(db.teams), code);
        && HasTeam(old(db.teams), teamId)
        && if holder.Some? && holder.value.id != teamId then r == Failure(500, "Internal Server Error")
        else
          var team := FindTeam(old(db.teams), teamId).value.(inviteCode := code);
          && r == Success(200, (teamId, code))
          && IsInviteCode(code)
          && db.teams == ReplaceTeamRow(old(db.teams), team)
          && FindTeamByCode(db.teams, code) == Some(team)
          && (forall id :: id != teamId ==> FindTeam(db.teams, id) == FindTeam(old(db.teams), id))
  {
    if caller.None? {
      return Failure(401, "Unauthorized");
    }
    var me := FindUser(db.users, caller.value.id);
    if me.None? {
      return Failure(404, "User not found");
    }
    if me.value.role != ADMIN {
      return Failure(403, "Only admin can create invite");
    }
    if me.value.teamId.None? {
      return Failure(400, "No team assigned");
    }
    var teamId := me.value.teamId.value;
    var code := Generate(random);
    var holder := FindTeamByCode(db.teams, code);
    if holder.Some? && holder.value.id != teamId {
      return Failure(500, "Internal Server Error");
    }
    var team := FindTeam(db.teams, teamId).value.(inviteCode := code);
    forall x | x in db.teams && x.id != teamId
      ensures x.inviteCode != code
    {
      FindTeamByCodeRow(db.teams, x);
    }
    ReplaceTeamRowSpec(db.teams, team);
    db.teams := ReplaceTeamRow(db.teams, team);
    r := Success(200, (teamId, code));
  }
}
