/** `POST /api/team/join`: move the caller into the team holding an invite code. */
module TeamJoinRoute {
  import opened Wrappers
  import opened Schema
  import opened Tables
  import opened Store
  import opened Auth
  import opened Membership

  /** Answers the id of the team joined. Joining replaces any team the caller was in and
      makes the caller a MEMBER, an administrator included. */
  method Join(db: Db, caller: Option<AuthUser>, inviteCode: Option<string>) returns (r: Reply<Id>)
    requires db.Valid()
    modifies db
    ensures db.Valid()
    ensures db.teams == old(db.teams) && db.goals == old(db.goals) && db.checks == old(db.checks)
    ensures r.Failure? ==> db.users == old(db.users) && db.nextId == old(db.nextId)
    ensures caller.None? ==> r == Failure(401, "Unauthorized")
    ensures caller.Some? && !Truthy(inviteCode) ==> r == Failure(400, "inviteCode is required")
    ensures caller.Some? && Truthy(inviteCode) ==>
      match FindTeamByCode(db.teams, inviteCode.value)
      case None => r == Failure(404, "Invalid invite code")
      case Some(team) =>
        && r == Success(200, team.id)
        && db.users == PlaceUser(old(db.users), caller.value, team.id, MEMBER, old(db.nextId))
  {
    if caller.None? {
      return Failure(401, "Unauthorized");
    }
    if !Truthy(inviteCode) {
      return Failure(400, "inviteCode is required");
    }
    var team := FindTeamByCode(db.teams, inviteCode.value);
    if team.None? {
      return Failure(404, "Invalid invite code");
    }
    Place(db, caller.value, team.value.id, MEMBER);
    r := Success(200, team.value.id);
  }
}
