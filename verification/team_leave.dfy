/** `POST /api/team/leave`: take the caller out of their team. */
module TeamLeaveRoute {
  import opened Wrappers
  import opened Schema
  import opened Tables
  import opened Store
  import opened Auth

  /** The team row stays, even when its last member or its administrator leaves. */
  method Leave(db: Db, caller: Option<AuthUser>) returns (r: Reply<()>)
    requires db.Valid()
    modifies db
    ensures db.Valid()
    ensures db.teams == old(db.teams) && db.goals == old(db.goals) && db.checks == old(db.checks)
    ensures db.nextId == old(db.nextId)
    ensures r.Failure? ==> db.users == old(db.users)
    ensures caller.None? ==> r == Failure(401, "Unauthorized")
    ensures caller.Some? ==>
      var existing := FindUser(old(db.users), caller.value.id);
      if existing.None? || existing.value.teamId.None? then
        r == Failure(400, "No team joined")
      else
        && r == Success(200, ())
        && db.users == UpdateUser(old(db.users), caller.value.id, None, MEMBER)
        && FindUser(db.users, caller.value.id) == Some(existing.value.(teamId := None, role := MEMBER))
        && (forall a :: a != caller.value.id ==> FindUser(db.users, a) == FindUser(old(db.users), a))
  {
    if caller.None? {
      return Failure(401, "Unauthorized");
    }
    var existing := FindUser(db.users, caller.value.id);
    if existing.None? || existing.value.teamId.None? {
      return Failure(400, "No team joined");
    }
    UpdateUserSpec(db.users, caller.value.id, None, MEMBER);
    ghost var oldUsers := db.users;
    db.users := UpdateUser(db.users, caller.value.id, None, MEMBER);
    forall u | u in db.users
      ensures 0 < u.id < db.nextId
      ensures u.teamId.Some? ==> HasTeam(db.teams, u.teamId.value)
    {
      if u !in oldUsers {
        FindUserRow(db.users, u);
        FindUserRow(oldUsers, existing.value);
      }
    }
    r := Success(200, ());
  }

  /** Leaving twice in a row: the second call finds no team to leave. */
  method LeaveTwice(db: Db, caller: Option<AuthUser>) returns (first: Reply<()>, second: Reply<()>)
    requires db.Valid()
    modifies db
    ensures db.Valid()
    ensures first.Success? ==> second == Failure(400, "No team joined")
    ensures caller.Some? && first.Failure? ==> second == first
  {
    first := Leave(db, caller);
    second := Leave(db, caller);
  }
}
