/** Putting the caller into a team, shared by team creation and joining: both create the
    caller's user row when there is none and otherwise update its team and role. */
module Membership {
  import opened Wrappers
  import opened Schema
  import opened Tables
  import opened Store
  import opened Auth

  /** The row created for a caller with no user row yet. */
  function NewMember(auth: AuthUser, id: Id, teamId: Id, role: Role): (u: User)
    ensures u.id == id && u.authUserId == auth.id && u.name == Some(DisplayName(auth))
    ensures u.email == (if auth.email.Some? then auth.email.value else "")
    ensures u.role == role && u.teamId == Some(teamId)
  {
    User(id, auth.id, auth.email.GetOr(""), Some(DisplayName(auth)), role, Some(teamId))
  }

  /** The user table once the caller was placed in team `teamId` with `role`. */
  function PlaceUser(users: seq<User>, auth: AuthUser, teamId: Id, role: Role, newId: Id): (r: seq<User>)
    ensures |r| == |users| + (if FindUser(users, auth.id).None? then 1 else 0)
    ensures forall u :: u in r && u.authUserId != auth.id ==> u in users
  {
    if FindUser(users, auth.id).None? then users + [NewMember(auth, newId, teamId, role)]
    else UpdateUser(users, auth.id, Some(teamId), role)
  }

  /** Afterwards the caller's one row has that team and role, a row is added only when the
      caller had none, and nobody else's row changed. */
  lemma PlaceUserSpec(users: seq<User>, auth: AuthUser, teamId: Id, role: Role, newId: Id)
    requires UniqueAuthIds(users)
    ensures var users' := PlaceUser(users, auth, teamId, role, newId);
      && UniqueAuthIds(users')
      && FindUser(users', auth.id).Some?
      && FindUser(users', auth.id).value.role == role
      && FindUser(users', auth.id).value.teamId == Some(teamId)
      && (FindUser(users, auth.id).Some? ==> FindUser(users', auth.id).value.id == FindUser(users, auth.id).value.id)
      && |users'| == |users| + (if FindUser(users, auth.id).None? then 1 else 0)
      && (forall a :: a != auth.id ==> FindUser(users', a) == FindUser(users, a))
      && (forall u :: u in users' ==> u in users || u == FindUser(users', auth.id).value)
  {
    var users' := PlaceUser(users, auth, teamId, role, newId);
    if FindUser(users, auth.id).None? {
      InsertUser(users, NewMember(auth, newId, teamId, role));
    } else {
      UpdateUserSpec(users, auth.id, Some(teamId), role);
      forall u | u in users' && u !in users
        ensures u == FindUser(users', auth.id).value
      {
        FindUserRow(users', u);
      }
    }
  }

  /** Placed in a team nobody belonged to, the caller is its only member. */
  lemma PlaceUserSoleMember(users: seq<User>, auth: AuthUser, teamId: Id, role: Role, newId: Id)
    requires UniqueAuthIds(users)
    requires forall u :: u in users ==> u.teamId != Some(teamId)
    ensures forall u :: u in PlaceUser(users, auth, teamId, role, newId) && u.teamId == Some(teamId) ==> u.authUserId == auth.id
  {
    PlaceUserSpec(users, auth, teamId, role, newId);
  }

  /** The writes that place the caller: the row keeps the store's constraints when the
      team exists. */
  method Place(db: Db, auth: AuthUser, teamId: Id, role: Role)
    requires db.Valid() && HasTeam(db.teams, teamId)
    modifies db
    ensures db.Valid()
    ensures db.teams == old(db.teams) && db.goals == old(db.goals) && db.checks == old(db.checks)
    ensures db.users == PlaceUser(old(db.users), auth, teamId, role, old(db.nextId))
    ensures db.nextId == old(db.nextId) + 1
  {
    PlaceUserSpec(db.users, auth, teamId, role, db.nextId);
    ghost var oldUsers := db.users;
    var users' := PlaceUser(db.users, auth, teamId, role, db.nextId);
    db.users, db.nextId := users', db.nextId + 1;
    forall u | u in db.users
      ensures 0 < u.id < db.nextId
      ensures u.teamId.Some? ==> HasTeam(db.teams, u.teamId.value)
    {
      if u !in oldUsers && FindUser(oldUsers, auth.id).Some? {
        FindUserRow(oldUsers, FindUser(oldUsers, auth.id).value);
      }
    }
  }
}
