/** The database the handlers share: four tables and the source of fresh ids. */
module Store {
  import opened Wrappers
  import opened Schema
  import opened Tables

  class Db {
    var users: seq<User>
    var teams: seq<Team>
    var goals: seq<Goal>
    var checks: seq<Check>
    /** Every id handed out so far is below `nextId`. Ids are opaque keys that are never
        falsy; here they are drawn from a counter that starts at 1. */
    var nextId: Id

    /** The table constraints: unique primary keys, unique `authUserId`, unique team
        invite codes, unique `(goalId, date)` per check, a user's `teamId` names an existing team, and
        every row's id was handed out before. */
    ghost predicate Valid()
      reads this
    {
      && UniqueAuthIds(users)
      && UniqueTeamIds(teams)
      && UniqueInviteCodes(teams)
      && UniqueCheckKeys(checks)
      && UniqueIds(users, IdOfUser)
      && UniqueIds(goals, IdOfGoal)
      && UniqueIds(checks, IdOfCheck)
      && 0 < nextId
      && (forall t :: t in teams ==> 0 < t.id < nextId)
      && (forall u :: u in users ==> 0 < u.id < nextId)
      && (forall g :: g in goals ==> 0 < g.id < nextId)
      && (forall c :: c in checks ==> 0 < c.id < nextId)
      && (forall u :: u in users && u.teamId.Some? ==> HasTeam(teams, u.teamId.value))
    }

    constructor ()
      ensures Valid()
      ensures users == [] && teams == [] && goals == [] && checks == []
    {
      users, teams, goals, checks := [], [], [], [];
      nextId := 1;
    }
  }
}
