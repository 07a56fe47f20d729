/** `GET /api/dashboard/team`: the caller's team with a progress summary of every member.
    The handler only reads the store. */
module TeamDashboardRoute {
  import opened Wrappers
  import opened Schema
  import opened Tables
  import opened Store
  import opened Auth
  import opened Progress

  /** The team as shown: its invite code only to an administrator. */
  datatype TeamView = TeamView(id: Id, name: string, inviteCode: Option<string>)

  datatype Dashboard = Dashboard(team: TeamView, members: seq<MemberSummary>, meRole: Role)

  /** `team.users.map(...)`, each user's goals loaded with their checks. */
  function MemberSummaries(users: seq<User>, goals: seq<Goal>, checks: seq<Check>): (r: seq<MemberSummary>)
    ensures |r| == |users|
    ensures forall i :: 0 <= i < |users| ==>
      r[i] == Summarize(users[i], WithChecks(GoalsOf(goals, users[i].id), checks))
  {
    if users == [] then []
    else
      var head := Summarize(users[0], WithChecks(GoalsOf(goals, users[0].id), checks));
      [head] + MemberSummaries(users[1..], goals, checks)
  }

  function Get(db: Db, caller: Option<AuthUser>): (r: Reply<Dashboard>)
    reads db
    ensures caller.None? ==> r == Failure(401, "Unauthorized")
    ensures caller.Some? ==>
      var me := FindUser(db.users, caller.value.id);
      if me.None? || me.value.teamId.None? then r == Failure(400, "No team joined")
      else if !HasTeam(db.teams, me.value.teamId.value) then r == Failure(404, "Team not found")
      else
        var team := FindTeam(db.teams, me.value.teamId.value).value;
        && r.Success? && r.status == 200
        && r.body.meRole == me.value.role
        && r.body.team.id == team.id && r.body.team.name == team.name
        && (r.body.team.inviteCode.Some? <==> me.value.role == ADMIN)
        && (r.body.team.inviteCode.Some? ==> r.body.team.inviteCode.value == team.inviteCode)
        && r.body.members == MemberSummaries(UsersInTeam(db.users, team.id), db.goals, db.checks)
  {
    if caller.None? then Failure(401, "Unauthorized")
    else
      var me := FindUser(db.users, caller.value.id);
      if me.None? || me.value.teamId.None? then Failure(400, "No team joined")
      else match FindTeam(db.teams, me.value.teamId.value)
        case None => Failure(404, "Team not found")
        case Some(team) =>
          var code := if me.value.role == ADMIN then Some(team.inviteCode) else None;
          Success(200, Dashboard(TeamView(team.id, team.name, code),
            MemberSummaries(UsersInTeam(db.users, team.id), db.goals, db.checks), me.value.role))
  }

  /** One summary per member of the team, each counting that member's own goals. */
  lemma OneSummaryPerMember(db: Db, caller: Option<AuthUser>)
    requires Get(db, caller).Success?
    ensures var r := Get(db, caller).body;
      var members := UsersInTeam(db.users, r.team.id);
      && |r.members| == |members|
      && forall i :: 0 <= i < |members| ==>
        && r.members[i].id == members[i].id
        && members[i].teamId == Some(r.team.id)
        && r.members[i].goals == |GoalsOf(db.goals, members[i].id)|
        && r.members[i].completion <= 100
  {
    var r := Get(db, caller).body;
    var members := UsersInTeam(db.users, r.team.id);
    forall i | 0 <= i < |members|
      ensures r.members[i].id == members[i].id && members[i].teamId == Some(r.team.id)
      ensures r.members[i].goals == |GoalsOf(db.goals, members[i].id)|
      ensures r.members[i].completion <= 100
    {
      assert members[i] in members;
      SummarizeSpec(members[i], WithChecks(GoalsOf(db.goals, members[i].id), db.checks));
    }
  }
}
