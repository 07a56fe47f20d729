/** `GET /api/goals` and `POST /api/goals`: list the caller's goals of one month, newest
    first, and create a goal. Both first find or create the caller's user row. */
module GoalsRoute {
  import opened Wrappers
  import opened Calendar
  import opened Schema
  import opened Tables
  import opened Store
  import opened Auth

  // ---- ensureUser ----

  /** The row `ensureUser` creates for a caller it has not seen: email defaults to "",
      role and team take the column defaults (MEMBER, none). */
  function NewUser(auth: AuthUser, id: Id): (u: User)
    ensures u.id == id && u.authUserId == auth.id && u.name == auth.fullName
    ensures u.email == (if auth.email.Some? then auth.email.value else "")
    ensures u.role == MEMBER && u.teamId.None?
  {
    User(id, auth.id, auth.email.GetOr(""), auth.fullName, MEMBER, None)
  }

  /** The user table after `ensureUser`: unchanged when the caller has a row, one row
      longer otherwise. */
  function EnsureUserRows(users: seq<User>, auth: AuthUser, newId: Id): (r: seq<User>)
    ensures users <= r && |r| <= |users| + 1
    ensures FindUser(r, auth.id).Some?
  {
    if FindUser(users, auth.id).Some? then users else users + [NewUser(auth, newId)]
  }

  /** Afterwards the caller has exactly one row; at most one row was added and every
      other caller's lookup is unaffected. */
  lemma EnsureUserRowsSpec(users: seq<User>, auth: AuthUser, newId: Id)
    requires UniqueAuthIds(users)
    ensures var users' := EnsureUserRows(users, auth, newId);
      && UniqueAuthIds(users')
      && FindUser(users', auth.id).Some?
      && (FindUser(users, auth.id).Some? ==> FindUser(users', auth.id) == FindUser(users, auth.id))
      && (FindUser(users, auth.id).None? ==> FindUser(users', auth.id) == Some(NewUser(auth, newId)))
      && |users'| <= |users| + 1
      && forall a :: a != auth.id ==> FindUser(users', a) == FindUser(users, a)
  {
    if FindUser(users, auth.id).None? {
      InsertUser(users, NewUser(auth, newId));
    }
  }

  /** A second `ensureUser` for the same caller creates nothing. */
  lemma EnsureUserIdempotent(users: seq<User>, auth: AuthUser, id1: Id, id2: Id)
    requires UniqueAuthIds(users)
    ensures EnsureUserRows(EnsureUserRows(users, auth, id1), auth, id2) == EnsureUserRows(users, auth, id1)
  {
    EnsureUserRowsSpec(users, auth, id1);
  }

  method EnsureUser(db: Db, auth: AuthUser) returns (me: User)
    requires db.Valid()
    modifies db
    ensures db.Valid()
    ensures db.teams == old(db.teams) && db.goals == old(db.goals) && db.checks == old(db.checks)
    ensures db.users == EnsureUserRows(old(db.users), auth, old(db.nextId))
    ensures FindUser(db.users, auth.id) == Some(me)
    ensures FindUser(old(db.users), auth.id).Some? ==> me == FindUser(old(db.users), auth.id).value && db.nextId == old(db.nextId)
    ensures FindUser(old(db.users), auth.id).None? ==> me == NewUser(auth, old(db.nextId)) && db.nextId == old(db.nextId) + 1
  {
    EnsureUserRowsSpec(db.users, auth, db.nextId);
    var existing := FindUser(db.users, auth.id);
    if existing.Some? {
      return existing.value;
    }
    me := NewUser(auth, db.nextId);
    db.users := db.users + [me];
    db.nextId := db.nextId + 1;
  }

  // ---- listing ----

  /** `month` query parameter or body field: "YYYY-MM" names its first day; when left out
      the current month (`current`, read from the clock) is used. */
  function MonthArg(month: Option<string>, current: Date): (r: Option<Date>)
    ensures !Truthy(month) ==> r == Some(current)
    ensures Truthy(month) ==>
      (r.Some? <==> ParseMonthKey(month.value).Some? && 1 <= ParseMonthKey(month.value).value.1 <= 12)
    ensures Truthy(month) && r.Some? ==>
      ParseMonthKey(month.value) == Some((r.value.year, r.value.month)) && r.value.day == 1
  {
    if Truthy(month) then MonthStart(month.value) else Some(current)
  }

  /** `where: { userId, month }` */
  function MonthGoals(goals: seq<Goal>, userId: Id, month: Date): (r: seq<Goal>)
    ensures forall g :: g in r <==> g in goals && g.userId == userId && g.month == month
    ensures forall g :: multiset(r)[g] == if g.userId == userId && g.month == month then multiset(goals)[g] else 0
  {
    if goals == [] then []
    else
      assert goals == [goals[0]] + goals[1..];
      var rest := MonthGoals(goals[1..], userId, month);
      if goals[0].userId == userId && goals[0].month == month then [goals[0]] + rest else rest
  }

  /** `orderBy: { createdAt: "desc" }` holds of the sequence. */
  ghost predicate NewestFirst(gs: seq<Goal>) {
    forall i, j :: 0 <= i < j < |gs| ==> gs[i].createdAt >= gs[j].createdAt
  }

  function InsertByCreated(g: Goal, gs: seq<Goal>): seq<Goal> {
    if gs == [] || g.createdAt >= gs[0].createdAt then [g] + gs
    else [gs[0]] + InsertByCreated(g, gs[1..])
  }

  function SortNewestFirst(gs: seq<Goal>): seq<Goal> {
    if gs == [] then [] else InsertByCreated(gs[0], SortNewestFirst(gs[1..]))
  }

  lemma NewestFirstCons(h: Goal, s: seq<Goal>)
    requires NewestFirst(s)
    requires forall x :: x in s ==> h.createdAt >= x.createdAt
    ensures NewestFirst([h] + s)
  {
    forall i, j | 0 <= i < j < |[h] + s|
      ensures ([h] + s)[i].createdAt >= ([h] + s)[j].createdAt
    {
      if i == 0 {
        assert ([h] + s)[j] == s[j - 1];
        assert s[j - 1] in s;
      } else {
        assert ([h] + s)[i] == s[i - 1] && ([h] + s)[j] == s[j - 1];
      }
    }
  }

  lemma {:induction false} InsertByCreatedSpec(g: Goal, gs: seq<Goal>)
    requires NewestFirst(gs)
    ensures multiset(InsertByCreated(g, gs)) == multiset(gs) + multiset{g}
    ensures NewestFirst(InsertByCreated(g, gs))
  {
    if gs == [] || g.createdAt >= gs[0].createdAt {
      forall x | x in gs
        ensures g.createdAt >= x.createdAt
      {
        var k :| 0 <= k < |gs| && gs[k] == x;
        assert gs[0].createdAt >= gs[k].createdAt || k == 0;
      }
      NewestFirstCons(g, gs);
    } else {
      var rest := gs[1..];
      assert NewestFirst(rest) by {
        forall i, j | 0 <= i < j < |rest|
          ensures rest[i].createdAt >= rest[j].createdAt
        {
          assert rest[i] == gs[i + 1] && rest[j] == gs[j + 1];
        }
      }
      InsertByCreatedSpec(g, rest);
      assert gs == [gs[0]] + rest;
      var ins := InsertByCreated(g, rest);
      forall x | x in ins
        ensures gs[0].createdAt >= x.createdAt
      {
        assert x in multiset(ins);
        if x != g {
          assert x in multiset(rest);
          var k :| 0 <= k < |rest| && rest[k] == x;
          assert gs[k + 1] == x;
        }
      }
      NewestFirstCons(gs[0], ins);
    }
  }

  /** The sort puts the goals newest first and neither adds nor drops one. */
  lemma {:induction false} SortNewestFirstSpec(gs: seq<Goal>)
    ensures multiset(SortNewestFirst(gs)) == multiset(gs)
    ensures NewestFirst(SortNewestFirst(gs))
  {
    if gs != [] {
      SortNewestFirstSpec(gs[1..]);
      InsertByCreatedSpec(gs[0], SortNewestFirst(gs[1..]));
      assert gs == [gs[0]] + gs[1..];
    }
  }

  /** What `GET` answers for a user and month. */
  function ListGoals(goals: seq<Goal>, checks: seq<Check>, userId: Id, month: Date): seq<LoadedGoal> {
    WithChecks(SortNewestFirst(MonthGoals(goals, userId, month)), checks)
  }

  /** The listing holds exactly the user's goals of that month, each as often as in the
      table (so once, and no two with the same id, when the table's ids are unique), newest
      first, each with its own checks. */
  lemma ListGoalsSpec(goals: seq<Goal>, checks: seq<Check>, userId: Id, month: Date)
    ensures var r := ListGoals(goals, checks, userId, month);
      var listed := seq(|r|, i requires 0 <= i < |r| => r[i].goal);
      && multiset(listed) == multiset(MonthGoals(goals, userId, month))
      && (forall g :: multiset(listed)[g] == if g.userId == userId && g.month == month then multiset(goals)[g] else 0)
      && (UniqueIds(goals, IdOfGoal) ==> UniqueIds(listed, IdOfGoal))
      && (forall g :: g in listed <==> g in goals && g.userId == userId && g.month == month)
      && NewestFirst(listed)
      && forall i :: 0 <= i < |r| ==> r[i].checks == ChecksOf(checks, r[i].goal.id)
  {
    var r := ListGoals(goals, checks, userId, month);
    var listed := seq(|r|, i requires 0 <= i < |r| => r[i].goal);
    assert listed == SortNewestFirst(MonthGoals(goals, userId, month));
    SortedMonthGoals(goals, userId, month);
  }

  /** The sorted month goals, before their checks are attached. */
  lemma SortedMonthGoals(goals: seq<Goal>, userId: Id, month: Date)
    ensures var sorted := SortNewestFirst(MonthGoals(goals, userId, month));
      && multiset(sorted) == multiset(MonthGoals(goals, userId, month))
      && (forall g :: multiset(sorted)[g] == if g.userId == userId && g.month == month then multiset(goals)[g] else 0)
      && (UniqueIds(goals, IdOfGoal) ==> UniqueIds(sorted, IdOfGoal))
      && (forall g :: g in sorted <==> g in goals && g.userId == userId && g.month == month)
      && NewestFirst(sorted)
  {
    var picked := MonthGoals(goals, userId, month);
    var sorted := SortNewestFirst(picked);
    SortNewestFirstSpec(picked);
    if UniqueIds(goals, IdOfGoal) {
      UniqueIdsSub(sorted, goals, IdOfGoal);
    }
    forall g
      ensures g in sorted <==> g in picked
    {
      assert g in sorted <==> g in multiset(sorted);
      assert g in picked <==> g in multiset(picked);
    }
  }

  method Get(db: Db, caller: Option<AuthUser>, month: Option<string>, current: Date)
    returns (r: Reply<seq<LoadedGoal>>)
    requires db.Valid()
    modifies db
    ensures db.Valid()
    ensures db.teams == old(db.teams) && db.goals == old(db.goals) && db.checks == old(db.checks)
    ensures caller.None? ==> r == Failure(401, "Unauthorized") && db.users == old(db.users)
    ensures caller.Some? ==>
      && db.users == EnsureUserRows(old(db.users), caller.value, old(db.nextId))
      && FindUser(db.users, caller.value.id).Some?
      && r == match MonthArg(month, current)
        case None => Failure(500, "Internal Server Error")
        case Some(m) => Success(200, ListGoals(db.goals, db.checks, FindUser(db.users, caller.value.id).value.id, m))
  {
    if caller.None? {
      return Failure(401, "Unauthorized");
    }
    var monthStart := MonthArg(month, current);
    var me := EnsureUser(db, caller.value);
    if monthStart.None? {
      // the query with an invalid date throws, after the user row was ensured
      return Failure(500, "Internal Server Error");
    }
    r := Success(200, ListGoals(db.goals, db.checks, me.id, monthStart.value));
  }

  // ---- creation ----

  /** The JSON body of `POST`; absent, null and "" fields are all `None` or "" here,
      `targetCount` is the number the client sent. */
  datatype GoalInput = GoalInput(
    title: Option<string>, targetCount: Option<int>, unit: Option<string>,
    category: Option<string>, notes: Option<string>, month: Option<string>,
    startDate: Option<string>, endDate: Option<string>)

  /** `!title || !targetCount || !unit` is false: a targetCount of 0 is missing too. */
  predicate HasRequiredFields(input: GoalInput)
    ensures HasRequiredFields(input) ==>
      input.title.Some? && input.unit.Some? && input.targetCount.Some? && input.targetCount.value != 0
  {
    Truthy(input.title) && input.targetCount.Some? && input.targetCount.value != 0 && Truthy(input.unit)
  }

  datatype DateArg = NoDate | OnDay(day: Date) | BadDate

  /** `s ? new Date(s) : undefined` */
  function ReadDateArg(s: Option<string>): DateArg {
    if !Truthy(s) then NoDate
    else match ParseDay(s.value)
      case Some(d) => OnDay(d)
      case None => BadDate
  }

  function DateColumn(a: DateArg): Option<Date> {
    if a.OnDay? then Some(a.day) else None
  }

  method Post(db: Db, caller: Option<AuthUser>, input: GoalInput, current: Date, now: int)
    returns (r: Reply<Goal>)
    requires db.Valid()
    modifies db
    ensures db.Valid()
    ensures db.teams == old(db.teams) && db.checks == old(db.checks)
    ensures caller.None? ==> r == Failure(401, "Unauthorized") && db.users == old(db.users) && db.goals == old(db.goals)
    ensures caller.Some? && !HasRequiredFields(input) ==>
      r == Failure(400, "title, targetCount, unit are required") && db.users == old(db.users) && db.goals == old(db.goals)
    ensures caller.Some? && HasRequiredFields(input) ==>
      && db.users == EnsureUserRows(old(db.users), caller.value, old(db.nextId))
      && FindUser(db.users, caller.value.id).Some?
      && var me := FindUser(db.users, caller.value.id).value;
      if MonthArg(input.month, current).None? || ReadDateArg(input.startDate).BadDate? || ReadDateArg(input.endDate).BadDate? then
        r == Failure(500, "Internal Server Error") && db.goals == old(db.goals)
      else
        && r.Success? && r.status == 201
        && db.goals == old(db.goals) + [r.body]
        && r.body.userId == me.id
        && r.body.teamId == me.teamId
        && r.body.title == input.title.value && r.body.unit == input.unit.value
        && r.body.targetCount == input.targetCount.value
        && r.body.category == input.category && r.body.notes == input.notes
        && r.body.month == MonthArg(input.month, current).value
        && r.body.startDate == DateColumn(ReadDateArg(input.startDate))
        && r.body.endDate == DateColumn(ReadDateArg(input.endDate))
        && r.body.createdAt == now
        && forall g :: g in old(db.goals) ==> g.id != r.body.id
  {
    if caller.None? {
      return Failure(401, "Unauthorized");
    }
    if !HasRequiredFields(input) {
      return Failure(400, "title, targetCount, unit are required");
    }
    var monthStart := MonthArg(input.month, current);
    var me := EnsureUser(db, caller.value);
    var startDate, endDate := ReadDateArg(input.startDate), ReadDateArg(input.endDate);
    if monthStart.None? || startDate.BadDate? || endDate.BadDate? {
      return Failure(500, "Internal Server Error");
    }
    var goal := Goal(db.nextId, me.id, me.teamId, input.title.value, input.targetCount.value, input.unit.value,
      input.category, input.notes, monthStart.value, DateColumn(startDate), DateColumn(endDate), now);
    db.goals := db.goals + [goal];
    db.nextId := db.nextId + 1;
    r := Success(201, goal);
  }
}
