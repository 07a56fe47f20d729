/** `POST /api/checks` and `DELETE /api/checks`: record or remove one day's check of a goal
    the caller owns. */
module ChecksRoute {
  import opened Wrappers
  import opened Calendar
  import opened Schema
  import opened Tables
  import opened Store
  import opened Auth

  /** The body's `value` field: left out, JSON `null`, or a number. */
  datatype ValueField = Omitted | NullValue | Given(n: int)

  /** `const { value = 1 } = body` then `Number(value)`: the default applies only to a
      missing field, and `Number(null)` is 0. */
  function NumberOf(v: ValueField): (n: int)
    ensures v.Omitted? ==> n == 1
    ensures v.NullValue? ==> n == 0
    ensures v.Given? ==> n == v.n
  {
    match v
    case Omitted => 1
    case NullValue => 0
    case Given(n) => n
  }

  /** A request to `/api/checks` for a goal the caller owns: a POST with its body fields,
      or a DELETE with its query parameters. */
  datatype CheckRequest = PostCheck(goalId: Id, date: string, value: ValueField) | DeleteCheck(goalId: Id, date: string)

  /** The check table once the handler has run `req` for an owner of the goal: the upsert
      or the delete at the day `date` names, and no change when the date is invalid. */
  function ChecksAfter(req: CheckRequest, cs: seq<Check>, newId: Id): (r: seq<Check>)
    ensures ParseDay(req.date).None? ==> r == cs
    ensures ParseDay(req.date).Some? ==>
      var day := ParseDay(req.date).value;
      // the rows at every other key are those of before
      && DeleteAt(r, req.goalId, day) == DeleteAt(cs, req.goalId, day)
      // a delete leaves no row at the key
      && (req.DeleteCheck? ==> forall c :: c in r ==> !AtKey(c, req.goalId, day))
  {
    match ParseDay(req.date)
    case None => cs
    case Some(day) =>
      match req
      case PostCheck(g, _, v) =>
        UpsertLeavesOthers(cs, g, day, NumberOf(v), newId);
        Upsert(cs, g, day, NumberOf(v), newId)
      case DeleteCheck(g, _) =>
        DeleteAtIdempotent(cs, g, day);
        DeleteAt(cs, g, day)
  }

  /** On a table with one row per (goal, day) key, a POST leaves exactly one row at its key,
      holding the value sent, and the table keeps one row per key. */
  lemma ChecksAfterSpec(req: CheckRequest, cs: seq<Check>, newId: Id)
    requires UniqueCheckKeys(cs) && ParseDay(req.date).Some?
    ensures UniqueCheckKeys(ChecksAfter(req, cs, newId))
    ensures req.PostCheck? ==>
      var rows := RowsAt(ChecksAfter(req, cs, newId), req.goalId, ParseDay(req.date).value);
      |rows| == 1 && rows[0].value == NumberOf(req.value)
  {
    var day := ParseDay(req.date).value;
    match req
    case PostCheck(g, _, v) =>
      UpsertKeepsUnique(cs, g, day, NumberOf(v), newId);
      UpsertSingleRow(cs, g, day, NumberOf(v), newId);
    case DeleteCheck(g, _) =>
      DeleteAtSpec(cs, g, day);
  }

  /** The upsert keeps the check table's constraints when `newId` is above every id. */
  lemma UpsertKeepsRows(cs: seq<Check>, goalId: Id, date: Date, value: int, newId: Id)
    requires UniqueCheckKeys(cs) && UniqueIds(cs, IdOfCheck)
    requires 0 < newId && forall c :: c in cs ==> 0 < c.id < newId
    ensures var r := Upsert(cs, goalId, date, value, newId);
      && UniqueCheckKeys(r) && UniqueIds(r, IdOfCheck)
      && forall c :: c in r ==> 0 < c.id < newId + 1
  {
    UpsertKeepsUnique(cs, goalId, date, value, newId);
    UpsertKeepsIds(cs, goalId, date, value, newId);
  }

  /** `prisma.check.upsert` on the key `(goalId, day)`: the one row there afterwards. */
  method UpsertRow(db: Db, goalId: Id, day: Date, value: int) returns (row: Check)
    requires db.Valid()
    modifies db
    ensures db.Valid()
    ensures db.users == old(db.users) && db.teams == old(db.teams) && db.goals == old(db.goals)
    ensures db.checks == Upsert(old(db.checks), goalId, day, value, old(db.nextId))
    ensures db.nextId == old(db.nextId) + 1
    ensures RowsAt(db.checks, goalId, day) == [row] && row.value == value
    ensures DeleteAt(db.checks, goalId, day) == DeleteAt(old(db.checks), goalId, day)
  {
    var id := db.nextId;
    var checks := Upsert(db.checks, goalId, day, value, id);
    UpsertKeepsRows(db.checks, goalId, day, value, id);
    UpsertSingleRow(db.checks, goalId, day, value, id);
    UpsertLeavesOthers(db.checks, goalId, day, value, id);
    row := RowsAt(checks, goalId, day)[0];
    db.checks, db.nextId := checks, id + 1;
  }

  method Post(db: Db, caller: Option<AuthUser>, goalId: Option<Id>, date: Option<string>, value: ValueField)
    returns (r: Reply<Check>)
    requires db.Valid()
    modifies db
    ensures db.Valid()
    ensures db.users == old(db.users) && db.teams == old(db.teams) && db.goals == old(db.goals)
    ensures r.Failure? ==> db.checks == old(db.checks) && db.nextId == old(db.nextId)
    ensures
      if caller.None? then r == Failure(401, "Unauthorized")
      else if FindUser(db.users, caller.value.id).None? then r == Failure(404, "User not found")
      else if goalId.None? || !Truthy(date) then r == Failure(400, "goalId and date are required")
      else if !OwnsGoal(db.goals, goalId.value, FindUser(db.users, caller.value.id).value.id) then
        r == Failure(404, "Goal not found")
      else if ParseDay(date.value).None? then r == Failure(500, "Internal Server Error")
      else
        var day := ParseDay(date.value).value;
        && r.Success? && r.status == 201
        && db.checks == ChecksAfter(PostCheck(goalId.value, date.value, value), old(db.checks), old(db.nextId))
        && db.checks == Upsert(old(db.checks), goalId.value, day, NumberOf(value), old(db.nextId))
        // exactly one row at the key afterwards, holding the value sent (not a sum)
        && RowsAt(db.checks, goalId.value, day) == [r.body]
        && r.body.value == NumberOf(value)
        // every row at another key is untouched
        && DeleteAt(db.checks, goalId.value, day) == DeleteAt(old(db.checks), goalId.value, day)
  {
    if caller.None? {
      return Failure(401, "Unauthorized");
    }
    var me := FindUser(db.users, caller.value.id);
    if me.None? {
      return Failure(404, "User not found");
    }
    if goalId.None? || !Truthy(date) {
      return Failure(400, "goalId and date are required");
    }
    if !OwnsGoal(db.goals, goalId.value, me.value.id) {
      return Failure(404, "Goal not found");
    }
    var day := ParseDay(date.value);
    if day.None? {
      // an invalid date makes the database call throw
      return Failure(500, "Internal Server Error");
    }
    var row := UpsertRow(db, goalId.value, day.value, NumberOf(value));
    r := Success(201, row);
  }

  /** `prisma.check.deleteMany` on the key `(goalId, day)`. */
  method DeleteRows(db: Db, goalId: Id, day: Date)
    requires db.Valid()
    modifies db
    ensures db.Valid()
    ensures db.users == old(db.users) && db.teams == old(db.teams) && db.goals == old(db.goals)
    ensures db.nextId == old(db.nextId)
    ensures db.checks == DeleteAt(old(db.checks), goalId, day)
    ensures RowsAt(db.checks, goalId, day) == []
    ensures RowsAt(old(db.checks), goalId, day) == [] ==> db.checks == old(db.checks)
  {
    var checks := DeleteAt(db.checks, goalId, day);
    DeleteAtSpec(db.checks, goalId, day);
    DeleteAtKeepsIds(db.checks, goalId, day);
    if RowsAt(db.checks, goalId, day) == [] {
      DeleteAtNothing(db.checks, goalId, day);
    }
    db.checks := checks;
  }

  method Delete(db: Db, caller: Option<AuthUser>, goalId: Option<Id>, date: Option<string>)
    returns (r: Reply<()>)
    requires db.Valid()
    modifies db
    ensures db.Valid()
    ensures db.users == old(db.users) && db.teams == old(db.teams) && db.goals == old(db.goals)
    ensures db.nextId == old(db.nextId)
    ensures r.Failure? ==> db.checks == old(db.checks)
    ensures
      if caller.None? then r == Failure(401, "Unauthorized")
      else if FindUser(db.users, caller.value.id).None? then r == Failure(404, "User not found")
      else if goalId.None? || !Truthy(date) then r == Failure(400, "goalId and date query params are required")
      else if !OwnsGoal(db.goals, goalId.value, FindUser(db.users, caller.value.id).value.id) then
        r == Failure(404, "Goal not found")
      else if ParseDay(date.value).None? then r == Failure(500, "Internal Server Error")
      else
        var day := ParseDay(date.value).value;
        && r == Success(200, ())
        && db.checks == ChecksAfter(DeleteCheck(goalId.value, date.value), old(db.checks), old(db.nextId))
        && db.checks == DeleteAt(old(db.checks), goalId.value, day)
        && RowsAt(db.checks, goalId.value, day) == []
        && (RowsAt(old(db.checks), goalId.value, day) == [] ==> db.checks == old(db.checks))
  {
    if caller.None? {
      return Failure(401, "Unauthorized");
    }
    var me := FindUser(db.users, caller.value.id);
    if me.None? {
      return Failure(404, "User not found");
    }
    if goalId.None? || !Truthy(date) {
      return Failure(400, "goalId and date query params are required");
    }
    if !OwnsGoal(db.goals, goalId.value, me.value.id) {
      return Failure(404, "Goal not found");
    }
    var day := ParseDay(date.value);
    if day.None? {
      return Failure(500, "Internal Server Error");
    }
    DeleteRows(db, goalId.value, day.value);
    r := Success(200, ());
  }
}
