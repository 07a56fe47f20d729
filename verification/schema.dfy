/** The rows of the four tables and the shape of a handler's answer. */
module Schema {
  import opened Wrappers
  import opened Calendar

  /** Primary keys. */
  type Id = nat

  datatype Role = ADMIN | MEMBER

  /** `teamId` is `None` while the user belongs to no team. */
  datatype User = User(id: Id, authUserId: string, email: string, name: Option<string>, role: Role, teamId: Option<Id>)

  datatype Team = Team(id: Id, name: string, inviteCode: string)

  /** `month` is the first day of the month the goal belongs to; `teamId` is the owner's
      team when the goal was created. */
  datatype Goal = Goal(
    id: Id, userId: Id, teamId: Option<Id>,
    title: string, targetCount: int, unit: string,
    category: Option<string>, notes: Option<string>,
    month: Date, startDate: Option<Date>, endDate: Option<Date>,
    createdAt: int)

  datatype Check = Check(id: Id, goalId: Id, date: Date, value: int)

  /** A goal row together with its checks (a query with `include: { checks: true }`). */
  datatype LoadedGoal = LoadedGoal(goal: Goal, checks: seq<Check>)

  /** An HTTP answer: a status with a JSON body, or a status with `{ error }`. */
  datatype Reply<+T> = Success(status: nat, body: T) | Failure(status: nat, error: string)

  /** JavaScript truthiness of an optional string: present and not empty. */
  predicate Truthy(s: Option<string>) {
    s.Some? && s.value != ""
  }
}
