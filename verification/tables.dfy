/** Queries and updates on the tables, as the handlers issue them to the database. */
module Tables {
  import opened Wrappers
  import opened Calendar
  import opened Schema

  /** The first position whose element satisfies `p`. */
  function FirstIndex<T>(s: seq<T>, p: T -> bool): (r: Option<nat>)
    ensures r.Some? ==> r.value < |s| && p(s[r.value]) && forall j :: 0 <= j < r.value ==> !p(s[j])
    ensures r.None? ==> forall j :: 0 <= j < |s| ==> !p(s[j])
  {
    if s == [] then None
    else if p(s[0]) then Some(0)
    else match FirstIndex(s[1..], p)
      case Some(i) => Some(i + 1)
      case None => None
  }

  /** The first match is determined by where the predicate holds. */
  lemma FirstIndexSame<T>(s: seq<T>, s': seq<T>, p: T -> bool)
    requires |s| == |s'|
    requires forall j :: 0 <= j < |s| ==> p(s[j]) == p(s'[j])
    ensures FirstIndex(s, p) == FirstIndex(s', p)
  {
  }

  lemma FirstIndexUnique<T>(s: seq<T>, p: T -> bool, i: nat)
    requires i < |s| && p(s[i])
    requires forall j :: 0 <= j < |s| && j != i ==> !p(s[j])
    ensures FirstIndex(s, p) == Some(i)
  {
  }

  // ---- primary keys ----

  /** No two rows of a table share a primary key. */
  ghost predicate UniqueIds<T>(s: seq<T>, id: T -> Id) {
    forall i, j :: 0 <= i < j < |s| ==> id(s[i]) != id(s[j])
  }

  function IdOfUser(u: User): Id { u.id }
  function IdOfGoal(g: Goal): Id { g.id }
  function IdOfCheck(c: Check): Id { c.id }

  /** A row whose key no other row has can be put in front. */
  lemma UniqueIdsCons<T>(x: T, s: seq<T>, id: T -> Id)
    requires UniqueIds(s, id) && forall y :: y in s ==> id(y) != id(x)
    ensures UniqueIds([x] + s, id)
  {
    forall i, j | 0 <= i < j < |[x] + s|
      ensures id(([x] + s)[i]) != id(([x] + s)[j])
    {
      assert ([x] + s)[j] == s[j - 1];
      if i > 0 {
        assert ([x] + s)[i] == s[i - 1];
      }
    }
  }

  /** Appending a row with a fresh key keeps the keys unique. */
  lemma UniqueIdsAppend<T>(s: seq<T>, x: T, id: T -> Id)
    requires UniqueIds(s, id) && forall y :: y in s ==> id(y) != id(x)
    ensures UniqueIds(s + [x], id)
  {
    forall i, j | 0 <= i < j < |s + [x]|
      ensures id((s + [x])[i]) != id((s + [x])[j])
    {
      assert (s + [x])[i] == s[i];
      if j < |s| {
        assert (s + [x])[j] == s[j];
      }
    }
  }

  /** The rows after the first keep unique keys, none of them the first row's. */
  lemma UniqueIdsTail<T>(s: seq<T>, id: T -> Id)
    requires s != [] && UniqueIds(s, id)
    ensures UniqueIds(s[1..], id)
    ensures forall y :: y in s[1..] ==> id(y) != id(s[0])
  {
    var tail := s[1..];
    forall i, j | 0 <= i < j < |tail|
      ensures id(tail[i]) != id(tail[j])
    {
      assert tail[i] == s[i + 1] && tail[j] == s[j + 1];
    }
    forall y | y in tail
      ensures id(y) != id(s[0])
    {
      var k :| 0 <= k < |tail| && tail[k] == y;
      assert s[k + 1] == y;
    }
  }

  /** With unique keys, a row occurs at most once and its key determines it. */
  lemma {:induction false} UniqueIdsOnce<T>(s: seq<T>, id: T -> Id)
    requires UniqueIds(s, id)
    ensures forall x :: multiset(s)[x] <= 1
    ensures forall x, y :: x in s && y in s && id(x) == id(y) ==> x == y
  {
    forall x, y | x in s && y in s && id(x) == id(y)
      ensures x == y
    {
      var p :| 0 <= p < |s| && s[p] == x;
      var q :| 0 <= q < |s| && s[q] == y;
    }
    if s != [] {
      var tail := s[1..];
      UniqueIdsTail(s, id);
      UniqueIdsOnce(tail, id);
      assert s == [s[0]] + tail;
      assert multiset(s) == multiset{s[0]} + multiset(tail);
    }
  }

  /** Two positions holding the same row count it twice. */
  lemma CountTwice<T>(r: seq<T>, i: nat, j: nat)
    requires i < j < |r|
    ensures r[i] == r[j] ==> multiset(r)[r[i]] >= 2
  {
    assert r == r[..j] + r[j..];
    assert r[..j][i] == r[i] && r[j..][0] == r[j];
    assert multiset(r) == multiset(r[..j]) + multiset(r[j..]);
  }

  /** Keeping some of the rows (each at most as often as before) keeps the keys unique. */
  lemma UniqueIdsSub<T>(r: seq<T>, s: seq<T>, id: T -> Id)
    requires UniqueIds(s, id) && multiset(r) <= multiset(s)
    ensures UniqueIds(r, id)
  {
    UniqueIdsOnce(s, id);
    forall i, j | 0 <= i < j < |r|
      ensures id(r[i]) != id(r[j])
    {
      CountTwice(r, i, j);
      assert r[i] in multiset(s) && r[j] in multiset(s);
    }
  }

  // ---- users ----

  ghost predicate UniqueAuthIds(users: seq<User>) {
    forall i, j :: 0 <= i < j < |users| ==> users[i].authUserId != users[j].authUserId
  }

  /** Position of the user row with this `authUserId`. */
  function UserIndex(users: seq<User>, authUserId: string): (r: Option<nat>)
    ensures r.Some? ==> r.value < |users| && users[r.value].authUserId == authUserId
    ensures r.None? ==> forall u :: u in users ==> u.authUserId != authUserId
  {
    FirstIndex(users, (u: User) => u.authUserId == authUserId)
  }

  /** `prisma.user.findUnique({ where: { authUserId } })` */
  function FindUser(users: seq<User>, authUserId: string): (r: Option<User>)
    ensures r.Some? ==> r.value in users && r.value.authUserId == authUserId
    ensures r.None? ==> forall u :: u in users ==> u.authUserId != authUserId
  {
    match UserIndex(users, authUserId)
    case Some(i) => Some(users[i])
    case None => None
  }

  /** With unique `authUserId`s, the row found is the only one with that id. */
  lemma FindUserUnique(users: seq<User>, i: nat)
    requires UniqueAuthIds(users) && i < |users|
    ensures FindUser(users, users[i].authUserId) == Some(users[i])
    ensures UserIndex(users, users[i].authUserId) == Some(i)
  {
  }

  /** With unique authUserIds, each row is the one its authUserId finds. */
  lemma FindUserRow(users: seq<User>, u: User)
    requires UniqueAuthIds(users) && u in users
    ensures FindUser(users, u.authUserId) == Some(u)
  {
    var i :| 0 <= i < |users| && users[i] == u;
    FindUserUnique(users, i);
  }

  /** Inserting a user whose `authUserId` is new keeps ids unique and makes it findable. */
  lemma InsertUser(users: seq<User>, u: User)
    requires UniqueAuthIds(users) && FindUser(users, u.authUserId).None?
    ensures UniqueAuthIds(users + [u])
    ensures FindUser(users + [u], u.authUserId) == Some(u)
    ensures forall a :: a != u.authUserId ==> FindUser(users + [u], a) == FindUser(users, a)
  {
    FindUserUnique(users + [u], |users|);
    forall a | a != u.authUserId
      ensures FindUser(users + [u], a) == FindUser(users, a)
    {
      match UserIndex(users, a)
      case Some(i) => FindUserUnique(users + [u], i);
      case None =>
    }
  }

  /** Rewriting one user row without touching its `authUserId`. */
  lemma ReplaceUser(users: seq<User>, i: nat, u: User)
    requires UniqueAuthIds(users) && i < |users| && u.authUserId == users[i].authUserId
    ensures UniqueAuthIds(users[i := u])
    ensures FindUser(users[i := u], u.authUserId) == Some(u)
    ensures forall a :: a != u.authUserId ==> FindUser(users[i := u], a) == FindUser(users, a)
  {
    var users' := users[i := u];
    FindUserUnique(users', i);
    forall a | a != u.authUserId
      ensures FindUser(users', a) == FindUser(users, a)
    {
      match UserIndex(users, a)
      case Some(k) => FindUserUnique(users', k);
      case None =>
    }
  }

  /** `team.users`: the users whose `teamId` is this team, in table order. */
  function UsersInTeam(users: seq<User>, teamId: Id): (r: seq<User>)
    ensures forall u :: u in r <==> u in users && u.teamId == Some(teamId)
    ensures forall u :: multiset(r)[u] == if u.teamId == Some(teamId) then multiset(users)[u] else 0
    ensures |r| <= |users|
  {
    if users == [] then []
    else
      assert users == [users[0]] + users[1..];
      (if users[0].teamId == Some(teamId) then [users[0]] else []) + UsersInTeam(users[1..], teamId)
  }

  /** `prisma.user.update({ where: { authUserId }, data: { teamId, role } })` */
  function UpdateUser(users: seq<User>, authUserId: string, teamId: Option<Id>, role: Role): seq<User> {
    match UserIndex(users, authUserId)
    case Some(i) => users[i := users[i].(teamId := teamId, role := role)]
    case None => users
  }

  /** The update touches the caller's row only, and only its team and role. */
  lemma UpdateUserSpec(users: seq<User>, authUserId: string, teamId: Option<Id>, role: Role)
    requires UniqueAuthIds(users)
    requires FindUser(users, authUserId).Some?
    ensures var users' := UpdateUser(users, authUserId, teamId, role);
      && UniqueAuthIds(users')
      && |users'| == |users|
      && FindUser(users', authUserId) == Some(FindUser(users, authUserId).value.(teamId := teamId, role := role))
      && (forall a :: a != authUserId ==> FindUser(users', a) == FindUser(users, a))
      && (forall u :: u in users' ==> u in users || u.authUserId == authUserId)
  {
    var i := UserIndex(users, authUserId).value;
    FindUserUnique(users, i);
    ReplaceUser(users, i, users[i].(teamId := teamId, role := role));
  }

  // ---- teams ----

  ghost predicate UniqueTeamIds(teams: seq<Team>) {
    forall i, j :: 0 <= i < j < |teams| ==> teams[i].id != teams[j].id
  }

  ghost predicate UniqueInviteCodes(teams: seq<Team>) {
    forall i, j :: 0 <= i < j < |teams| ==> teams[i].inviteCode != teams[j].inviteCode
  }

  predicate HasTeam(teams: seq<Team>, id: Id) {
    exists t :: t in teams && t.id == id
  }

  /** Position of the team row with this id. */
  function TeamIndex(teams: seq<Team>, id: Id): (r: Option<nat>)
    ensures r.Some? ==> r.value < |teams| && teams[r.value].id == id
    ensures r.None? <==> !HasTeam(teams, id)
  {
    FirstIndex(teams, (t: Team) => t.id == id)
  }

  /** `prisma.team.findUnique({ where: { id } })` */
  function FindTeam(teams: seq<Team>, id: Id): (r: Option<Team>)
    ensures r.Some? ==> r.value in teams && r.value.id == id
    ensures r.None? <==> !HasTeam(teams, id)
  {
    match TeamIndex(teams, id)
    case Some(i) => Some(teams[i])
    case None => None
  }

  /** `prisma.team.findUnique({ where: { inviteCode } })` */
  function FindTeamByCode(teams: seq<Team>, code: string): (r: Option<Team>)
    ensures r.Some? ==> r.value in teams && r.value.inviteCode == code
    ensures r.None? <==> forall t :: t in teams ==> t.inviteCode != code
  {
    match FirstIndex(teams, (t: Team) => t.inviteCode == code)
    case Some(i) => Some(teams[i])
    case None => None
  }

  /** With unique codes, a code finds exactly the team that holds it. */
  lemma FindTeamByCodeUnique(teams: seq<Team>, i: nat)
    requires UniqueInviteCodes(teams) && i < |teams|
    ensures FindTeamByCode(teams, teams[i].inviteCode) == Some(teams[i])
  {
  }

  lemma FindTeamByCodeRow(teams: seq<Team>, t: Team)
    requires UniqueInviteCodes(teams) && t in teams
    ensures FindTeamByCode(teams, t.inviteCode) == Some(t)
  {
    var i :| 0 <= i < |teams| && teams[i] == t;
    FindTeamByCodeUnique(teams, i);
  }

  /** Adding a team whose id and code are both new keeps both keys unique. */
  lemma InsertTeam(teams: seq<Team>, t: Team)
    requires UniqueTeamIds(teams) && UniqueInviteCodes(teams)
    requires !HasTeam(teams, t.id)
    requires forall x :: x in teams ==> x.inviteCode != t.inviteCode
    ensures UniqueTeamIds(teams + [t]) && UniqueInviteCodes(teams + [t])
    ensures forall id :: HasTeam(teams + [t], id) <==> HasTeam(teams, id) || id == t.id
    ensures FindTeam(teams + [t], t.id) == Some(t)
    ensures FindTeamByCode(teams + [t], t.inviteCode) == Some(t)
  {
    var teams' := teams + [t];
    forall id
      ensures HasTeam(teams', id) <==> HasTeam(teams, id) || id == t.id
    {
      if HasTeam(teams', id) && id != t.id {
        var x :| x in teams' && x.id == id;
        assert x in teams;
      }
      if id == t.id {
        assert teams'[|teams|] == t;
      }
    }
    FindTeamByCodeUnique(teams', |teams|);
    assert teams'[|teams|] == t;
  }

  /** `teams[i]` with the team of that id replaced by `t`. */
  function ReplaceTeamRow(teams: seq<Team>, t: Team): seq<Team> {
    match TeamIndex(teams, t.id)
    case Some(i) => teams[i := t]
    case None => teams
  }

  /** Rewriting one team row while keeping its id: the same ids exist, ids stay unique,
      codes stay unique when no other row holds the new code, and only that row changes. */
  lemma ReplaceTeamRowSpec(teams: seq<Team>, t: Team)
    requires UniqueTeamIds(teams) && UniqueInviteCodes(teams) && HasTeam(teams, t.id)
    requires forall x :: x in teams && x.id != t.id ==> x.inviteCode != t.inviteCode
    ensures var teams' := ReplaceTeamRow(teams, t);
      && UniqueTeamIds(teams') && UniqueInviteCodes(teams')
      && |teams'| == |teams|
      && (forall id :: HasTeam(teams', id) <==> HasTeam(teams, id))
      && FindTeam(teams', t.id) == Some(t)
      && FindTeamByCode(teams', t.inviteCode) == Some(t)
      && (forall id :: id != t.id ==> FindTeam(teams', id) == FindTeam(teams, id))
  {
    var i := TeamIndex(teams, t.id).value;
    var teams' := teams[i := t];
    forall j, k | 0 <= j < k < |teams'|
      ensures teams'[j].id != teams'[k].id && teams'[j].inviteCode != teams'[k].inviteCode
    {
      if j == i {
        assert teams[k] in teams;
      } else if k == i {
        assert teams[j] in teams;
      }
    }
    forall id
      ensures HasTeam(teams', id) <==> HasTeam(teams, id)
    {
      if HasTeam(teams, id) {
        var x :| x in teams && x.id == id;
        var j :| 0 <= j < |teams| && teams[j] == x;
        if j == i {
          assert teams'[i].id == id;
        } else {
          assert teams'[j] == x;
        }
      }
      if HasTeam(teams', id) {
        var x :| x in teams' && x.id == id;
        var j :| 0 <= j < |teams'| && teams'[j] == x;
        if j == i {
          assert teams[i].id == id;
        } else {
          assert teams[j] == x;
        }
      }
    }
    forall id | id != t.id
      ensures FindTeam(teams', id) == FindTeam(teams, id)
    {
      FirstIndexSame(teams, teams', (x: Team) => x.id == id);
    }
    assert teams'[i] == t;
    FindTeamByCodeUnique(teams', i);
    assert TeamIndex(teams', t.id) == Some(i) by {
      FirstIndexUnique(teams', (x: Team) => x.id == t.id, i);
    }
  }

  // ---- goals ----

  /** `prisma.goal.findFirst({ where: { id: goalId, userId } })` found a row. */
  predicate OwnsGoal(goals: seq<Goal>, goalId: Id, userId: Id) {
    exists g :: g in goals && g.id == goalId && g.userId == userId
  }

  /** `user.goals`: the goals this user owns, in table order. */
  function GoalsOf(goals: seq<Goal>, userId: Id): (r: seq<Goal>)
    ensures forall g :: g in r <==> g in goals && g.userId == userId
    ensures forall g :: multiset(r)[g] == if g.userId == userId then multiset(goals)[g] else 0
    ensures |r| <= |goals|
  {
    if goals == [] then []
    else
      assert goals == [goals[0]] + goals[1..];
      (if goals[0].userId == userId then [goals[0]] else []) + GoalsOf(goals[1..], userId)
  }

  /** Each goal with its checks (`include: { checks: true }`). */
  function WithChecks(gs: seq<Goal>, checks: seq<Check>): (r: seq<LoadedGoal>)
    ensures |r| == |gs|
    ensures forall i :: 0 <= i < |gs| ==> r[i] == LoadedGoal(gs[i], ChecksOf(checks, gs[i].id))
  {
    if gs == [] then [] else [LoadedGoal(gs[0], ChecksOf(checks, gs[0].id))] + WithChecks(gs[1..], checks)
  }

  // ---- checks ----

  /** The row sits at the composite key `(goalId, date)`. */
  predicate AtKey(c: Check, goalId: Id, date: Date) {
    c.goalId == goalId && c.date == date
  }

  /** At most one check per goal and day. */
  ghost predicate UniqueCheckKeys(cs: seq<Check>) {
    forall i, j :: 0 <= i < j < |cs| ==> !AtKey(cs[j], cs[i].goalId, cs[i].date)
  }

  /** `goal.checks`: the checks of this goal, in table order. */
  function ChecksOf(cs: seq<Check>, goalId: Id): (r: seq<Check>)
    ensures forall c :: c in r <==> c in cs && c.goalId == goalId
    ensures forall c :: multiset(r)[c] == if c.goalId == goalId then multiset(cs)[c] else 0
    ensures |r| <= |cs|
  {
    if cs == [] then []
    else
      assert cs == [cs[0]] + cs[1..];
      (if cs[0].goalId == goalId then [cs[0]] else []) + ChecksOf(cs[1..], goalId)
  }

  /** The rows at key `(goalId, date)`, in table order. */
  function RowsAt(cs: seq<Check>, goalId: Id, date: Date): (r: seq<Check>)
    ensures forall c :: c in r <==> c in cs && AtKey(c, goalId, date)
    ensures (forall c :: c in cs ==> !AtKey(c, goalId, date)) ==> r == []
  {
    if cs == [] then []
    else (if AtKey(cs[0], goalId, date) then [cs[0]] else []) + RowsAt(cs[1..], goalId, date)
  }

  /** The rows at every other key, in table order: what
      `prisma.check.deleteMany({ where: { goalId, date } })` leaves behind. */
  function DeleteAt(cs: seq<Check>, goalId: Id, date: Date): (r: seq<Check>)
    ensures forall c :: c in r <==> c in cs && !AtKey(c, goalId, date)
    ensures forall c :: multiset(r)[c] == if AtKey(c, goalId, date) then 0 else multiset(cs)[c]
    ensures |r| <= |cs|
  {
    if cs == [] then []
    else
      assert cs == [cs[0]] + cs[1..];
      (if AtKey(cs[0], goalId, date) then [] else [cs[0]]) + DeleteAt(cs[1..], goalId, date)
  }

  /** `prisma.check.upsert` on the key `(goalId, date)`: the row there gets `value`,
      or a new row with id `newId` is added at the end. */
  function Upsert(cs: seq<Check>, goalId: Id, date: Date, value: int, newId: Id): (r: seq<Check>)
    ensures forall c :: c in r && !AtKey(c, goalId, date) ==> c in cs
  {
    if cs == [] then [Check(newId, goalId, date, value)]
    else if AtKey(cs[0], goalId, date) then [cs[0].(value := value)] + cs[1..]
    else [cs[0]] + Upsert(cs[1..], goalId, date, value, newId)
  }

  /** The upsert gives a new row the fresh id `newId` and keeps every other id: the ids
      stay unique. */
  lemma {:induction false} UpsertKeepsIds(cs: seq<Check>, goalId: Id, date: Date, value: int, newId: Id)
    requires UniqueIds(cs, IdOfCheck) && forall c :: c in cs ==> c.id != newId
    ensures UniqueIds(Upsert(cs, goalId, date, value, newId), IdOfCheck)
    ensures forall c :: c in Upsert(cs, goalId, date, value, newId) ==> c.id == newId || exists e :: e in cs && e.id == c.id
  {
    if cs != [] {
      UniqueIdsTail(cs, IdOfCheck);
      if AtKey(cs[0], goalId, date) {
        UniqueIdsCons(cs[0].(value := value), cs[1..], IdOfCheck);
      } else {
        var rest := Upsert(cs[1..], goalId, date, value, newId);
        UpsertKeepsIds(cs[1..], goalId, date, value, newId);
        forall y | y in rest
          ensures y.id != cs[0].id
        {
          if y.id != newId {
            var e :| e in cs[1..] && e.id == y.id;
          }
        }
        UniqueIdsCons(cs[0], rest, IdOfCheck);
      }
    }
  }

  /** The delete keeps some of the rows, so their ids stay unique. */
  lemma DeleteAtKeepsIds(cs: seq<Check>, goalId: Id, date: Date)
    requires UniqueIds(cs, IdOfCheck)
    ensures UniqueIds(DeleteAt(cs, goalId, date), IdOfCheck)
  {
    UniqueIdsSub(DeleteAt(cs, goalId, date), cs, IdOfCheck);
  }

  lemma UniqueTail(cs: seq<Check>)
    requires cs != [] && UniqueCheckKeys(cs)
    ensures UniqueCheckKeys(cs[1..])
    ensures forall c :: c in cs[1..] ==> !AtKey(c, cs[0].goalId, cs[0].date)
  {
    forall c | c in cs[1..]
      ensures !AtKey(c, cs[0].goalId, cs[0].date)
    {
      var k :| 0 <= k < |cs[1..]| && cs[1..][k] == c;
      assert cs[k + 1] == c;
    }
  }

  lemma UniqueCons(c: Check, cs: seq<Check>)
    requires UniqueCheckKeys(cs)
    requires forall d :: d in cs ==> !AtKey(d, c.goalId, c.date)
    ensures UniqueCheckKeys([c] + cs)
  {
    var r := [c] + cs;
    forall i, j | 0 <= i < j < |r|
      ensures !AtKey(r[j], r[i].goalId, r[i].date)
    {
      if i == 0 {
        assert r[j] in cs;
      } else {
        assert r[i] == cs[i - 1] && r[j] == cs[j - 1];
      }
    }
  }

  /** The upsert keeps the table free of duplicate keys. */
  lemma {:induction false} UpsertKeepsUnique(cs: seq<Check>, goalId: Id, date: Date, value: int, newId: Id)
    requires UniqueCheckKeys(cs)
    ensures UniqueCheckKeys(Upsert(cs, goalId, date, value, newId))
  {
    if cs == [] {
    } else {
      UniqueTail(cs);
      if AtKey(cs[0], goalId, date) {
        UniqueCons(cs[0].(value := value), cs[1..]);
      } else {
        UpsertKeepsUnique(cs[1..], goalId, date, value, newId);
        var rest := Upsert(cs[1..], goalId, date, value, newId);
        forall d | d in rest
          ensures !AtKey(d, cs[0].goalId, cs[0].date)
        {
        }
        UniqueCons(cs[0], rest);
      }
    }
  }

  /** The unique key allows at most one row per `(goalId, date)`. */
  lemma AtMostOneRow(cs: seq<Check>, goalId: Id, date: Date)
    requires UniqueCheckKeys(cs)
    ensures |RowsAt(cs, goalId, date)| <= 1
  {
    UpsertSingleRow(cs, goalId, date, 0, 0);
  }

  /** After the upsert exactly one row sits at the key and it holds the new value;
      it keeps the old row's id when there was one, and gets `newId` otherwise. */
  lemma {:induction false} UpsertSingleRow(cs: seq<Check>, goalId: Id, date: Date, value: int, newId: Id)
    requires UniqueCheckKeys(cs)
    ensures |RowsAt(cs, goalId, date)| <= 1
    ensures RowsAt(Upsert(cs, goalId, date, value, newId), goalId, date)
      == [Check(if RowsAt(cs, goalId, date) == [] then newId else RowsAt(cs, goalId, date)[0].id, goalId, date, value)]
  {
    if cs != [] {
      UniqueTail(cs);
      if AtKey(cs[0], goalId, date) {
        assert RowsAt([cs[0].(value := value)] + cs[1..], goalId, date)
          == [cs[0].(value := value)] + RowsAt(cs[1..], goalId, date) by {
          assert ([cs[0].(value := value)] + cs[1..])[1..] == cs[1..];
        }
      } else {
        UpsertSingleRow(cs[1..], goalId, date, value, newId);
        var r := Upsert(cs, goalId, date, value, newId);
        assert r[1..] == Upsert(cs[1..], goalId, date, value, newId);
      }
    }
  }

  /** The upsert leaves every row at another key as it was, in the same order. */
  lemma {:induction false} UpsertLeavesOthers(cs: seq<Check>, goalId: Id, date: Date, value: int, newId: Id)
    ensures DeleteAt(Upsert(cs, goalId, date, value, newId), goalId, date) == DeleteAt(cs, goalId, date)
  {
    var r := Upsert(cs, goalId, date, value, newId);
    if cs == [] {
    } else if AtKey(cs[0], goalId, date) {
      assert r[1..] == cs[1..];
    } else {
      UpsertLeavesOthers(cs[1..], goalId, date, value, newId);
      assert r[1..] == Upsert(cs[1..], goalId, date, value, newId);
    }
  }

  /** A second upsert at the same key replaces the first one's value rather than adding to it. */
  lemma {:induction false} UpsertOverwrites(cs: seq<Check>, goalId: Id, date: Date, first: int, second: int, id1: Id, id2: Id)
    ensures Upsert(Upsert(cs, goalId, date, first, id1), goalId, date, second, id2)
         == Upsert(cs, goalId, date, second, id1)
  {
    if cs != [] && !AtKey(cs[0], goalId, date) {
      UpsertOverwrites(cs[1..], goalId, date, first, second, id1, id2);
      var r := Upsert(cs, goalId, date, first, id1);
      assert r[0] == cs[0] && r[1..] == Upsert(cs[1..], goalId, date, first, id1);
    } else if cs != [] {
      var r := Upsert(cs, goalId, date, first, id1);
      assert r[0] == cs[0].(value := first) && r[1..] == cs[1..];
    }
  }

  /** Repeating an upsert changes nothing. */
  lemma {:induction false} UpsertIdempotent(cs: seq<Check>, goalId: Id, date: Date, value: int, id1: Id, id2: Id)
    ensures Upsert(Upsert(cs, goalId, date, value, id1), goalId, date, value, id2)
         == Upsert(cs, goalId, date, value, id1)
  {
    UpsertOverwrites(cs, goalId, date, value, value, id1, id2);
  }

  /** Deleting leaves no row at the key and keeps the table free of duplicate keys. */
  lemma {:induction false} DeleteAtSpec(cs: seq<Check>, goalId: Id, date: Date)
    requires UniqueCheckKeys(cs)
    ensures RowsAt(DeleteAt(cs, goalId, date), goalId, date) == []
    ensures UniqueCheckKeys(DeleteAt(cs, goalId, date))
  {
    if cs != [] {
      UniqueTail(cs);
      DeleteAtSpec(cs[1..], goalId, date);
      var rest := DeleteAt(cs[1..], goalId, date);
      if !AtKey(cs[0], goalId, date) {
        forall d | d in rest
          ensures !AtKey(d, cs[0].goalId, cs[0].date)
        {
        }
        UniqueCons(cs[0], rest);
      }
    }
  }

  /** Deleting twice is deleting once. */
  lemma {:induction false} DeleteAtIdempotent(cs: seq<Check>, goalId: Id, date: Date)
    ensures DeleteAt(DeleteAt(cs, goalId, date), goalId, date) == DeleteAt(cs, goalId, date)
  {
    if cs != [] {
      DeleteAtIdempotent(cs[1..], goalId, date);
      var r := DeleteAt(cs, goalId, date);
      if !AtKey(cs[0], goalId, date) {
        assert r[0] == cs[0] && r[1..] == DeleteAt(cs[1..], goalId, date);
        assert DeleteAt(r, goalId, date) == [r[0]] + DeleteAt(r[1..], goalId, date);
      } else {
        assert r == DeleteAt(cs[1..], goalId, date);
      }
    }
  }

  /** Deleting at a key where nothing sits leaves the table as it was. */
  lemma {:induction false} DeleteAtNothing(cs: seq<Check>, goalId: Id, date: Date)
    requires RowsAt(cs, goalId, date) == []
    ensures DeleteAt(cs, goalId, date) == cs
  {
    if cs != [] {
      assert !AtKey(cs[0], goalId, date);
      DeleteAtNothing(cs[1..], goalId, date);
      assert cs == [cs[0]] + cs[1..];
    }
  }
}
