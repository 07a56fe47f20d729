/** The figures of the team dashboard: a goal's progress, a member's completion and the
    member's most recent checks, computed over rows already loaded from the store. */
module Progress {
  import opened Wrappers
  import opened Strings
  import opened Calendar
  import opened Schema

  // ---- sums ----

  /** `checks.reduce((s, c) => s + c.value, 0)` */
  function SumValues(cs: seq<Check>): int {
    if cs == [] then 0 else cs[0].value + SumValues(cs[1..])
  }

  function Done(g: LoadedGoal): int {
    SumValues(g.checks)
  }

  /** Sum of `targetCount || 0` over the goals. */
  function TotalTarget(gs: seq<LoadedGoal>): int {
    if gs == [] then 0 else gs[0].goal.targetCount + TotalTarget(gs[1..])
  }

  /** Sum over the goals of the sum of their check values. */
  function TotalDone(gs: seq<LoadedGoal>): int {
    if gs == [] then 0 else Done(gs[0]) + TotalDone(gs[1..])
  }

  /** Every check of every goal, in goal order. */
  function AllChecks(gs: seq<LoadedGoal>): seq<Check> {
    if gs == [] then [] else gs[0].checks + AllChecks(gs[1..])
  }

  lemma {:induction false} SumValuesAppend(a: seq<Check>, b: seq<Check>)
    ensures SumValues(a + b) == SumValues(a) + SumValues(b)
  {
    if a == [] {
      assert a + b == b;
    } else {
      SumValuesAppend(a[1..], b);
      assert (a + b)[1..] == a[1..] + b;
    }
  }

  /** `totalDone` is the sum of every check value across all of the member's goals. */
  lemma {:induction false} TotalDoneFlat(gs: seq<LoadedGoal>)
    ensures TotalDone(gs) == SumValues(AllChecks(gs))
  {
    if gs != [] {
      TotalDoneFlat(gs[1..]);
      SumValuesAppend(gs[0].checks, AllChecks(gs[1..]));
    }
  }

  lemma {:induction false} SumValuesNonNegative(cs: seq<Check>)
    requires forall c :: c in cs ==> c.value >= 0
    ensures SumValues(cs) >= 0
  {
    if cs != [] {
      assert cs[0] in cs;
      SumValuesNonNegative(cs[1..]);
    }
  }

  // ---- percentages ----

  /** `Math.round(n / d * 100)` in exact arithmetic: the integer nearest to 100n/d, a half
      rounding up. */
  function RoundPercent(n: int, d: int): (r: int)
    requires d > 0
    ensures 2 * d * r - d <= 200 * n < 2 * d * r + d
  {
    var q := (200 * n + d) / (2 * d);
    assert 2 * d * q <= 200 * n + d < 2 * d * q + 2 * d by {
      var m := (200 * n + d) % (2 * d);
      assert 200 * n + d == 2 * d * q + m && 0 <= m < 2 * d;
    }
    q
  }

  /** `target > 0 ? Math.min(100, Math.round(done / target * 100)) : 0` */
  function Percent(done: int, target: int): (r: int)
    ensures r <= 100
    ensures target <= 0 ==> r == 0
  {
    if target > 0 then Min(100, RoundPercent(done, target)) else 0
  }

  lemma MulLeft(t: int, x: int, y: int)
    requires t > 0 && x <= y
    ensures t * x <= t * y
  {
  }

  lemma ScaleLess(t: int, x: int, y: int)
    requires t > 0 && t * x < t * y
    ensures x < y
  {
    if y <= x {
      MulLeft(t, y, x);
    }
  }

  /** Done at least the target means 100. */
  lemma PercentFull(done: int, target: int)
    requires 0 < target <= done
    ensures Percent(done, target) == 100
  {
    var r := RoundPercent(done, target);
    MulLeft(200, target, done);
    assert target * 200 < target * (2 * r + 1);
    ScaleLess(target, 200, 2 * r + 1);
  }

  /** Nothing done, or anything done, is never below 0 when done is not negative. */
  lemma PercentNonNegative(done: int, target: int)
    requires done >= 0
    ensures Percent(done, target) >= 0
  {
    if target > 0 {
      var r := RoundPercent(done, target);
      assert target * 0 < target * (2 * r + 1);
      ScaleLess(target, 0, 2 * r + 1);
    }
  }

  /** Negative totals give a negative figure: the code clamps only from above. */
  lemma PercentCanBeNegative()
    ensures Percent(-1, 1) == -100
  {
    assert RoundPercent(-1, 1) == -100;
  }

  /** More done never shows less. */
  lemma PercentMonotone(d1: int, d2: int, target: int)
    requires d1 <= d2
    ensures Percent(d1, target) <= Percent(d2, target)
  {
    if target > 0 {
      var r1, r2 := RoundPercent(d1, target), RoundPercent(d2, target);
      assert target * (2 * r1) < target * (2 * r2 + 2);
      ScaleLess(target, 2 * r1, 2 * r2 + 2);
    }
  }

  // ---- summaries ----

  datatype GoalDetail = GoalDetail(id: Id, title: string, targetCount: int, unit: string, progress: int, checks: int)

  datatype RecentCheck = RecentCheck(date: string, goalTitle: string)

  datatype MemberSummary = MemberSummary(
    id: Id, name: Option<string>, email: string, role: Role, completion: int, goals: nat,
    goalsDetail: seq<GoalDetail>, recentChecks: seq<RecentCheck>)

  function Detail(g: LoadedGoal): GoalDetail {
    GoalDetail(g.goal.id, g.goal.title, g.goal.targetCount, g.goal.unit, Percent(Done(g), g.goal.targetCount), Done(g))
  }

  function Details(gs: seq<LoadedGoal>): (r: seq<GoalDetail>)
    ensures |r| == |gs|
    ensures forall i :: 0 <= i < |gs| ==> r[i] == Detail(gs[i])
  {
    if gs == [] then [] else [Detail(gs[0])] + Details(gs[1..])
  }

  function SumDetailChecks(ds: seq<GoalDetail>): int {
    if ds == [] then 0 else ds[0].checks + SumDetailChecks(ds[1..])
  }

  /** The per-goal `checks` add up to the member's `totalDone`. */
  lemma {:induction false} DetailsAddUp(gs: seq<LoadedGoal>)
    ensures SumDetailChecks(Details(gs)) == TotalDone(gs)
  {
    if gs != [] {
      DetailsAddUp(gs[1..]);
      assert Details(gs)[1..] == Details(gs[1..]);
    }
  }

  // ---- recent checks ----

  /** `g.checks.map(c => ({ date: formatKstDate(c.date), goalTitle: g.title }))`: each check
      tagged with the Seoul key of its day. */
  function TagChecks(cs: seq<Check>, title: string): (r: seq<RecentCheck>)
    ensures |r| == |cs|
    ensures forall i :: 0 <= i < |cs| ==> r[i] == RecentCheck(KstKey(cs[i].date), title)
  {
    if cs == [] then [] else [RecentCheck(KstKey(cs[0].date), title)] + TagChecks(cs[1..], title)
  }

  /** `goals.flatMap(g => g.checks.map(c => ({ date: formatKstDate(c.date), goalTitle: g.title })))` */
  function Tagged(gs: seq<LoadedGoal>): seq<RecentCheck> {
    if gs == [] then [] else TagChecks(gs[0].checks, gs[0].goal.title) + Tagged(gs[1..])
  }

  /** One entry per check, each a check of one of the goals tagged with that goal's title,
      and every check is there. */
  lemma {:induction false} TaggedSpec(gs: seq<LoadedGoal>)
    ensures |Tagged(gs)| == |AllChecks(gs)|
    ensures forall t :: t in Tagged(gs) ==>
      exists i, c :: 0 <= i < |gs| && c in gs[i].checks && t == RecentCheck(KstKey(c.date), gs[i].goal.title)
    ensures forall i, c :: 0 <= i < |gs| && c in gs[i].checks ==>
      RecentCheck(KstKey(c.date), gs[i].goal.title) in Tagged(gs)
  {
    if gs != [] {
      TaggedSpec(gs[1..]);
      var head := TagChecks(gs[0].checks, gs[0].goal.title);
      assert Tagged(gs) == head + Tagged(gs[1..]);
      forall t | t in Tagged(gs)
        ensures exists i, c :: 0 <= i < |gs| && c in gs[i].checks && t == RecentCheck(KstKey(c.date), gs[i].goal.title)
      {
        if t in head {
          var k :| 0 <= k < |head| && head[k] == t;
          assert gs[0].checks[k] in gs[0].checks;
        } else {
          var i, c :| 0 <= i < |gs[1..]| && c in gs[1..][i].checks && t == RecentCheck(KstKey(c.date), gs[1..][i].goal.title);
          assert gs[i + 1] == gs[1..][i];
        }
      }
      forall i, c | 0 <= i < |gs| && c in gs[i].checks
        ensures RecentCheck(KstKey(c.date), gs[i].goal.title) in Tagged(gs)
      {
        if i == 0 {
          var k :| 0 <= k < |gs[0].checks| && gs[0].checks[k] == c;
          assert head[k] == RecentCheck(KstKey(c.date), gs[0].goal.title);
        } else {
          assert gs[1..][i - 1] == gs[i];
        }
      }
    }
  }

  /** `(a, b) => (a.date < b.date ? 1 : -1)`: larger keys first, which from year 1000 on
      is later days first (`Calendar.KstKeyOrder`). */
  ghost predicate LatestFirst(rs: seq<RecentCheck>) {
    forall i, j :: 0 <= i < j < |rs| ==> !Less(rs[i].date, rs[j].date)
  }

  function InsertRecent(x: RecentCheck, rs: seq<RecentCheck>): seq<RecentCheck> {
    if rs == [] || !Less(x.date, rs[0].date) then [x] + rs
    else [rs[0]] + InsertRecent(x, rs[1..])
  }

  function SortRecent(rs: seq<RecentCheck>): seq<RecentCheck> {
    if rs == [] then [] else InsertRecent(rs[0], SortRecent(rs[1..]))
  }

  lemma LatestFirstCons(h: RecentCheck, s: seq<RecentCheck>)
    requires LatestFirst(s)
    requires forall x :: x in s ==> !Less(h.date, x.date)
    ensures LatestFirst([h] + s)
  {
    forall i, j | 0 <= i < j < |[h] + s|
      ensures !Less(([h] + s)[i].date, ([h] + s)[j].date)
    {
      if i == 0 {
        assert ([h] + s)[j] == s[j - 1];
        assert s[j - 1] in s;
      } else {
        assert ([h] + s)[i] == s[i - 1] && ([h] + s)[j] == s[j - 1];
      }
    }
  }

  lemma {:induction false} InsertRecentSpec(x: RecentCheck, rs: seq<RecentCheck>)
    requires LatestFirst(rs)
    ensures multiset(InsertRecent(x, rs)) == multiset(rs) + multiset{x}
    ensures LatestFirst(InsertRecent(x, rs))
  {
    if rs == [] || !Less(x.date, rs[0].date) {
      forall y | y in rs
        ensures !Less(x.date, y.date)
      {
        var k :| 0 <= k < |rs| && rs[k] == y;
        if k > 0 {
          NotLessTransitive(x.date, rs[0].date, y.date);
        }
      }
      LatestFirstCons(x, rs);
    } else {
      var rest := rs[1..];
      assert LatestFirst(rest) by {
        forall i, j | 0 <= i < j < |rest|
          ensures !Less(rest[i].date, rest[j].date)
        {
          assert rest[i] == rs[i + 1] && rest[j] == rs[j + 1];
        }
      }
      InsertRecentSpec(x, rest);
      assert rs == [rs[0]] + rest;
      var ins := InsertRecent(x, rest);
      forall y | y in ins
        ensures !Less(rs[0].date, y.date)
      {
        assert y in multiset(ins);
        if y == x {
          LessAsymmetric(x.date, rs[0].date);
        } else {
          assert y in multiset(rest);
          var k :| 0 <= k < |rest| && rest[k] == y;
          assert rs[k + 1] == y;
        }
      }
      LatestFirstCons(rs[0], ins);
    }
  }

  lemma {:induction false} SortRecentSpec(rs: seq<RecentCheck>)
    ensures multiset(SortRecent(rs)) == multiset(rs)
    ensures LatestFirst(SortRecent(rs))
  {
    if rs != [] {
      SortRecentSpec(rs[1..]);
      InsertRecentSpec(rs[0], SortRecent(rs[1..]));
      assert rs == [rs[0]] + rs[1..];
    }
  }

  /** `.sort(...).slice(0, 3)` */
  function RecentChecks(gs: seq<LoadedGoal>): (r: seq<RecentCheck>)
    ensures |r| <= 3
  {
    var sorted := SortRecent(Tagged(gs));
    sorted[..Min(3, |sorted|)]
  }

  /** A prefix of a latest-first sequence holds its latest entries. */
  lemma PrefixIsLatest(sorted: seq<RecentCheck>, n: nat)
    requires LatestFirst(sorted) && n <= |sorted|
    ensures LatestFirst(sorted[..n])
    ensures multiset(sorted[..n]) <= multiset(sorted)
    ensures forall x, y :: x in multiset(sorted) - multiset(sorted[..n]) && y in sorted[..n] ==> !Less(y.date, x.date)
  {
    var r, rest := sorted[..n], sorted[n..];
    assert sorted == r + rest;
    assert multiset(sorted) == multiset(r) + multiset(rest);
    forall x, y | x in multiset(sorted) - multiset(r) && y in r
      ensures !Less(y.date, x.date)
    {
      assert x in multiset(rest);
      var k :| 0 <= k < |rest| && rest[k] == x;
      var i :| 0 <= i < |r| && r[i] == y;
      assert sorted[i] == y && sorted[n + k] == x;
    }
  }

  /** Up to three entries, latest first, all drawn from the tagged checks, and none left out
      is later than one kept. */
  lemma RecentChecksSpec(gs: seq<LoadedGoal>)
    ensures var all, r := Tagged(gs), RecentChecks(gs);
      && |r| == Min(3, |AllChecks(gs)|)
      && LatestFirst(r)
      && multiset(r) <= multiset(all)
      && forall x, y :: x in multiset(all) - multiset(r) && y in r ==> !Less(y.date, x.date)
  {
    var sorted := SortRecent(Tagged(gs));
    SortRecentSpec(Tagged(gs));
    TaggedSpec(gs);
    assert |sorted| == |multiset(sorted)| == |Tagged(gs)|;
    PrefixIsLatest(sorted, Min(3, |sorted|));
  }

  /** A member's row of the team dashboard. */
  function Summarize(u: User, gs: seq<LoadedGoal>): (s: MemberSummary)
    ensures s.id == u.id && s.name == u.name && s.email == u.email && s.role == u.role
    ensures s.goals == |gs| && s.completion <= 100
  {
    MemberSummary(u.id, u.name, u.email, u.role, Percent(TotalDone(gs), TotalTarget(gs)), |gs|,
      Details(gs), RecentChecks(gs))
  }

  /** The figures of one member's summary and how they relate. */
  lemma SummarizeSpec(u: User, gs: seq<LoadedGoal>)
    ensures var s := Summarize(u, gs);
      && s.id == u.id && s.role == u.role
      && s.goals == |s.goalsDetail| == |gs|
      && s.completion <= 100
      && (TotalTarget(gs) <= 0 ==> s.completion == 0)
      && (0 < TotalTarget(gs) <= TotalDone(gs) ==> s.completion == 100)
      && SumDetailChecks(s.goalsDetail) == TotalDone(gs) == SumValues(AllChecks(gs))
      && (forall i :: 0 <= i < |gs| ==>
            && s.goalsDetail[i].id == gs[i].goal.id
            && s.goalsDetail[i].checks == SumValues(gs[i].checks)
            && s.goalsDetail[i].progress <= 100
            && (gs[i].goal.targetCount <= 0 ==> s.goalsDetail[i].progress == 0))
      && |s.recentChecks| == Min(3, |AllChecks(gs)|)
  {
    DetailsAddUp(gs);
    TotalDoneFlat(gs);
    RecentChecksSpec(gs);
    if 0 < TotalTarget(gs) <= TotalDone(gs) {
      PercentFull(TotalDone(gs), TotalTarget(gs));
    }
  }

  /** With no negative check values, every figure is between 0 and 100. */
  lemma SummaryNonNegative(u: User, gs: seq<LoadedGoal>)
    requires forall c :: c in AllChecks(gs) ==> c.value >= 0
    ensures Summarize(u, gs).completion >= 0
    ensures forall d :: d in Summarize(u, gs).goalsDetail ==> 0 <= d.progress
  {
    SumValuesNonNegative(AllChecks(gs));
    TotalDoneFlat(gs);
    PercentNonNegative(TotalDone(gs), TotalTarget(gs));
    forall d | d in Summarize(u, gs).goalsDetail
      ensures 0 <= d.progress
    {
      var i :| 0 <= i < |gs| && Details(gs)[i] == d;
      AllChecksContains(gs, i);
      SumValuesNonNegative(gs[i].checks);
      PercentNonNegative(Done(gs[i]), gs[i].goal.targetCount);
    }
  }

  lemma {:induction false} AllChecksContains(gs: seq<LoadedGoal>, i: nat)
    requires i < |gs|
    ensures forall c :: c in gs[i].checks ==> c in AllChecks(gs)
  {
    if i > 0 {
      AllChecksContains(gs[1..], i - 1);
    }
  }
}
