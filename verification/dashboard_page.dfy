/** The pure helpers of the dashboard page: month and day keys, the days of a month, the
    counts shown per goal and day, the percentage shown per goal, and which request a tap
    or a button sends to `/api/checks`. */
module DashboardPage {
  import opened Wrappers
  import opened Strings
  import opened Calendar
  import opened Schema
  import opened Tables
  import opened Progress
  import opened ChecksRoute
  import GoalsRoute

  // ---- month and day keys ----

  /** `${getFullYear()}-${String(getMonth() + 1).padStart(2, "0")}`: the year is not padded,
      so from year 1000 on the key names the month, and before that it is no month key. */
  function FormatMonth(d: Date): (r: string)
    ensures d.year >= 1000 ==> ParseMonthKey(r) == Some((d.year, d.month))
    ensures d.year < 1000 ==> ParseMonthKey(r).None?
  {
    MonthKeyOf(d);
    NatToString(d.year) + "-" + Pad(d.month, 2)
  }

  lemma MonthKeyOf(d: Date)
    ensures var s := NatToString(d.year) + "-" + Pad(d.month, 2);
      && (d.year >= 1000 ==> ParseMonthKey(s) == Some((d.year, d.month)))
      && (d.year < 1000 ==> |s| < 7)
  {
    var s := NatToString(d.year) + "-" + Pad(d.month, 2);
    if d.year >= 1000 {
      NatToStringFourDigits(d.year);
      assert s[..4] == Pad(d.year, 4) && s[5..] == Pad(d.month, 2);
      ReadPad(d.year, 4);
      ReadPad(d.month, 2);
    } else {
      NatToStringShort(d.year);
    }
  }

  /** For four-digit years the page's month key is what the goals handler reads back as the
      first day of that month. */
  lemma FormatMonthRoundTrip(d: Date)
    requires d.year >= 1000
    ensures |FormatMonth(d)| == 7
    ensures MonthStart(FormatMonth(d)) == Some(Day(d.year, d.month, 1))
  {
    NatToStringFourDigits(d.year);
  }

  /** `date.toISOString()` of a stored day (midnight UTC): how a check's date reaches the page. */
  function WireDate(d: Date): string {
    FormatDay(d) + "T00:00:00.000Z"
  }

  /** The page's `formatKstDate(new Date(s))` is a parameter; stored days are midnight UTC,
      which is the same calendar day in Seoul, so the formatter prints the Seoul key
      of that day (for year 0 en-CA prints the era year "1", which this leaves aside). */
  ghost predicate KstOnMidnights(kst: string -> string) {
    forall d: Date {:trigger WireDate(d)} :: kst(WireDate(d)) == KstKey(d)
  }

  /** `toDateKey`: a "YYYY-MM-DD" key is kept, anything else goes through the formatter. */
  function ToDateKey(input: string, kst: string -> string): (r: string)
    ensures IsDateKey(input) ==> r == input
    ensures IsDateKey(r) <==> IsDateKey(input) || IsDateKey(kst(input))
  {
    if IsDateKey(input) then input else kst(input)
  }

  /** Keying twice changes nothing whenever the first keying gives a "YYYY-MM-DD" key. */
  lemma ToDateKeyIdempotent(input: string, kst: string -> string)
    requires IsDateKey(input) || IsDateKey(kst(input))
    ensures ToDateKey(ToDateKey(input, kst), kst) == ToDateKey(input, kst)
  {
  }

  /** A stored check's date keys as the Seoul key of its day; a day's own key is kept. */
  lemma ToDateKeyOfStored(d: Date, kst: string -> string)
    requires KstOnMidnights(kst)
    ensures ToDateKey(WireDate(d), kst) == KstKey(d)
    ensures ToDateKey(FormatDay(d), kst) == FormatDay(d)
  {
    assert |WireDate(d)| == 24;
  }

  /** `isSameDay`: both sides key to the same string. Two "YYYY-MM-DD" keys name the same day
      exactly when they are equal. */
  function IsSameDay(a: string, b: string, kst: string -> string): (r: bool)
    ensures a == b ==> r
    ensures IsDateKey(a) && IsDateKey(b) ==> (r <==> a == b)
  {
    ToDateKey(a, kst) == ToDateKey(b, kst)
  }

  /** A stored check falls on the day of a calendar key exactly when it is that day and its
      year has four digits: before year 1000 its Seoul key is shorter than any calendar key. */
  lemma SameDayOfStored(a: Date, b: Date, kst: string -> string)
    requires KstOnMidnights(kst)
    ensures IsSameDay(WireDate(a), FormatDay(b), kst) <==> a == b && a.year >= 1000
  {
    ToDateKeyOfStored(a, kst);
    ToDateKeyOfStored(b, kst);
    KstKeyShape(a);
    FormatDayInjective(a, b);
  }

  // ---- the days of a month ----

  /** `Date.UTC` reads the years 0 to 99 as 1900 to 1999. */
  function UtcYear(y: nat): nat {
    if y <= 99 then 1900 + y else y
  }

  /** The keys of every day of month `m` of year `y`, first to last. */
  function DaysOf(y: nat, m: nat): (r: seq<string>)
    requires y <= 9999 && 1 <= m <= 12
    ensures |r| == DaysIn(y, m)
  {
    seq(DaysIn(y, m), i requires 0 <= i < DaysIn(y, m) => FormatDay(Day(y, m, i + 1)))
  }

  /** What `daysInMonth` lists for a "YYYY-MM" key. */
  function MonthDays(monthStr: string): seq<string> {
    match ParseMonthKey(monthStr)
    case None => []
    case Some((y, m)) => if 1 <= m <= 12 then DaysOf(UtcYear(y), m) else []
  }

  /** `daysInMonth`: walk from the first of the month one UTC day at a time while the month
      stays the same. A month number outside 1..12 makes `Date.UTC` land in another month,
      so the loop runs no time. */
  method DaysInMonth(monthStr: string) returns (result: seq<string>)
    ensures result == MonthDays(monthStr)
  {
    result := [];
    var parsed := ParseMonthKey(monthStr);
    if parsed.None? {
      return;
    }
    var y, m := UtcYear(parsed.value.0), parsed.value.1;
    if !(1 <= m <= 12) {
      return;
    }
    var start := Day(y, m, 1);
    while start.month == m
      invariant 1 <= start.month <= 12 && 1 <= start.day <= DaysIn(start.year, start.month)
      invariant |result| <= DaysIn(y, m)
      invariant start.month == m ==> start == Day(y, m, |result| + 1)
      invariant start.month != m ==> |result| == DaysIn(y, m)
      invariant result == DaysOf(y, m)[..|result|]
      decreases DaysIn(y, m) - |result|
    {
      result := result + [FormatDay(start)];
      start := NextDay(start);
    }
  }

  /** Each listed key reads back as its day of the month. */
  lemma DaysOfParse(y: nat, m: nat)
    requires y <= 9999 && 1 <= m <= 12
    ensures 28 <= |DaysOf(y, m)| <= 31
    ensures forall i :: 0 <= i < |DaysOf(y, m)| ==> ParseDay(DaysOf(y, m)[i]) == Some(Day(y, m, i + 1))
  {
    forall i | 0 <= i < |DaysOf(y, m)|
      ensures ParseDay(DaysOf(y, m)[i]) == Some(Day(y, m, i + 1))
    {
      ParseFormatDay(Day(y, m, i + 1));
    }
  }

  /** The keys are strictly ascending. */
  lemma DaysOfAscending(y: nat, m: nat)
    requires y <= 9999 && 1 <= m <= 12
    ensures forall i, j :: 0 <= i < j < |DaysOf(y, m)| ==> Less(DaysOf(y, m)[i], DaysOf(y, m)[j])
  {
    forall i, j | 0 <= i < j < |DaysOf(y, m)|
      ensures Less(DaysOf(y, m)[i], DaysOf(y, m)[j])
    {
      FormatDayOrder(Day(y, m, i + 1), Day(y, m, j + 1));
    }
  }

  /** No day of the month is missing. */
  lemma DaysOfComplete(y: nat, m: nat)
    requires y <= 9999 && 1 <= m <= 12
    ensures forall d: Date :: d.year == y && d.month == m ==> FormatDay(d) in DaysOf(y, m)
  {
    forall d: Date | d.year == y && d.month == m
      ensures FormatDay(d) in DaysOf(y, m)
    {
      assert DaysOf(y, m)[d.day - 1] == FormatDay(d);
    }
  }

  /** For years from 100 on, every listed key starts with the month key; for the years 0
      to 99 the days listed are those of 1900 to 1999. */
  lemma MonthDaysPrefix(monthStr: string, y: nat, m: nat)
    requires ParseMonthKey(monthStr) == Some((y, m)) && 1 <= m <= 12
    ensures MonthDays(monthStr) == DaysOf(UtcYear(y), m)
    ensures y >= 100 ==> forall i :: 0 <= i < |MonthDays(monthStr)| ==> MonthDays(monthStr)[i][..7] == monthStr
  {
    var r := MonthDays(monthStr);
    if y >= 100 {
      PadRead(monthStr[..4]);
      PadRead(monthStr[5..]);
      assert monthStr == monthStr[..4] + "-" + monthStr[5..];
      forall i | 0 <= i < |r|
        ensures r[i][..7] == monthStr
      {
        FormatDayParts(Day(y, m, i + 1));
        assert r[i][..7] == r[i][..4] + "-" + r[i][5..7];
      }
    }
  }

  /** The page's own month key lists a calendar that holds every day of that month. */
  lemma CalendarHoldsToday(today: Date)
    requires today.year >= 1000
    ensures FormatDay(today) in MonthDays(FormatMonth(today))
  {
    FormatMonthRoundTrip(today);
    DaysOfComplete(today.year, today.month);
  }

  // ---- counts shown ----

  /** A check as the page receives it from `GET /api/goals`. */
  datatype ClientCheck = ClientCheck(date: string, value: int)

  datatype ClientGoal = ClientGoal(id: Id, targetCount: int, checks: seq<ClientCheck>)

  function ClientChecks(cs: seq<Check>): (r: seq<ClientCheck>)
    ensures |r| == |cs|
  {
    if cs == [] then [] else [ClientCheck(WireDate(cs[0].date), cs[0].value)] + ClientChecks(cs[1..])
  }

  function ClientGoalOf(g: LoadedGoal): ClientGoal {
    ClientGoal(g.goal.id, g.goal.targetCount, ClientChecks(g.checks))
  }

  /** `countByDate`: the sum of the values of the goal's checks on that day. */
  function CountByDate(checks: seq<ClientCheck>, date: string, kst: string -> string): (r: int)
    ensures (forall c :: c in checks ==> !IsSameDay(c.date, date, kst)) ==> r == 0
    ensures (forall c :: c in checks ==> c.value >= 0) ==> r >= 0
  {
    if checks == [] then 0
    else (if IsSameDay(checks[0].date, date, kst) then checks[0].value else 0) + CountByDate(checks[1..], date, kst)
  }

  /** `goal.checks.some((c) => isSameDay(c.date, today))` */
  predicate HasCheckOn(checks: seq<ClientCheck>, date: string, kst: string -> string) {
    exists c :: c in checks && IsSameDay(c.date, date, kst)
  }

  /** `g.checks.reduce((sum, c) => sum + c.value, 0)` */
  function ClientSum(checks: seq<ClientCheck>): int {
    if checks == [] then 0 else checks[0].value + ClientSum(checks[1..])
  }

  /** `goalCounts`: each goal's id mapped to the sum of its check values. */
  function GoalCounts(goals: seq<ClientGoal>): (r: map<Id, int>)
    ensures forall id :: id in r <==> exists g :: g in goals && g.id == id
  {
    if goals == [] then map[]
    else
      var init, last := goals[..|goals| - 1], goals[|goals| - 1];
      assert goals == init + [last];
      assert forall g :: g in goals <==> g in init || g == last;
      GoalCounts(init)[last.id := ClientSum(last.checks)]
  }

  /** The count the page shows for goal `g` on day `d` when its checks come from `cs`. */
  function ShownCount(cs: seq<Check>, g: Id, d: Date, kst: string -> string): int {
    CountByDate(ClientChecks(ChecksOf(cs, g)), FormatDay(d), kst)
  }

  /** From year 1000 on, the page counts exactly the stored checks at `(goal, day)`, and sees
      a check on that day exactly when one is stored; before year 1000 it sees none. */
  lemma ShownCountIsStored(cs: seq<Check>, g: Id, d: Date, kst: string -> string)
    requires KstOnMidnights(kst)
    ensures ShownCount(cs, g, d, kst) == if d.year >= 1000 then SumValues(RowsAt(cs, g, d)) else 0
    ensures HasCheckOn(ClientChecks(ChecksOf(cs, g)), FormatDay(d), kst) <==> d.year >= 1000 && RowsAt(cs, g, d) != []
  {
    CountIsStored(cs, g, d, kst);
    SeesStored(cs, g, d, kst);
  }

  /** The goal's checks as the page receives them, one stored row at a time. */
  lemma ClientChecksStep(cs: seq<Check>, g: Id)
    requires cs != []
    ensures cs[0].goalId == g ==>
      ClientChecks(ChecksOf(cs, g)) == [ClientCheck(WireDate(cs[0].date), cs[0].value)] + ClientChecks(ChecksOf(cs[1..], g))
    ensures cs[0].goalId != g ==> ClientChecks(ChecksOf(cs, g)) == ClientChecks(ChecksOf(cs[1..], g))
  {
    if cs[0].goalId == g {
      assert ChecksOf(cs, g) == [cs[0]] + ChecksOf(cs[1..], g);
    } else {
      assert ChecksOf(cs, g) == ChecksOf(cs[1..], g);
    }
  }

  /** The rows at `(goal, day)`, one stored row at a time. */
  lemma RowsAtStep(cs: seq<Check>, g: Id, d: Date)
    requires cs != []
    ensures AtKey(cs[0], g, d) ==> RowsAt(cs, g, d) == [cs[0]] + RowsAt(cs[1..], g, d)
    ensures !AtKey(cs[0], g, d) ==> RowsAt(cs, g, d) == RowsAt(cs[1..], g, d)
  {
    if AtKey(cs[0], g, d) {
      assert RowsAt(cs, g, d) == [cs[0]] + RowsAt(cs[1..], g, d);
    } else {
      assert RowsAt(cs, g, d) == RowsAt(cs[1..], g, d);
    }
  }

  lemma {:induction false} CountIsStored(cs: seq<Check>, g: Id, d: Date, kst: string -> string)
    requires KstOnMidnights(kst)
    ensures ShownCount(cs, g, d, kst) == if d.year >= 1000 then SumValues(RowsAt(cs, g, d)) else 0
  {
    if cs != [] {
      CountIsStored(cs[1..], g, d, kst);
      SameDayOfStored(cs[0].date, d, kst);
      ClientChecksStep(cs, g);
      RowsAtStep(cs, g, d);
      if cs[0].goalId == g {
        var all := ClientChecks(ChecksOf(cs, g));
        assert all[1..] == ClientChecks(ChecksOf(cs[1..], g));
      }
    } else {
      assert ChecksOf(cs, g) == [];
    }
  }

  lemma {:induction false} SeesStored(cs: seq<Check>, g: Id, d: Date, kst: string -> string)
    requires KstOnMidnights(kst)
    ensures HasCheckOn(ClientChecks(ChecksOf(cs, g)), FormatDay(d), kst) <==> d.year >= 1000 && RowsAt(cs, g, d) != []
  {
    if cs != [] {
      SeesStored(cs[1..], g, d, kst);
      SameDayOfStored(cs[0].date, d, kst);
      ClientChecksStep(cs, g);
      RowsAtStep(cs, g, d);
      if cs[0].goalId == g {
        var rest := ClientChecks(ChecksOf(cs[1..], g));
        var all := ClientChecks(ChecksOf(cs, g));
        assert forall c :: c in all <==> c == all[0] || c in rest;
      }
    } else {
      assert ChecksOf(cs, g) == [];
    }
  }

  /** With one row per `(goal, day)`, the page shows that row's value, or 0 without one (and
      0 before year 1000). */
  lemma ShownCountIsValue(cs: seq<Check>, g: Id, d: Date, kst: string -> string)
    requires UniqueCheckKeys(cs) && KstOnMidnights(kst)
    ensures ShownCount(cs, g, d, kst) == (if d.year < 1000 || RowsAt(cs, g, d) == [] then 0 else RowsAt(cs, g, d)[0].value)
  {
    ShownCountIsStored(cs, g, d, kst);
    AtMostOneRow(cs, g, d);
    SumOfAtMostOne(RowsAt(cs, g, d));
  }

  /** The sum over no row or one row. */
  lemma SumOfAtMostOne(rows: seq<Check>)
    requires |rows| <= 1
    ensures SumValues(rows) == (if rows == [] then 0 else rows[0].value)
  {
    if rows != [] {
      assert rows[1..] == [];
    }
  }

  /** The page's per-goal total is the dashboard's `checks` figure for that goal. */
  lemma {:induction false} ClientSumIsDone(cs: seq<Check>)
    ensures ClientSum(ClientChecks(cs)) == SumValues(cs)
  {
    if cs != [] {
      ClientSumIsDone(cs[1..]);
    }
  }

  /** `goalCounts` has a key for each goal, and with distinct ids each goal's entry is the
      sum of its own check values. */
  lemma GoalCountsSpec(goals: seq<ClientGoal>)
    ensures forall id :: id in GoalCounts(goals) <==> exists g :: g in goals && g.id == id
    ensures (forall i, j :: 0 <= i < j < |goals| ==> goals[i].id != goals[j].id) ==>
      forall i :: 0 <= i < |goals| ==> GoalCounts(goals)[goals[i].id] == ClientSum(goals[i].checks)
  {
    if forall i, j :: 0 <= i < j < |goals| ==> goals[i].id != goals[j].id {
      GoalCountsValues(goals);
    }
  }

  lemma {:induction false} GoalCountsValues(goals: seq<ClientGoal>)
    requires forall i, j :: 0 <= i < j < |goals| ==> goals[i].id != goals[j].id
    ensures forall i :: 0 <= i < |goals| ==>
      goals[i].id in GoalCounts(goals) && GoalCounts(goals)[goals[i].id] == ClientSum(goals[i].checks)
  {
    if goals != [] {
      var init := goals[..|goals| - 1];
      GoalCountsValues(init);
      forall i | 0 <= i < |goals|
        ensures GoalCounts(goals)[goals[i].id] == ClientSum(goals[i].checks)
      {
        if i < |goals| - 1 {
          assert init[i] == goals[i];
        }
      }
    }
  }

  // ---- percentage shown ----

  /** A JavaScript number as the page prints it. */
  datatype Shown = Num(n: int) | NaN | MinusInfinity

  /** `Math.min(100, Math.round((done / goal.targetCount) * 100))`, with no guard for a zero
      target: `x / 0` is plus or minus infinity, or NaN for `0 / 0`. */
  function DisplayedPct(done: int, target: int): (r: Shown)
    ensures r.Num? ==> r.n <= 100
    ensures r.Num? <==> target != 0 || done > 0
  {
    if target > 0 then Num(Min(100, RoundPercent(done, target)))
    else if target < 0 then Num(Min(100, RoundPercent(-done, -target)))
    else if done > 0 then Num(100)
    else if done < 0 then MinusInfinity
    else NaN
  }

  /** For a positive target the page shows the same figure as the dashboard's progress. */
  lemma DisplayedPctAgrees(done: int, target: int)
    requires target > 0
    ensures DisplayedPct(done, target) == Num(Percent(done, target))
  {
  }

  /** Every goal the create handler accepts has a non-zero target, so its figure is a number
      no larger than 100. */
  lemma DisplayedPctOfCreatedGoal(done: int, input: GoalsRoute.GoalInput)
    requires GoalsRoute.HasRequiredFields(input)
    ensures DisplayedPct(done, input.targetCount.value).Num?
    ensures DisplayedPct(done, input.targetCount.value).n <= 100
  {
  }

  /** A zero target with nothing done shows NaN. */
  lemma DisplayedPctZeroTarget()
    ensures DisplayedPct(0, 0) == NaN && DisplayedPct(-1, 0) == MinusInfinity && DisplayedPct(1, 0) == Num(100)
  {
  }

  // ---- requests sent ----

  /** `setCheckForDate`: checking posts with no value (so 1), unchecking deletes. */
  function SetCheckForDate(goalId: Id, date: string, checked: bool): (r: CheckRequest)
    ensures r.goalId == goalId && r.date == date
    ensures r.PostCheck? <==> checked
    ensures r.PostCheck? ==> NumberOf(r.value) == 1
  {
    if checked then PostCheck(goalId, date, Omitted) else DeleteCheck(goalId, date)
  }

  /** A calendar tap: `setCheckForDate(goal.id, d, !(countByDate(goal, d) > 0))`. */
  function CalendarTap(goal: ClientGoal, date: string, kst: string -> string): (r: CheckRequest)
    ensures r.goalId == goal.id && r.date == date
    ensures r.DeleteCheck? <==> CountByDate(goal.checks, date, kst) > 0
    ensures r.PostCheck? ==> NumberOf(r.value) == 1
  {
    SetCheckForDate(goal.id, date, !(CountByDate(goal.checks, date, kst) > 0))
  }

  /** `toggleCheck`: delete today's check when there is one, else post one. */
  function ToggleToday(goal: ClientGoal, today: string, kst: string -> string): (r: CheckRequest)
    ensures r.goalId == goal.id && r.date == today
    ensures r.DeleteCheck? <==> HasCheckOn(goal.checks, today, kst)
    ensures r.PostCheck? ==> NumberOf(r.value) == 1
  {
    if HasCheckOn(goal.checks, today, kst) then DeleteCheck(goal.id, today) else PostCheck(goal.id, today, Omitted)
  }

  /** `incrementToday`: a positive delta is posted as the value, anything else deletes. */
  function IncrementToday(goalId: Id, today: string, delta: int): (r: CheckRequest)
    ensures r.goalId == goalId && r.date == today
    ensures r.PostCheck? <==> delta > 0
    ensures r.PostCheck? ==> NumberOf(r.value) == delta
  {
    if delta > 0 then PostCheck(goalId, today, Given(delta)) else DeleteCheck(goalId, today)
  }

  /** The count shown after a request on calendar day `d` for the goal it names. */
  lemma CountAfter(req: CheckRequest, cs: seq<Check>, d: Date, newId: Id, kst: string -> string)
    requires UniqueCheckKeys(cs) && KstOnMidnights(kst) && req.date == FormatDay(d)
    ensures ShownCount(ChecksAfter(req, cs, newId), req.goalId, d, kst) ==
      (if req.PostCheck? && d.year >= 1000 then NumberOf(req.value) else 0)
  {
    ParseFormatDay(d);
    ChecksAfterSpec(req, cs, newId);
    var after := ChecksAfter(req, cs, newId);
    if req.DeleteCheck? {
      assert RowsAt(after, req.goalId, d) == [];
    }
    ShownCountIsValue(after, req.goalId, d, kst);
  }

  /** From year 1000 on, a calendar tap flips whether the day shows as checked. Before year
      1000 the day never shows as checked, so every tap posts and still shows nothing. */
  lemma TapFlips(cs: seq<Check>, g: Id, target: int, d: Date, newId: Id, kst: string -> string)
    requires UniqueCheckKeys(cs) && KstOnMidnights(kst)
    ensures var goal := ClientGoal(g, target, ClientChecks(ChecksOf(cs, g)));
      var after := ChecksAfter(CalendarTap(goal, FormatDay(d), kst), cs, newId);
      && (d.year >= 1000 ==> (ShownCount(after, g, d, kst) > 0 <==> !(ShownCount(cs, g, d, kst) > 0)))
      && (d.year < 1000 ==> CalendarTap(goal, FormatDay(d), kst).PostCheck? && ShownCount(after, g, d, kst) == 0)
  {
    var goal := ClientGoal(g, target, ClientChecks(ChecksOf(cs, g)));
    CountAfter(CalendarTap(goal, FormatDay(d), kst), cs, d, newId, kst);
    CountIsStored(cs, g, d, kst);
  }

  /** The today toggle, with today the Seoul key of day `d`: from year 1000 on it flips
      whether a check exists today. Before year 1000 the short key fails the model's
      strict `ParseDay`, so the modelled handler fails and the table is unchanged;
      JavaScript's lenient parser would accept that key. */
  lemma ToggleFlips(cs: seq<Check>, g: Id, target: int, d: Date, newId: Id, kst: string -> string)
    requires UniqueCheckKeys(cs) && KstOnMidnights(kst)
    ensures var goal := ClientGoal(g, target, ClientChecks(ChecksOf(cs, g)));
      var after := ChecksAfter(ToggleToday(goal, KstKey(d), kst), cs, newId);
      && (d.year >= 1000 ==>
            (HasCheckOn(ClientChecks(ChecksOf(after, g)), KstKey(d), kst) <==> !HasCheckOn(goal.checks, KstKey(d), kst)))
      && (d.year < 1000 ==> after == cs)
  {
    KstKeyShape(d);
    if d.year >= 1000 {
      var goal := ClientGoal(g, target, ClientChecks(ChecksOf(cs, g)));
      var req := ToggleToday(goal, FormatDay(d), kst);
      var after := ChecksAfter(req, cs, newId);
      ParseFormatDay(d);
      ChecksAfterSpec(req, cs, newId);
      SeesStored(cs, g, d, kst);
      SeesStored(after, g, d, kst);
    }
  }

  /** The "+1" button sets today's count to the delta rather than adding to it; before year
      1000 today's short key fails the model's strict `ParseDay`, so the table is
      unchanged (JavaScript's lenient parser would accept that key). */
  lemma IncrementSetsCount(cs: seq<Check>, g: Id, d: Date, delta: int, newId: Id, kst: string -> string)
    requires UniqueCheckKeys(cs) && KstOnMidnights(kst)
    ensures d.year >= 1000 ==>
      ShownCount(ChecksAfter(IncrementToday(g, KstKey(d), delta), cs, newId), g, d, kst) == (if delta > 0 then delta else 0)
    ensures d.year < 1000 ==> ChecksAfter(IncrementToday(g, KstKey(d), delta), cs, newId) == cs
  {
    KstKeyShape(d);
    if d.year >= 1000 {
      CountAfter(IncrementToday(g, FormatDay(d), delta), cs, d, newId, kst);
    }
  }
}
