# godlife service logic in Dafny

godlife is a habit tracker. A user sets monthly goals ("read 20 times in May"), ticks
them off day by day, and may belong to a team whose dashboard compares the members'
progress. This project models the server's REST handlers and the dashboard page's pure
helpers, and proves properties of them.

The database is one object, `Store.Db`. It holds four tables (users, teams, goals, checks)
as sequences, plus the counter that hands out fresh ids. `Db.Valid()` states the
constraints the schema enforces:

- every table's primary key (`id`) is unique;
- `authUserId` is unique among users;
- invite codes are unique;
- there is one check per `(goalId, date)`;
- a user's `teamId` names an existing team;
- every id was handed out before.

Each handler is a module-level method that takes the database `db: Db` and may modify it
(`modifies db`). It also takes the authenticated caller, the request fields and, where the
source calls out, a parameter for the outside value: the 4 random bytes of an invite code,
the current month, or the creation time. Its `ensures`
list the error replies in the order the source checks them. For a success it gives the new
tables through pure table functions from `Tables`, such as `Upsert`, `DeleteAt`,
`UpdateUser` and `ReplaceTeamRow`. The lemmas about those functions carry the properties.

The handlers that only read (`GET /api/dashboard/team`, the goal listing) and the
aggregation behind them are functions over the loaded rows. The page's one loop,
`daysInMonth`, is a method with a `while` loop, proved against the function `MonthDays`.

Modelling choices:

- **Dates.** A stored `date` is a calendar day, `Calendar.Date`, with a year from 0 to
  9999. `toISOString` prints it as the "YYYY-MM-DD" key `FormatDay`, with the year padded
  to four digits. A stored date is midnight UTC, which falls on the same calendar day in Seoul,
  so the Seoul formatter (en-CA, `year: "numeric"`) prints `Calendar.KstKey` of that day.
  That key pads month and day but not the year: from year 1000 on it equals `FormatDay`
  (`Calendar.KstKeyShape`), and before that it is shorter ("999-05-03") and is no
  "YYYY-MM-DD" key. The model keeps this. So before year 1000 the page never matches a
  stored check with a calendar day, and the "today" key it sends fails the model's strict
  date parse (JavaScript's lenient parser would accept it; see "Left out"). The page's formatter is a parameter, `kst`; `KstOnMidnights` assumes only that it
  prints `KstKey` for stored dates.
- **JavaScript numbers.** `Math.round(done / target * 100)` is computed exactly as
  `RoundPercent`: the nearest integer, with a half rounding up. `x / 0` on the page
  becomes one of the values of `DashboardPage.Shown`.
- **Completion is clamped only from above.** A member's completion and each goal's
  progress are `Math.min(100, …)` of the rounded ratio
  (src/app/api/dashboard/team/route.ts:66 and :78), with no lower clamp. So check values
  that are negative give a negative figure. `Progress.PercentCanBeNegative` shows one, and
  `Progress.SummaryNonNegative` gives the lower bound when no value is negative.
- **Create while in a team.** Creating a team while already in one answers 400 "Already
  in a team" (src/app/api/team/create/route.ts:28).
- **Failed writes.** A write the database rejects is modelled as `Failure(500, "Internal
  Server Error")`. This covers an invalid date and an invite code that collides with
  another team's.
- **Numbers.** Check values and target counts are JavaScript numbers (doubles). The model
  takes them as integers; see "Left out".
- **Upsert versus increment.** A check POST overwrites the value and never adds to it.
  So the page's "+1" button sets today's count to 1 rather than adding one
  (`DashboardPage.IncrementSetsCount`).

## Model

| member | source | states |
|---|---|---|
| Auth.BearerToken | src/lib/supabase.ts:20-23 | a token is present exactly when the header's first seven characters lower-case to "bearer ", and it is the rest of the header unchanged |
| Auth.GetUserFromRequest | src/lib/supabase.ts:17-35 | a user comes back exactly when there is no error; `missing_token` exactly when there is no token or it is empty; a user only when the verifier answered one without error; otherwise `invalid_token` |
| Auth.ToLower | src/lib/supabase.ts:21 | `toLowerCase()` keeps the length and lower-cases each character on its own |
| Auth.DisplayName | src/app/api/team/join/route.ts:31 | `full_name ?? email ?? "사용자"`: the first of the two that is present, else "사용자" |
| Auth.BearerAnyCase | src/lib/supabase.ts:21-22 | the scheme matches in any letter case and the token keeps its own case |
| Auth.EmptyBearerIsMissing | src/lib/supabase.ts:21-27 | the header "Bearer " with nothing after it gives `missing_token` and no user |
| Calendar.DaysIn | src/app/dashboard/page.tsx:51-60 | a month has 28 to 31 days, and 29 exactly for February of a leap year |
| Calendar.NextDay | src/app/dashboard/page.tsx:57 | stepping one UTC day gives a valid day strictly after the previous one |
| Calendar.MonthStart | src/app/api/goals/route.ts:28-29 | a month parameter gives a day exactly when it reads as "YYYY-MM" with a month in 1..12, and then it is the first day of the month it names |
| Calendar.MonthStartOfKey | src/app/api/goals/route.ts:28-29 | a padded "YYYY-MM" key of a month reads back as that month's first day |
| Calendar.ParseDay | src/app/api/checks/route.ts:38 | only a "YYYY-MM-DD" string parses to a day (partners: `ParseFormatDay`, `FormatParseDay`) |
| Calendar.FormatDay | src/app/dashboard/page.tsx:56 | `toISOString().slice(0, 10)` of a day is a "YYYY-MM-DD" key |
| Calendar.KstKeyShape | src/app/api/dashboard/team/route.ts:5-13 | the Seoul formatter's key is the "YYYY-MM-DD" key from year 1000 on; before that it is shorter and no such key |
| Calendar.KstKeyOrder | src/app/api/dashboard/team/route.ts:72 | from year 1000 on, comparing Seoul keys as strings compares the days chronologically |
| Strings.NatToStringShort | src/app/api/dashboard/team/route.ts:8 | a year below 1000 prints with at most three digits |
| Calendar.ParseFormatDay | src/app/api/checks/route.ts:38 | a day's "YYYY-MM-DD" key parses back to that day |
| Calendar.FormatParseDay | src/app/api/checks/route.ts:38 | a key that parses to a day is that day's printed key |
| Calendar.FormatDayInjective | src/app/api/dashboard/team/route.ts:5-13 | two days have the same key exactly when they are the same day |
| Calendar.FormatDayOrder | src/app/api/dashboard/team/route.ts:72 | comparing keys as strings with `<` is comparing the days chronologically |
| Strings.PadLess | src/app/dashboard/page.tsx:29 | zero-padding to a fixed width keeps the numeric order as string order |
| InviteCode.HexRoundTrip | src/app/api/team/create/route.ts:7 | `toString("hex")` can be decoded back to the bytes |
| InviteCode.Generate | src/app/api/team/create/route.ts:6-8 | an invite code is 8 lower-case hex characters |
| InviteCode.GenerateInjective | src/app/api/team/invite/route.ts:6-8 | different random bytes give different codes |
| Tables.FindUser | src/app/api/checks/route.ts:5-10 | the lookup by `authUserId` finds a row with that id, or reports that none has it |
| Tables.InsertUser | src/app/api/goals/route.ts:11-17 | adding a user with a new `authUserId` keeps ids unique, finds the new row and leaves other lookups unchanged |
| Tables.UpdateUserSpec | src/app/api/team/leave/route.ts:18-21 | updating team and role touches only the caller's row and only those two fields |
| Tables.UsersInTeam | src/app/api/dashboard/team/route.ts:48-49 | the team's users are exactly the rows whose `teamId` is the team, each as often as in the table |
| Tables.FindTeam | src/app/api/dashboard/team/route.ts:46-57 | the lookup by id finds that team, or there is none with that id |
| Tables.FindTeamByCode | src/app/api/team/join/route.ts:15-18 | the lookup by code finds a team holding it, or none holds it |
| Tables.FindTeamByCodeUnique | src/app/api/team/join/route.ts:15 | with unique codes a code finds exactly the team holding it |
| Tables.InsertTeam | src/app/api/team/create/route.ts:32-35 | adding a team with a new id and new code keeps both unique and makes it findable by id and code |
| Tables.ReplaceTeamRowSpec | src/app/api/team/update/route.ts:21-25 | rewriting one team row keeps ids and codes unique, changes only that row, and finds the new row by id and code |
| Tables.GoalsOf | src/app/api/dashboard/team/route.ts:51 | a user's goals are exactly the goal rows they own, each as often as in the table |
| Tables.WithChecks | src/app/api/goals/route.ts:36 | each goal comes with exactly its own checks |
| Tables.ChecksOf | src/app/api/dashboard/team/route.ts:51 | a goal's checks are exactly the check rows with its id, each as often as in the table |
| Tables.RowsAt | src/app/api/checks/route.ts:41 | the rows at `(goalId, date)` are exactly those with that key |
| Tables.DeleteAt | src/app/api/checks/route.ts:76-78 | `deleteMany` keeps exactly the rows at other keys, each as often as before |
| Tables.Upsert | src/app/api/checks/route.ts:40-44 | the upsert adds no row at another key |
| Tables.UpsertKeepsUnique | src/app/api/checks/route.ts:40-44 | the upsert keeps `(goalId, date)` unique |
| Tables.AtMostOneRow | src/app/api/checks/route.ts:41 | the unique key allows at most one row per `(goalId, date)` |
| Tables.UpsertSingleRow | src/app/api/checks/route.ts:40-44 | afterwards exactly one row is at the key, carrying the new value, the old row's id when there was one and a fresh id otherwise |
| Tables.UpsertLeavesOthers | src/app/api/checks/route.ts:40-44 | rows at every other key are unchanged and in the same order |
| Tables.UpsertOverwrites | src/app/api/checks/route.ts:42 | a second upsert overwrites the first value rather than adding to it |
| Tables.UpsertIdempotent | src/app/api/checks/route.ts:40-44 | repeating an upsert with the same value changes nothing |
| Tables.UpsertKeepsIds | src/app/api/checks/route.ts:40-44 | a new row gets the fresh id and every other row keeps its id, so ids stay unique |
| Tables.DeleteAtKeepsIds | src/app/api/checks/route.ts:76-78 | the delete keeps ids unique |
| Tables.UniqueIdsSub | src/app/api/goals/route.ts:34-38 | a selection of rows, each taken at most as often as in the table, keeps unique ids |
| Tables.UniqueIdsOnce | src/app/api/goals/route.ts:34-38 | with unique ids each row occurs at most once and its id determines it |
| Tables.DeleteAtSpec | src/app/api/checks/route.ts:76-78 | after the delete no row is at the key, and keys stay unique |
| Tables.DeleteAtIdempotent | src/app/api/checks/route.ts:76-78 | deleting twice equals deleting once |
| Tables.DeleteAtNothing | src/app/api/checks/route.ts:76-80 | deleting a key with no rows leaves the table as it was |
| ChecksRoute.NumberOf | src/app/api/checks/route.ts:23-43 | a missing `value` counts as 1, `null` as 0, a number as itself |
| ChecksRoute.ChecksAfter | src/app/api/checks/route.ts:38-78 | the check table after a POST or DELETE the handler accepted: unchanged for an invalid date; otherwise every other key's rows are as before, and a DELETE leaves no row at the key |
| ChecksRoute.ChecksAfterSpec | src/app/api/checks/route.ts:40-78 | on a table with one row per key, the result keeps one row per key, and after a POST exactly one row is at the key, holding the value sent |
| ChecksRoute.UpsertKeepsRows | src/app/api/checks/route.ts:40-44 | the upsert keeps the check table's constraints: unique keys, unique ids, ids below the counter |
| ChecksRoute.UpsertRow | src/app/api/checks/route.ts:40-44 | the write leaves exactly one row at the key with the given value, other keys as before, and the store's constraints |
| ChecksRoute.DeleteRows | src/app/api/checks/route.ts:76-78 | the write removes every row at the key and nothing else, and keeps the store's constraints |
| ChecksRoute.Post | src/app/api/checks/route.ts:12-47 | errors in order 401, 404 user, 400 missing fields, 404 goal not owned, 500 invalid date, each with no change; on success 201 and the table is `ChecksAfter` of the request, the upsert: one row at the key with the given value (default 1, null is 0), every other key unchanged |
| ChecksRoute.Delete | src/app/api/checks/route.ts:49-81 | errors in order 401, 404 user, 400 missing params, 404 goal not owned, 500 for a date that does not parse (Prisma's throw on an invalid date); on success 200 even when nothing matched, the table is `ChecksAfter` of the request: no row left at the key, other rows kept |
| GoalsRoute.NewUser | src/app/api/goals/route.ts:11-17 | the created row has the caller's auth id, email (or ""), name, role MEMBER and no team |
| GoalsRoute.EnsureUserRows | src/app/api/goals/route.ts:5-18 | the table keeps every row in place, grows by at most one, and afterwards finds the caller |
| GoalsRoute.EnsureUserRowsSpec | src/app/api/goals/route.ts:5-18 | afterwards the caller has a row: the existing one unchanged, or exactly one new row `NewUser` under the fresh id; no other caller's row changes |
| GoalsRoute.EnsureUserIdempotent | src/app/api/goals/route.ts:5-18 | a second `ensureUser` creates nothing |
| GoalsRoute.EnsureUser | src/app/api/goals/route.ts:5-18 | the method writes exactly `EnsureUserRows` and returns the caller's row |
| GoalsRoute.MonthArg | src/app/api/goals/route.ts:27-30 | no month gives the current month; a given month gives a day exactly when it reads as "YYYY-MM" with a month in 1..12, and then the first day of that month |
| GoalsRoute.MonthGoals | src/app/api/goals/route.ts:35 | the filter keeps exactly the goals of that user and month, each as often as in the table |
| GoalsRoute.InsertByCreatedSpec | src/app/api/goals/route.ts:37 | inserting into a newest-first list keeps it newest first and adds exactly that goal |
| GoalsRoute.SortNewestFirstSpec | src/app/api/goals/route.ts:37 | the listing is sorted by `createdAt` descending and is a permutation of its input |
| GoalsRoute.SortedMonthGoals | src/app/api/goals/route.ts:34-37 | the sorted selection holds each goal of that user and month as often as the table does, newest first, with unique ids when the table has them |
| GoalsRoute.ListGoalsSpec | src/app/api/goals/route.ts:34-38 | GET lists each goal of that user and month as often as the table holds it (so exactly once, as ids are unique in a valid store), no other goal, newest first, each with its own checks |
| GoalsRoute.HasRequiredFields | src/app/api/goals/route.ts:61 | an accepted body has a title, a unit and a non-zero target count |
| GoalsRoute.Get | src/app/api/goals/route.ts:20-41 | 401 without a caller and no change; otherwise the caller's row is ensured, then 500 for an invalid month, else 200 with that user's goals of the month |
| GoalsRoute.Post | src/app/api/goals/route.ts:43-90 | 401; 400 when title, targetCount (0 included) or unit is falsy, with no change; after `ensureUser`, 500 for an invalid month or date; else 201 with one goal appended, owned by the caller, carrying the caller's current teamId and the given title, target, unit, category, notes, month and dates |
| Membership.NewMember | src/app/api/team/join/route.ts:27-35 | the created row has the caller's auth id, email (or ""), display name, the role given and the team |
| Membership.PlaceUser | src/app/api/team/join/route.ts:25-45 | the table grows by one row exactly when the caller had none, and every row of another caller was there before |
| Membership.PlaceUserSpec | src/app/api/team/join/route.ts:25-47 | placing the caller leaves exactly one row for them, with that team and role; a row is added only if they had none; nobody else's row changes |
| Membership.PlaceUserSoleMember | src/app/api/team/create/route.ts:36-56 | placed in a team nobody belonged to, the caller is its only member |
| Membership.Place | src/app/api/team/join/route.ts:25-45 | the method writes exactly `PlaceUser` and keeps the store's constraints |
| TeamCreateRoute.AddTeam | src/app/api/team/create/route.ts:32-35 | the new team row is appended under a fresh id, is found by its code, and has no members yet |
| TeamCreateRoute.Create | src/app/api/team/create/route.ts:10-59 | 401; 400 name required; 400 "Already in a team" with no change; 500 when the code is taken; else the team with that name and generated code is added and the caller becomes its ADMIN and only member, created when new |
| TeamJoinRoute.Join | src/app/api/team/join/route.ts:5-48 | 401; 400 code required; 404 unknown code with no change; else the caller's row is created or moved to that team as MEMBER (an ADMIN is demoted), teams are unchanged, and the reply is the team's id |
| TeamInviteRoute.OldCodeRetired | src/app/api/team/invite/route.ts:31-33 | once the code is replaced the old code finds no team |
| TeamInviteRoute.Rotate | src/app/api/team/invite/route.ts:10-38 | 401; 404 no user; 403 not ADMIN, checked before the team; 400 no team; 500 when another team holds the code; else only that team's code changes, to an 8-hex-character code that now finds it |
| TeamLeaveRoute.Leave | src/app/api/team/leave/route.ts:5-24 | 401; 400 with no change when the caller has no row or no team; else their teamId is cleared and role set to MEMBER, no team row touched |
| TeamLeaveRoute.LeaveTwice | src/app/api/team/leave/route.ts:14-23 | leaving twice in a row gives ok and then 400 "No team joined" |
| TeamUpdateRoute.Rename | src/app/api/team/update/route.ts:5-28 | 401; 400 name required before any lookup; 400 no team before the role check; 403 not ADMIN; else only that team's name changes, code and users kept |
| Progress.TotalDoneFlat | src/app/api/dashboard/team/route.ts:61-64 | `totalDone` is the sum of every check value over all of the member's goals |
| Progress.SumValuesNonNegative | src/app/api/dashboard/team/route.ts:62 | with no negative value the sum is not negative |
| Progress.RoundPercent | src/app/api/dashboard/team/route.ts:66 | the result is within one half of 100·done/target |
| Progress.Percent | src/app/api/dashboard/team/route.ts:65-66 | the figure is at most 100, and 0 when the target is not positive (no division by zero) |
| Progress.PercentFull | src/app/api/dashboard/team/route.ts:66 | done at least the positive target gives 100 |
| Progress.PercentNonNegative | src/app/api/dashboard/team/route.ts:65-66 | a non-negative done never gives a negative figure |
| Progress.PercentCanBeNegative | src/app/api/dashboard/team/route.ts:66 | a negative done gives a negative figure, so the clamp is only from above |
| Progress.PercentMonotone | src/app/api/dashboard/team/route.ts:65-66 | more done never gives a smaller figure |
| Progress.Details | src/app/api/dashboard/team/route.ts:75-87 | one detail per goal, in goal order |
| Progress.DetailsAddUp | src/app/api/dashboard/team/route.ts:61-64 | the per-goal `checks` add up to the member's `totalDone` |
| Progress.TagChecks | src/app/api/dashboard/team/route.ts:70 | one tagged entry per check, with the Seoul key of its date and the goal's title |
| Progress.TaggedSpec | src/app/api/dashboard/team/route.ts:68-71 | the flattened list has one entry per check; each is a check of one of the goals tagged with that goal's title, and every check is there |
| Progress.InsertRecentSpec | src/app/api/dashboard/team/route.ts:72 | inserting into a latest-first list keeps it latest first and adds exactly that entry |
| Progress.SortRecentSpec | src/app/api/dashboard/team/route.ts:72 | the sort puts larger date keys first (later days, from year 1000 on: `Calendar.KstKeyOrder`) and is a permutation |
| Progress.PrefixIsLatest | src/app/api/dashboard/team/route.ts:73 | a prefix of a latest-first list holds its latest entries |
| Progress.RecentChecks | src/app/api/dashboard/team/route.ts:68-73 | at most three entries (the rest in `RecentChecksSpec`) |
| Progress.RecentChecksSpec | src/app/api/dashboard/team/route.ts:68-73 | `recentChecks` has min(3, number of checks) entries, latest first, drawn from the tagged checks, none left out later than one kept |
| Progress.Summarize | src/app/api/dashboard/team/route.ts:59-98 | the member's row carries the user's id, name, email and role, the goal count, and a completion of at most 100 (the rest in `SummarizeSpec`) |
| Progress.SummarizeSpec | src/app/api/dashboard/team/route.ts:59-98 | `goals` is the goal count; completion is at most 100, 0 with no positive target, 100 once the target is met; the details match the goals, add up to the total, and are at most 100 each |
| Progress.SummaryNonNegative | src/app/api/dashboard/team/route.ts:65-78 | with no negative check value, completion and every progress are between 0 and 100 |
| TeamDashboardRoute.MemberSummaries | src/app/api/dashboard/team/route.ts:59-99 | one summary per team user, in order, each over that user's goals and their checks |
| TeamDashboardRoute.Get | src/app/api/dashboard/team/route.ts:33-116 | 401; 400 "No team joined" with no row or no team; 404 when the team is missing; else the team's id and name, the invite code exactly when the caller is ADMIN, `meRole` the caller's role, and the members' summaries |
| TeamDashboardRoute.OneSummaryPerMember | src/app/api/dashboard/team/route.ts:59-95 | one summary per member of the caller's team, with that member's id and goal count and a completion of at most 100 |
| DashboardPage.FormatMonth | src/app/dashboard/page.tsx:28-30 | from year 1000 on the month key reads as that year and month; before that the unpadded year makes it no month key |
| DashboardPage.FormatMonthRoundTrip | src/app/dashboard/page.tsx:28-30 | for four-digit years the month key has 7 characters and the goals handler reads it back as that month's first day |
| DashboardPage.ToDateKey | src/app/dashboard/page.tsx:42-45 | a "YYYY-MM-DD" input is kept; the result is such a key exactly when the input or its formatted form is one |
| DashboardPage.ToDateKeyIdempotent | src/app/dashboard/page.tsx:42-45 | keying again changes nothing whenever the first keying gave a "YYYY-MM-DD" key |
| DashboardPage.ToDateKeyOfStored | src/app/dashboard/page.tsx:32-45 | a stored check's ISO date keys to the Seoul key of its day; a day's "YYYY-MM-DD" key is kept |
| DashboardPage.IsSameDay | src/app/dashboard/page.tsx:47-49 | a string is on its own day, and two "YYYY-MM-DD" keys are on the same day exactly when equal |
| DashboardPage.SameDayOfStored | src/app/dashboard/page.tsx:32-49 | a stored check is on a calendar day's key exactly when it is that day and its year is at least 1000 |
| DashboardPage.DaysOf | src/app/dashboard/page.tsx:51-60 | a month lists as many keys as it has days |
| DashboardPage.DaysInMonth | src/app/dashboard/page.tsx:51-60 | the loop lists exactly `MonthDays` of the month key |
| DashboardPage.DaysOfParse | src/app/dashboard/page.tsx:51-60 | 28 to 31 entries, the i-th the key of day i + 1 |
| DashboardPage.DaysOfAscending | src/app/dashboard/page.tsx:51-60 | the entries are strictly ascending |
| DashboardPage.DaysOfComplete | src/app/dashboard/page.tsx:51-60 | every day of the month is listed |
| DashboardPage.MonthDaysPrefix | src/app/dashboard/page.tsx:52-53 | each entry starts with the month key for years from 100 on; for years 0 to 99 the days of 1900 to 1999 are listed |
| DashboardPage.CalendarHoldsToday | src/app/dashboard/page.tsx:28-60 | the calendar of the page's own month key holds today |
| DashboardPage.CountByDate | src/app/dashboard/page.tsx:252-256 | 0 when no check is on that day; not negative when no value is |
| DashboardPage.ShownCountIsStored | src/app/dashboard/page.tsx:252-256 | from year 1000 on `countByDate` sums exactly the stored checks at that goal and day, and `some(isSameDay)` holds exactly when one is stored; before year 1000 the count is 0 and no check is seen |
| DashboardPage.ShownCountIsValue | src/app/dashboard/page.tsx:252-256 | with one row per key the count shown is that row's value, or 0 without one or before year 1000 |
| DashboardPage.ClientSumIsDone | src/app/dashboard/page.tsx:302-303 | the page's per-goal total equals the sum of the goal's stored values |
| DashboardPage.GoalCounts | src/app/dashboard/page.tsx:301-304 | `goalCounts` has a key exactly for each goal's id |
| DashboardPage.GoalCountsSpec | src/app/dashboard/page.tsx:301-304 | `goalCounts` has a key per goal and, with distinct ids, maps each to the sum of its values |
| DashboardPage.DisplayedPct | src/app/dashboard/page.tsx:489 | the figure shown is a number exactly when the target is not zero or something is done, and is then at most 100 |
| DashboardPage.DisplayedPctAgrees | src/app/dashboard/page.tsx:489 | for a positive target the page shows min(100, round(100·done/target)), the dashboard's figure |
| DashboardPage.DisplayedPctOfCreatedGoal | src/app/dashboard/page.tsx:489 | every goal the create handler accepts shows a number of at most 100 |
| DashboardPage.DisplayedPctZeroTarget | src/app/dashboard/page.tsx:489 | a zero target shows NaN, minus infinity or 100 |
| DashboardPage.SetCheckForDate | src/app/dashboard/page.tsx:226-242 | checking sends a POST for that goal and date whose value counts as 1; unchecking sends a DELETE |
| DashboardPage.CalendarTap | src/app/dashboard/page.tsx:636-642 | a tap sends a DELETE exactly when the day's count is positive, else a POST of 1, for that goal and day |
| DashboardPage.ToggleToday | src/app/dashboard/page.tsx:198-216 | the toggle sends a DELETE exactly when a check is seen today, else a POST of 1 |
| DashboardPage.IncrementToday | src/app/dashboard/page.tsx:258-274 | a positive delta is posted as the value; anything else sends a DELETE |
| DashboardPage.CountAfter | src/app/dashboard/page.tsx:226-242 | after a POST for a calendar day the day shows the posted value, after a DELETE 0 (before year 1000 always 0) |
| DashboardPage.TapFlips | src/app/dashboard/page.tsx:636-642 | from year 1000 on a calendar tap always flips whether the day shows as checked; before that every tap posts and the day still shows nothing |
| DashboardPage.ToggleFlips | src/app/dashboard/page.tsx:198-216 | with today the Seoul key of the clock's day: from year 1000 on the toggle flips whether a check exists today; before that the model's strict `Calendar.ParseDay` rejects the short key, so the modelled handler answers 500 and the table is unchanged (see "Left out") |
| DashboardPage.IncrementSetsCount | src/app/dashboard/page.tsx:258-274 | from year 1000 on a positive delta sets today's count to the delta and any other deletes it; before that the model's strict `Calendar.ParseDay` rejects the short key and the table is unchanged (see "Left out") |

## Left out

- Persistence: Prisma, the connection pool and the health route are not part of this model. Tables are in-memory sequences, and ids come from a counter.
- The order of rows that Prisma returns for `team.users` and `user.goals` is unspecified; the model uses table order.
- Concurrency: races between requests on the check upsert and on lazy user creation are not modelled, because each handler runs as one atomic step.
- The identity provider's `getUser`, `randomBytes(4)`, the clock (the current month, `createdAt`) and the page's Seoul formatter are parameters.
- The page's formatter is constrained only on stored midnight dates (`KstOnMidnights`), and for year 0 that constraint is stronger than the real formatter: en-CA prints the year of the era, "1" (1 BC), where `Calendar.KstKey` has "0". No stated property depends on that one year. What it prints for other strings, such as a short key before year 1000, is left open.
- DashboardPage.ToggleFlips: the page's "today" is the Seoul key of some day `d` read from the clock; the clock itself is not modelled. Before year 1000 the lemma's "table unchanged" follows from the model's strict date parse only: JavaScript's fallback parser reads the short key "999-05-03" as a local-time date, so the source stores or deletes a row there, which the model does not capture.
- DashboardPage.IncrementSetsCount: before year 1000 the "table unchanged" branch follows from the model's strict date parse only; in the source `new Date("999-05-03")` is a valid date and the POST or DELETE runs.
- Calendar.ParseDay: JavaScript's `new Date(s)` also accepts other ISO forms, non-ISO forms through its fallback parser (such as the short pre-1000 key "999-05-03" that `DashboardPage.ToggleFlips` and `DashboardPage.IncrementSetsCount` send), and rolls over days such as Feb 30; the model accepts only a strict "YYYY-MM-DD" of a valid day and treats everything else as invalid.
- Calendar.MonthStart: month parameters that are not exactly "YYYY-MM" count as invalid.
- GoalsRoute.Get: when no month is given, the source uses the first of the current month in the server's local time zone; the model takes that day as the parameter `current`.
- GoalsRoute.Post: `targetCount` is taken as an integer. The source stores `Number(targetCount)`, a JavaScript double, in an integer column; fractions such as 1.5, strings, NaN and values outside the column's range are not modelled.
- ChecksRoute.Post: `value` is taken as an integer or null. `Number(value)` of a fraction such as 1.5, of a string or of a value outside the column's range is not modelled.
- ChecksRoute.NumberOf: a body `value` that is not a number or null (a string, a boolean) is not modelled.
- Progress.TagChecks: a check dated before year 1000 is tagged with the formatter's short key ("999-05-03"), exactly as the source does; the recent-checks sort then compares those strings, which for such years is not the chronological order.
- Progress.RoundPercent: it rounds exactly, without floating point. `Math.round` on a float can differ when 100·done/target lies exactly on a half that the float does not represent.
- Progress.SortRecent: the source's comparator never returns 0, so the order of entries with the same date depends on the engine's sort. The model fixes one order and states only the latest-first order and the permutation.
- Auth.ToLower: lower-cases ASCII letters only. JavaScript's Unicode case mapping of other characters is not modelled.
- DashboardPage.DaysInMonth: answers an empty list for strings other than "YYYY-MM", some of which JavaScript parses leniently. Years beyond 9999 are not modelled.
- The page's React state, fetch calls, reloads, busy flags and messages are not modelled; only the request each action sends is.
- The other pages, the session hook and the providers are not part of this model.
- The goal PATCH/DELETE handler is not part of this model.
- Response bodies are modelled only in the fields the properties speak about. For example, the create handler's `{ team }` wrapper is the `Team` value itself.
