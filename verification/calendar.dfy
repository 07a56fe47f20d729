/** Calendar days of the proleptic Gregorian calendar and their "YYYY-MM-DD" keys. */
module Calendar {
  import opened Wrappers
  import opened Strings

  datatype Day = Day(year: int, month: int, day: int)

  predicate IsLeapYear(y: int) {
    (y % 4 == 0 && y % 100 != 0) || y % 400 == 0
  }

  function DaysIn(y: int, m: int): (n: int)
    requires 1 <= m <= 12
    ensures 28 <= n <= 31
    ensures n == 29 <==> m == 2 && IsLeapYear(y)
  {
    if m == 2 then (if IsLeapYear(y) then 29 else 28)
    else if m == 4 || m == 6 || m == 9 || m == 11 then 30
    else 31
  }

  predicate ValidDay(d: Day) {
    0 <= d.year <= 9999 && 1 <= d.month <= 12 && 1 <= d.day <= DaysIn(d.year, d.month)
  }

  /** A calendar day with a four-digit year: what a stored `date` column holds
      (midnight UTC of that day). */
  type Date = d: Day | ValidDay(d) witness Day(1970, 1, 1)

  /** Chronological order. */
  predicate Before(a: Day, b: Day) {
    a.year < b.year || (a.year == b.year && (a.month < b.month || (a.month == b.month && a.day < b.day)))
  }

  /** `^\d{4}-\d{2}-\d{2}$` */
  predicate IsDateKey(s: string) {
    |s| == 10 && AllDigits(s[..4]) && s[4] == '-' && AllDigits(s[5..7]) && s[7] == '-' && AllDigits(s[8..])
  }

  /** "YYYY-MM-DD", as `toISOString().slice(0, 10)` prints it (and the en-CA formatter too,
      from year 1000 on: see `KstKey`). */
  function FormatDay(d: Date): (r: string)
    ensures IsDateKey(r)
  {
    Pad(d.year, 4) + "-" + Pad(d.month, 2) + "-" + Pad(d.day, 2)
  }

  /** `new Date(s)` for a date-only string: the day it names, or `None` for an invalid date. */
  function ParseDay(s: string): (r: Option<Date>)
    ensures r.Some? ==> IsDateKey(s)
  {
    if IsDateKey(s) then
      var y, m, d := ReadNat(s[..4]), ReadNat(s[5..7]), ReadNat(s[8..]);
      if 1 <= m <= 12 && 1 <= d <= DaysIn(y, m) then Some(Day(y, m, d)) else None
    else None
  }

  /** The two numbers of a "YYYY-MM" month key. */
  function ParseMonthKey(s: string): (r: Option<(nat, nat)>)
    ensures r.Some? ==> r.value.0 < 10000 && r.value.1 < 100
  {
    if |s| == 7 && AllDigits(s[..4]) && s[4] == '-' && AllDigits(s[5..]) then
      Some((ReadNat(s[..4]), ReadNat(s[5..])))
    else None
  }

  /** `new Date(`${s}-01T00:00:00.000Z`)`: the first day of the month `s` names. */
  function MonthStart(s: string): (r: Option<Date>)
    ensures r.Some? <==> ParseMonthKey(s).Some? && 1 <= ParseMonthKey(s).value.1 <= 12
    ensures r.Some? ==> ParseMonthKey(s) == Some((r.value.year, r.value.month)) && r.value.day == 1
  {
    match ParseMonthKey(s)
    case Some((y, m)) => if 1 <= m <= 12 then Some(Day(y, m, 1)) else None
    case None => None
  }

  /** The day after `d` (JavaScript's `setUTCDate(getUTCDate() + 1)`). */
  function NextDay(d: Day): (n: Day)
    requires 1 <= d.month <= 12 && 1 <= d.day <= DaysIn(d.year, d.month)
    ensures 1 <= n.month <= 12 && 1 <= n.day <= DaysIn(n.year, n.month)
    ensures Before(d, n)
  {
    if d.day < DaysIn(d.year, d.month) then Day(d.year, d.month, d.day + 1)
    else if d.month < 12 then Day(d.year, d.month + 1, 1)
    else Day(d.year + 1, 1, 1)
  }

  /** `formatKstDate` of a stored day (midnight UTC, which is the same calendar day
      in Seoul under every offset the zone has used): the en-CA formatter prints the
      year with as many digits as it needs (`year: "numeric"`) and month and day
      with two. For year 0 the real formatter prints the era year "1" (1 BC); this
      key has "0". */
  function KstKey(d: Date): string {
    NatToString(d.year) + "-" + Pad(d.month, 2) + "-" + Pad(d.day, 2)
  }

  /** From year 1000 on the Seoul key is the "YYYY-MM-DD" key; before that the year is
      printed short, so the key is shorter than any "YYYY-MM-DD" key. */
  lemma KstKeyShape(d: Date)
    ensures d.year >= 1000 ==> KstKey(d) == FormatDay(d)
    ensures d.year < 1000 ==> |KstKey(d)| < 10 && !IsDateKey(KstKey(d))
  {
    if d.year >= 1000 {
      NatToStringFourDigits(d.year);
    } else {
      NatToStringShort(d.year);
    }
  }

  /** A key that reads as "YYYY-MM" followed by "-01" for a month in 1..12 read back. */
  lemma MonthStartOfKey(y: nat, m: nat)
    requires y < 10000 && 1 <= m <= 12
    ensures MonthStart(Pad(y, 4) + "-" + Pad(m, 2)) == Some(Day(y, m, 1))
  {
    var s := Pad(y, 4) + "-" + Pad(m, 2);
    assert s[..4] == Pad(y, 4) && s[5..] == Pad(m, 2);
    ReadPad(y, 4);
    ReadPad(m, 2);
  }

  lemma FormatDayParts(d: Date)
    ensures var s := FormatDay(d);
      |s| == 10 && s[..4] == Pad(d.year, 4) && s[4] == '-' && s[5..7] == Pad(d.month, 2)
      && s[7] == '-' && s[8..] == Pad(d.day, 2)
  {
  }

  /** Parsing a formatted day gives the day back. */
  lemma ParseFormatDay(d: Date)
    ensures ParseDay(FormatDay(d)) == Some(d)
  {
    FormatDayParts(d);
    ReadPad(d.year, 4);
    ReadPad(d.month, 2);
    ReadPad(d.day, 2);
  }

  /** A string that parses is the key of the day it names: no two strings name the same day. */
  lemma FormatParseDay(s: string)
    requires ParseDay(s).Some?
    ensures FormatDay(ParseDay(s).value) == s
  {
    var d := ParseDay(s).value;
    PadRead(s[..4]);
    PadRead(s[5..7]);
    PadRead(s[8..]);
    FormatDayParts(d);
    assert s == s[..4] + "-" + s[5..7] + "-" + s[8..];
  }

  lemma FormatDayInjective(a: Date, b: Date)
    ensures FormatDay(a) == FormatDay(b) <==> a == b
  {
    if FormatDay(a) == FormatDay(b) {
      ParseFormatDay(a);
      ParseFormatDay(b);
    }
  }

  /** From year 1000 on, comparing Seoul keys as strings compares the days chronologically. */
  lemma KstKeyOrder(a: Date, b: Date)
    requires a.year >= 1000 && b.year >= 1000
    ensures Less(KstKey(a), KstKey(b)) <==> Before(a, b)
  {
    KstKeyShape(a);
    KstKeyShape(b);
    FormatDayOrder(a, b);
  }

  /** Comparing day keys as strings compares the days chronologically. */
  lemma FormatDayOrder(a: Date, b: Date)
    ensures Less(FormatDay(a), FormatDay(b)) <==> Before(a, b)
  {
    PadLess(a.year, b.year, 4);
    PadLess(a.month, b.month, 2);
    PadLess(a.day, b.day, 2);
    ReadPad(a.year, 4); ReadPad(b.year, 4);
    ReadPad(a.month, 2); ReadPad(b.month, 2);
    KeyLess(Pad(a.year, 4), Pad(b.year, 4), Pad(a.month, 2), Pad(b.month, 2), Pad(a.day, 2), Pad(b.day, 2));
  }

  /** Keys made of fields of equal widths compare field by field. */
  lemma KeyLess(y1: string, y2: string, m1: string, m2: string, d1: string, d2: string)
    requires |y1| == |y2| && |m1| == |m2|
    ensures Less(y1 + "-" + m1 + "-" + d1, y2 + "-" + m2 + "-" + d2)
      <==> Less(y1, y2) || (y1 == y2 && (Less(m1, m2) || (m1 == m2 && Less(d1, d2))))
  {
    LessConcat(m1 + "-", m2 + "-", d1, d2);
    LessConcat(m1, m2, "-", "-");
    LessIrreflexive("-");
    assert (m1 + "-")[..|m1|] == m1 && (m2 + "-")[..|m2|] == m2;
    assert y1 + "-" + m1 + "-" + d1 == y1 + ("-" + (m1 + "-" + d1));
    assert y2 + "-" + m2 + "-" + d2 == y2 + ("-" + (m2 + "-" + d2));
    LessConcat(y1, y2, "-" + (m1 + "-" + d1), "-" + (m2 + "-" + d2));
    LessConcat("-", "-", m1 + "-" + d1, m2 + "-" + d2);
  }
}
