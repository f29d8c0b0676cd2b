/**
 * Calendar arithmetic standing in for the JavaScript `Date` operations the
 * application uses on local dates: the proleptic Gregorian calendar
 * counted in day numbers (0001-01-01 is day 1, a Monday), the roll-over
 * `new Date(y, monthIndex, day)` performs on out-of-range months and days,
 * the mapping of years 0..99 to 1900..1999 that constructor applies, and
 * the `YYYY-MM-DD` text the application writes and reads.
 */
module Calendar {
  import opened Options
  import opened JsString

  predicate IsLeapYear(y: int)
  {
    y % 4 == 0 && (y % 100 != 0 || y % 400 == 0)
  }

  function DaysInMonth(y: int, m: int): (n: int)
    requires 1 <= m <= 12
    ensures 28 <= n <= 31
    ensures n == 29 <==> m == 2 && IsLeapYear(y)
  {
    if m == 2 then (if IsLeapYear(y) then 29 else 28)
    else if m == 4 || m == 6 || m == 9 || m == 11 then 30
    else 31
  }

  /** The number of days in the months of year `y` before month `m`. */
  function DaysBeforeMonth(y: int, m: int): (n: int)
    requires 1 <= m <= 12
    ensures m > 1 ==> n == DaysBeforeMonth(y, m - 1) + DaysInMonth(y, m - 1)
  {
    [0, 31, 59, 90, 120, 151, 181, 212, 243, 273, 304, 334][m - 1] + (if m > 2 && IsLeapYear(y) then 1 else 0)
  }

  /** The number of days in the years 1 .. y-1 (negative before year 1). */
  function DaysBeforeYear(y: int): int
  {
    365 * (y - 1) + (y - 1) / 4 - (y - 1) / 100 + (y - 1) / 400
  }

  lemma LeapDivision(y: int)
    ensures y / 4 - (y - 1) / 4 == (if y % 4 == 0 then 1 else 0)
    ensures y / 100 - (y - 1) / 100 == (if y % 100 == 0 then 1 else 0)
    ensures y / 400 - (y - 1) / 400 == (if y % 400 == 0 then 1 else 0)
  {
  }

  lemma CenturyIsLeapCandidate(y: int)
    ensures y % 100 == 0 ==> y % 4 == 0
    ensures y % 400 == 0 ==> y % 100 == 0
  {
    if y % 100 == 0 {
      FourDividesCentury(y / 100);
    }
    if y % 400 == 0 {
      CenturyDividesQuadCentury(y / 400);
    }
  }

  lemma FourDividesCentury(k: int)
    ensures (100 * k) % 4 == 0
  {
    assert 100 * k == 4 * (25 * k);
  }

  lemma CenturyDividesQuadCentury(k: int)
    ensures (400 * k) % 100 == 0
  {
    assert 400 * k == 100 * (4 * k);
  }

  /** A year is as long as its twelve months. */
  lemma YearLength(y: int)
    ensures DaysBeforeYear(y + 1) == DaysBeforeYear(y) + DaysBeforeMonth(y, 12) + DaysInMonth(y, 12)
  {
    LeapDivision(y);
    CenturyIsLeapCandidate(y);
    var leap := if IsLeapYear(y) then 1 else 0;
    assert DaysBeforeMonth(y, 12) + DaysInMonth(y, 12) == 365 + leap;
    var d4, d100, d400 := y / 4 - (y - 1) / 4, y / 100 - (y - 1) / 100, y / 400 - (y - 1) / 400;
    assert d4 - d100 + d400 == leap;
    assert DaysBeforeYear(y + 1) - DaysBeforeYear(y) == 365 + d4 - d100 + d400;
  }

  /** The day number of day `d` of month `m` of year `y`; `d` is not
      range-checked, so day 0 is the last day of the previous month. */
  function DayNumber(y: int, m: int, d: int): int
    requires 1 <= m <= 12
  {
    DaysBeforeYear(y) + DaysBeforeMonth(y, m) + d
  }

  /** The year a `Date` constructor call actually uses. */
  function JsYear(y: int): int
  {
    if 0 <= y <= 99 then 1900 + y else y
  }

  /** `new Date(y, monthIndex, day)` as a day number. */
  function JsDayNumber(y: int, monthIndex: int, day: int): int
  {
    DayNumber(JsYear(y) + monthIndex / 12, monthIndex % 12 + 1, day)
  }

  /** `new Date(y, monthIndex, day).getDay()`: 0 Sunday .. 6 Saturday. */
  function JsGetDay(y: int, monthIndex: int, day: int): (dow: int)
    ensures 0 <= dow < 7
  {
    JsDayNumber(y, monthIndex, day) % 7
  }

  /** `new Date(y, month1, 0).getDate()`: the length of month `month1`
      (counted from 1, rolled over into neighbouring years). */
  function JsDaysInMonth(y: int, month1: int): (n: int)
    ensures 28 <= n <= 31
  {
    DaysInMonth(JsYear(y) + (month1 - 1) / 12, (month1 - 1) % 12 + 1)
  }

  /** Day 0 of month index `month1` is the last day of month index
      `month1 - 1`, which is what makes `JsDaysInMonth` the day count. */
  lemma DayZeroIsLastDayOfPreviousMonth(y: int, month1: int)
    ensures JsDayNumber(y, month1, 0) == JsDayNumber(y, month1 - 1, JsDaysInMonth(y, month1))
  {
    var q, r := (month1 - 1) / 12, (month1 - 1) % 12;
    if r == 11 {
      assert month1 / 12 == q + 1 && month1 % 12 == 0;
      YearLength(JsYear(y) + q);
    } else {
      assert month1 / 12 == q && month1 % 12 == r + 1;
    }
  }

  // ------------------------------------------------------------- dates

  datatype Date = Date(year: int, month: int, day: int)

  predicate ValidDate(dt: Date)
  {
    1 <= dt.month <= 12 && 1 <= dt.day <= DaysInMonth(dt.year, dt.month)
  }

  function Ordinal(dt: Date): int
    requires 1 <= dt.month <= 12
  {
    DayNumber(dt.year, dt.month, dt.day)
  }

  /** The ordinal of `new Date(y, m - 1, d)` for a valid date of a year
      outside 0..99 is that of the date itself. */
  lemma JsDayNumberOfDate(dt: Date)
    requires 1 <= dt.month <= 12 && !(0 <= dt.year <= 99)
    ensures JsDayNumber(dt.year, dt.month - 1, dt.day) == Ordinal(dt)
  {
    assert (dt.month - 1) / 12 == 0 && (dt.month - 1) % 12 == dt.month - 1;
    assert JsYear(dt.year) == dt.year;
  }

  function NextDay(dt: Date): (r: Date)
    requires ValidDate(dt)
    ensures ValidDate(r) && Ordinal(r) == Ordinal(dt) + 1
  {
    if dt.day < DaysInMonth(dt.year, dt.month) then Date(dt.year, dt.month, dt.day + 1)
    else if dt.month < 12 then Date(dt.year, dt.month + 1, 1)
    else
      YearLength(dt.year);
      Date(dt.year + 1, 1, 1)
  }

  function PrevDay(dt: Date): (r: Date)
    requires ValidDate(dt)
    ensures ValidDate(r) && Ordinal(r) == Ordinal(dt) - 1
  {
    if dt.day > 1 then Date(dt.year, dt.month, dt.day - 1)
    else if dt.month > 1 then Date(dt.year, dt.month - 1, DaysInMonth(dt.year, dt.month - 1))
    else
      YearLength(dt.year - 1);
      Date(dt.year - 1, 12, 31)
  }

  /** `addDays(dt, delta)`, i.e. `setDate(getDate() + delta)`: the valid
      date `delta` days later. */
  function AddDays(dt: Date, delta: int): (r: Date)
    requires ValidDate(dt)
    ensures ValidDate(r) && Ordinal(r) == Ordinal(dt) + delta
    decreases if delta >= 0 then delta else -delta
  {
    if delta == 0 then dt
    else if delta > 0 then AddDays(NextDay(dt), delta - 1)
    else AddDays(PrevDay(dt), delta + 1)
  }

  /** What `NextDay` and `PrevDay` give inside a month and at its edges. */
  lemma NextDayInMonth(dt: Date)
    requires ValidDate(dt) && dt.day < DaysInMonth(dt.year, dt.month)
    ensures NextDay(dt) == Date(dt.year, dt.month, dt.day + 1)
  {
  }

  lemma NextDayEndOfMonth(dt: Date)
    requires ValidDate(dt) && dt.day == DaysInMonth(dt.year, dt.month) && dt.month < 12
    ensures NextDay(dt) == Date(dt.year, dt.month + 1, 1)
  {
  }

  lemma PrevDayInMonth(dt: Date)
    requires ValidDate(dt) && dt.day > 1
    ensures PrevDay(dt) == Date(dt.year, dt.month, dt.day - 1)
  {
  }

  lemma PrevDayStartOfMonth(dt: Date)
    requires ValidDate(dt) && dt.day == 1 && dt.month > 1
    ensures PrevDay(dt) == Date(dt.year, dt.month - 1, DaysInMonth(dt.year, dt.month - 1))
  {
  }

  /** Moving by one or two days is taking that many steps. */
  lemma AddDaysOneBack(dt: Date)
    requires ValidDate(dt)
    ensures AddDays(dt, -1) == PrevDay(dt)
  {
    assert AddDays(dt, -1) == AddDays(PrevDay(dt), 0);
  }

  lemma AddDaysTwoBack(dt: Date)
    requires ValidDate(dt)
    ensures AddDays(dt, -2) == PrevDay(PrevDay(dt))
  {
    assert AddDays(dt, -2) == AddDays(PrevDay(dt), -1);
    AddDaysOneBack(PrevDay(dt));
  }

  lemma AddDaysOneOn(dt: Date)
    requires ValidDate(dt)
    ensures AddDays(dt, 1) == NextDay(dt)
  {
    assert AddDays(dt, 1) == AddDays(NextDay(dt), 0);
  }

  // -------------------------------------------------------- ISO text

  /** `${y}-${pad2(m)}-${pad2(d)}`, the form `toIso` and the month pages write. */
  function IsoText(y: int, m: int, d: int): string
  {
    IntToString(y) + "-" + Pad2(m) + "-" + Pad2(d)
  }

  function ToIso(dt: Date): string
  {
    IsoText(dt.year, dt.month, dt.day)
  }

  /** The regex `^(\d{4})-(\d{2})-(\d{2})$`. */
  predicate IsoShape(s: string)
  {
    |s| == 10 && AllDigits(s[..4]) && s[4] == '-' && AllDigits(s[5..7]) && s[7] == '-' && AllDigits(s[8..])
  }

  /** `isoParts`: the three numbers of a `YYYY-MM-DD` string, with no range
      check on month or day. */
  function IsoParts(s: string): (r: Option<Date>)
    ensures r.Some? <==> IsoShape(s)
    ensures r.Some? ==> 0 <= r.value.year <= 9999 && 0 <= r.value.month <= 99 && 0 <= r.value.day <= 99
  {
    if IsoShape(s) then Some(Date(DigitsValue(s[..4]), DigitsValue(s[5..7]), DigitsValue(s[8..]))) else None
  }

  /** Writing a date with a four-digit year and reading it back gives the date. */
  lemma IsoRoundTrip(dt: Date)
    requires 1000 <= dt.year <= 9999 && 0 <= dt.month < 100 && 0 <= dt.day < 100
    ensures IsoShape(ToIso(dt))
    ensures IsoParts(ToIso(dt)) == Some(dt)
  {
    FourDigitYear(dt.year);
    Pad2Small(dt.month);
    Pad2Small(dt.day);
    var s := ToIso(dt);
    assert s[..4] == IntToString(dt.year);
    assert s[5..7] == Pad2(dt.month);
    assert s[8..] == Pad2(dt.day);
  }

  /** Dates with two-digit-or-less month and day fields have distinct texts. */
  lemma ToIsoInjective(a: Date, b: Date)
    requires 0 <= a.month < 100 && 0 <= a.day < 100 && 0 <= b.month < 100 && 0 <= b.day < 100
    requires ToIso(a) == ToIso(b)
    ensures a == b
  {
    Pad2Small(a.month); Pad2Small(a.day); Pad2Small(b.month); Pad2Small(b.day);
    var s, t := ToIso(a), ToIso(b);
    var ya, yb := IntToString(a.year), IntToString(b.year);
    assert |ya| == |yb|;
    assert s[..|ya|] == ya && t[..|yb|] == yb;
    IntToStringInjective(a.year, b.year);
    assert s[|ya| + 1..|ya| + 3] == Pad2(a.month) && t[|ya| + 1..|ya| + 3] == Pad2(b.month);
    Pad2Injective(a.month, b.month);
    assert s[|ya| + 4..] == Pad2(a.day) && t[|ya| + 4..] == Pad2(b.day);
    Pad2Injective(a.day, b.day);
  }
}
