/**
 * The Czech holiday calendar of `src/utils/attendanceCalc.ts`: Easter
 * Sunday by the Anonymous Gregorian algorithm, the per-year table of the
 * eleven fixed public holidays plus Good Friday and Easter Monday, the
 * holiday and weekend classification of a `YYYY-MM-DD` string and the
 * count of working days in a month.
 */
module Holidays {
  import opened Options
  import opened JsString
  import opened Calendar

  // ------------------------------------------------------------- Easter

  /** `easterSunday(year)`: `new Date(year, month - 1, day)` for the month
      and day the algorithm yields (so years 0..99 land in 1900..1999). */
  function EasterSunday(year: int): (dt: Date)
    requires year >= 0
    ensures ValidDate(dt) && dt.year == JsYear(year)
    ensures (dt.month == 3 && 22 <= dt.day <= 31) || (dt.month == 4 && 1 <= dt.day <= 25)
  {
    var a := year % 19;
    var b := year / 100;
    var c := year % 100;
    var d := b / 4;
    var e := b % 4;
    var f := (b + 8) / 25;
    var g := (b - f + 1) / 3;
    // the left operands of `%` are never negative, so JavaScript's
    // truncating `%` gives the same values as Dafny's
    assert 19 * a + b - d - g + 15 >= 0;
    var h := (19 * a + b - d - g + 15) % 30;
    var i := c / 4;
    var k := c % 4;
    assert 32 + 2 * e + 2 * i - h - k >= 0;
    var l := (32 + 2 * e + 2 * i - h - k) % 7;
    var m := (a + 11 * h + 22 * l) / 451;
    assert 0 <= h + l - 7 * m <= 34;
    var month := (h + l - 7 * m + 114) / 31;
    var day := (h + l - 7 * m + 114) % 31 + 1;
    Date(JsYear(year), month, day)
  }

  lemma Easter2026()
    ensures EasterSunday(2026) == Date(2026, 4, 5)
  {
    assert 2026 % 19 == 12 && 2026 / 100 == 20 && 2026 % 100 == 26;
    assert (19 * 12 + 20 - 5 - 6 + 15) % 30 == 12;
    assert (32 + 2 * 0 + 2 * 6 - 12 - 2) % 7 == 2;
    assert (12 + 11 * 12 + 22 * 2) / 451 == 0;
    assert (12 + 2 + 114) / 31 == 4 && (12 + 2 + 114) % 31 == 4;
  }

  /** Good Friday: two days before Easter Sunday, written out for the
      March/April dates Easter can fall on. */
  function GoodFriday(year: int): (dt: Date)
    requires year >= 0
    ensures ValidDate(dt) && dt.year == JsYear(year) && (dt.month == 3 || dt.month == 4)
  {
    var e := EasterSunday(year);
    if e.month == 4 && e.day <= 2 then Date(e.year, 3, 29 + e.day) else Date(e.year, e.month, e.day - 2)
  }

  /** Easter Monday: the day after Easter Sunday. */
  function EasterMonday(year: int): (dt: Date)
    requires year >= 0
    ensures ValidDate(dt) && dt.year == JsYear(year) && (dt.month == 3 || dt.month == 4)
  {
    var e := EasterSunday(year);
    if e.month == 3 && e.day == 31 then Date(e.year, 4, 1) else Date(e.year, e.month, e.day + 1)
  }

  /** These are the dates `addDays(easter, -2)` and `addDays(easter, +1)` give. */
  lemma MovableHolidaysAreAddDays(year: int)
    requires year >= 0
    ensures GoodFriday(year) == AddDays(EasterSunday(year), -2)
    ensures EasterMonday(year) == AddDays(EasterSunday(year), 1)
    ensures Ordinal(GoodFriday(year)) == Ordinal(EasterSunday(year)) - 2
    ensures Ordinal(EasterMonday(year)) == Ordinal(EasterSunday(year)) + 1
  {
    TwoDaysBefore(EasterSunday(year));
    OneDayAfter(EasterSunday(year));
  }

  /** Two days before a date in Easter's range. */
  lemma TwoDaysBefore(e: Date)
    requires ValidDate(e) && ((e.month == 3 && 22 <= e.day <= 31) || (e.month == 4 && 1 <= e.day <= 25))
    ensures AddDays(e, -2) == if e.month == 4 && e.day <= 2 then Date(e.year, 3, 29 + e.day) else Date(e.year, e.month, e.day - 2)
  {
    AddDaysTwoBack(e);
    if e.month == 4 && e.day == 1 {
      PrevDayStartOfMonth(e);
      PrevDayInMonth(PrevDay(e));
    } else if e.month == 4 && e.day == 2 {
      PrevDayInMonth(e);
      PrevDayStartOfMonth(PrevDay(e));
    } else {
      PrevDayInMonth(e);
      PrevDayInMonth(PrevDay(e));
    }
  }

  /** The day after a date in Easter's range. */
  lemma OneDayAfter(e: Date)
    requires ValidDate(e) && ((e.month == 3 && 22 <= e.day <= 31) || (e.month == 4 && 1 <= e.day <= 25))
    ensures AddDays(e, 1) == if e.month == 3 && e.day == 31 then Date(e.year, 4, 1) else Date(e.year, e.month, e.day + 1)
  {
    AddDaysOneOn(e);
    if e.month == 3 && e.day == 31 {
      NextDayEndOfMonth(e);
    } else {
      NextDayInMonth(e);
    }
  }

  lemma GoodFridayAndEasterMonday2026()
    ensures ToIso(GoodFriday(2026)) == "2026-04-03"
    ensures ToIso(EasterMonday(2026)) == "2026-04-06"
  {
    MovableDates2026();
    Year2026Text();
  }

  lemma MovableDates2026()
    ensures GoodFriday(2026) == Date(2026, 4, 3)
    ensures EasterMonday(2026) == Date(2026, 4, 6)
  {
    Easter2026();
  }

  lemma Year2026Text()
    ensures IntToString(2026) == "2026"
  {
    assert NatToString(2) == "2";
    assert NatToString(20) == "20";
    assert NatToString(202) == "202";
  }

  // ------------------------------------------------------ holiday table

  // The names of the fixed holidays.
  const HolidayName0 := "Nový rok / Den obnovy samostatného českého státu"
  const HolidayName1 := "Svátek práce"
  const HolidayName2 := "Den vítězství"
  const HolidayName3 := "Cyril a Metoděj"
  const HolidayName4 := "Upálení mistra Jana Husa"
  const HolidayName5 := "Den české státnosti"
  const HolidayName6 := "Vznik samostatného československého státu"
  const HolidayName7 := "Den boje za svobodu a demokracii"
  const HolidayName8 := "Štědrý den"
  const HolidayName9 := "1. svátek vánoční"
  const HolidayName10 := "2. svátek vánoční"

  /** The fixed holidays as the source lists them: `MM-DD` and name. */
  const FixedHolidays: seq<(string, string)> := [
    ("01-01", HolidayName0),
    ("05-01", HolidayName1),
    ("05-08", HolidayName2),
    ("07-05", HolidayName3),
    ("07-06", HolidayName4),
    ("09-28", HolidayName5),
    ("10-28", HolidayName6),
    ("11-17", HolidayName7),
    ("12-24", HolidayName8),
    ("12-25", HolidayName9),
    ("12-26", HolidayName10)
  ]

  const GoodFridayName := "Velký pátek"
  const EasterMondayName := "Velikonoční pondělí"

  /** The month and day of each fixed holiday, as numbers (the public
      holidays and the Christmas days of the Czech Act No. 245/2000 Coll.). */
  const FixedHolidayDates: seq<(int, int)> := [
    (1, 1), (5, 1), (5, 8), (7, 5), (7, 6), (9, 28), (10, 28), (11, 17), (12, 24), (12, 25), (12, 26)
  ]

  /** The key `${year}-${mmdd}` under which the i-th fixed holiday is stored. */
  function FixedKey(year: int, i: nat): string
    requires i < |FixedHolidays|
  {
    IntToString(year) + "-" + FixedHolidays[i].0
  }

  /** The table after the first `n` fixed holidays have been set. */
  function FixedEntries(year: int, n: nat): map<string, string>
    requires n <= |FixedHolidays|
  {
    if n == 0 then map[] else FixedEntries(year, n - 1)[FixedKey(year, n - 1) := FixedHolidays[n - 1].1]
  }

  /** What `holidaysForYearCZ(year)` returns. */
  function HolidayTable(year: int): map<string, string>
    requires year >= 0
  {
    FixedEntries(year, |FixedHolidays|)
      [ToIso(GoodFriday(year)) := GoodFridayName]
      [ToIso(EasterMonday(year)) := EasterMondayName]
  }

  /** `holidaysForYearCZ`: fill the map with the fixed holidays in order,
      then the two movable ones. (The per-year cache is not modelled: it
      returns what this computes.) */
  method HolidaysForYearCZ(year: int) returns (table: map<string, string>)
    requires year >= 0
    ensures table == HolidayTable(year)
  {
    table := map[];
    var n := 0;
    while n < |FixedHolidays|
      invariant 0 <= n <= |FixedHolidays|
      invariant table == FixedEntries(year, n)
    {
      var (mmdd, name) := FixedHolidays[n];
      table := table[IntToString(year) + "-" + mmdd := name];
      n := n + 1;
    }
    var easter := EasterSunday(year);
    MovableHolidaysAreAddDays(year);
    table := table[ToIso(AddDays(easter, -2)) := GoodFridayName];
    table := table[ToIso(AddDays(easter, 1)) := EasterMondayName];
  }

  /** Each `MM-DD` literal of the table is the padded text of its date. */
  lemma FixedMmdd(i: nat)
    requires i < |FixedHolidays|
    ensures 1 <= FixedHolidayDates[i].0 <= 12 && 1 <= FixedHolidayDates[i].1 <= 31
    ensures FixedHolidays[i].0 == Pad2(FixedHolidayDates[i].0) + "-" + Pad2(FixedHolidayDates[i].1)
  {
    if i < 3 {
      FixedMmddPart1(i);
    } else if i < 6 {
      FixedMmddPart2(i);
    } else if i < 9 {
      FixedMmddPart3(i);
    } else {
      FixedMmddPart4(i);
    }
  }

  lemma FixedMmddPart1(i: nat)
    requires i < 3
    ensures FixedHolidays[i].0 == Pad2(FixedHolidayDates[i].0) + "-" + Pad2(FixedHolidayDates[i].1)
  {
    if i == 0 {
      assert FixedHolidays[0].0 == Pad2(1) + "-" + Pad2(1);
    } else if i == 1 {
      assert FixedHolidays[1].0 == Pad2(5) + "-" + Pad2(1);
    } else {
      assert FixedHolidays[2].0 == Pad2(5) + "-" + Pad2(8);
    }
  }

  lemma FixedMmddPart2(i: nat)
    requires 3 <= i < 6
    ensures FixedHolidays[i].0 == Pad2(FixedHolidayDates[i].0) + "-" + Pad2(FixedHolidayDates[i].1)
  {
    if i == 3 {
      assert FixedHolidays[3].0 == Pad2(7) + "-" + Pad2(5);
    } else if i == 4 {
      assert FixedHolidays[4].0 == Pad2(7) + "-" + Pad2(6);
    } else {
      assert FixedHolidays[5].0 == Pad2(9) + "-" + Pad2(28);
    }
  }

  lemma FixedMmddPart3(i: nat)
    requires 6 <= i < 9
    ensures FixedHolidays[i].0 == Pad2(FixedHolidayDates[i].0) + "-" + Pad2(FixedHolidayDates[i].1)
  {
    if i == 6 {
      assert FixedHolidays[6].0 == Pad2(10) + "-" + Pad2(28);
    } else if i == 7 {
      assert FixedHolidays[7].0 == Pad2(11) + "-" + Pad2(17);
    } else {
      assert FixedHolidays[8].0 == Pad2(12) + "-" + Pad2(24);
    }
  }

  lemma FixedMmddPart4(i: nat)
    requires 9 <= i < |FixedHolidays|
    ensures FixedHolidays[i].0 == Pad2(FixedHolidayDates[i].0) + "-" + Pad2(FixedHolidayDates[i].1)
  {
    if i == 9 {
      assert FixedHolidays[9].0 == Pad2(12) + "-" + Pad2(25);
    } else {
      assert FixedHolidays[10].0 == Pad2(12) + "-" + Pad2(26);
    }
  }

  lemma FixedKeyIsIso(year: int, i: nat)
    requires i < |FixedHolidays|
    ensures FixedKey(year, i) == ToIso(Date(year, FixedHolidayDates[i].0, FixedHolidayDates[i].1))
  {
    FixedMmdd(i);
    var y, mm, dd := IntToString(year), Pad2(FixedHolidayDates[i].0), Pad2(FixedHolidayDates[i].1);
    assert y + "-" + (mm + "-" + dd) == y + "-" + mm + "-" + dd;
  }

  /** The fixed holidays fall on distinct dates outside March and April. */
  lemma FixedDatesDistinct(i: nat, j: nat)
    requires i < j < |FixedHolidayDates|
    ensures FixedHolidayDates[i] != FixedHolidayDates[j]
    ensures FixedHolidayDates[i].0 != 3 && FixedHolidayDates[i].0 != 4
  {
  }

  /** Keys with the same year text and different `MM-DD` parts differ. */
  lemma KeysWithDistinctParts(y: string, m1: int, d1: int, m2: int, d2: int)
    requires 0 <= m1 < 100 && 0 <= d1 < 100 && 0 <= m2 < 100 && 0 <= d2 < 100
    requires (m1, d1) != (m2, d2)
    ensures y + "-" + (Pad2(m1) + "-" + Pad2(d1)) != y + "-" + (Pad2(m2) + "-" + Pad2(d2))
  {
    var a1, a2 := Pad2(m1) + "-" + Pad2(d1), Pad2(m2) + "-" + Pad2(d2);
    MmddInjective(m1, d1, m2, d2);
    assert (y + "-" + a1)[|y| + 1..] == a1;
    assert (y + "-" + a2)[|y| + 1..] == a2;
  }

  lemma MmddInjective(m1: int, d1: int, m2: int, d2: int)
    requires 0 <= m1 < 100 && 0 <= d1 < 100 && 0 <= m2 < 100 && 0 <= d2 < 100
    requires (m1, d1) != (m2, d2)
    ensures Pad2(m1) + "-" + Pad2(d1) != Pad2(m2) + "-" + Pad2(d2)
  {
    Pad2Small(m1); Pad2Small(d1); Pad2Small(m2); Pad2Small(d2);
    var a1, a2 := Pad2(m1) + "-" + Pad2(d1), Pad2(m2) + "-" + Pad2(d2);
    assert a1[..2] == Pad2(m1) && a1[3..] == Pad2(d1);
    assert a2[..2] == Pad2(m2) && a2[3..] == Pad2(d2);
    if a1 == a2 {
      Pad2Injective(m1, m2);
      Pad2Injective(d1, d2);
      assert false;
    }
  }

  /** Distinct fixed holidays have distinct keys. */
  lemma FixedKeysDistinct(year: int, i: nat, j: nat)
    requires i < j < |FixedHolidays|
    ensures FixedKey(year, i) != FixedKey(year, j)
  {
    FixedMmdd(i);
    FixedMmdd(j);
    FixedDatesDistinct(i, j);
    KeysWithDistinctParts(IntToString(year), FixedHolidayDates[i].0, FixedHolidayDates[i].1,
                          FixedHolidayDates[j].0, FixedHolidayDates[j].1);
  }

  lemma {:induction false} FixedEntriesKeys(year: int, n: nat)
    requires n <= |FixedHolidays|
    ensures |FixedEntries(year, n)| == n
    ensures forall key :: key in FixedEntries(year, n) <==> exists i :: 0 <= i < n && key == FixedKey(year, i)
  {
    if n > 0 {
      FixedEntriesKeys(year, n - 1);
      var k := FixedKey(year, n - 1);
      forall i | 0 <= i < n - 1
        ensures FixedKey(year, i) != k
      {
        FixedKeysDistinct(year, i, n - 1);
      }
      assert k !in FixedEntries(year, n - 1);
    }
  }

  /** Setting earlier keys does not disturb the value stored for a later one. */
  lemma {:induction false} FixedEntriesValue(year: int, n: nat, i: nat)
    requires i < n <= |FixedHolidays|
    ensures FixedKey(year, i) in FixedEntries(year, n)
    ensures FixedEntries(year, n)[FixedKey(year, i)] == FixedHolidays[i].1
  {
    if i < n - 1 {
      FixedEntriesValue(year, n - 1, i);
      FixedKeysDistinct(year, i, n - 1);
    }
  }

  /** Good Friday and Easter Monday are never on a fixed holiday's key. */
  lemma MovableKeysNotFixed(year: int, dt: Date)
    requires year >= 0 && ValidDate(dt) && (dt.month == 3 || dt.month == 4)
    ensures ToIso(dt) !in FixedEntries(year, |FixedHolidays|)
  {
    FixedEntriesKeys(year, |FixedHolidays|);
    if ToIso(dt) in FixedEntries(year, |FixedHolidays|) {
      var i :| 0 <= i < |FixedHolidays| && ToIso(dt) == FixedKey(year, i);
      FixedKeyIsIso(year, i);
      FixedMmdd(i);
      ToIsoInjective(dt, Date(year, FixedHolidayDates[i].0, FixedHolidayDates[i].1));
      if i < |FixedHolidays| - 1 {
        FixedDatesDistinct(i, |FixedHolidays| - 1);
      }
      assert false;
    }
  }

  /** The two movable holidays are three days apart, so their keys differ. */
  lemma MovableKeysDistinct(year: int)
    requires year >= 0
    ensures ToIso(GoodFriday(year)) != ToIso(EasterMonday(year))
  {
    var gf, em := GoodFriday(year), EasterMonday(year);
    MovableHolidaysAreAddDays(year);
    if ToIso(gf) == ToIso(em) {
      ToIsoInjective(gf, em);
      assert false;
    }
  }

  /** Every year's table has thirteen distinct holidays. */
  lemma HolidayTableSize(year: int)
    requires year >= 0
    ensures |HolidayTable(year)| == 13
  {
    FixedEntriesKeys(year, |FixedHolidays|);
    MovableKeysNotFixed(year, GoodFriday(year));
    MovableKeysNotFixed(year, EasterMonday(year));
    MovableKeysDistinct(year);
  }

  // ---------------------------------------------------- classification

  /** The `i`-th key `holidaysForYearCZ` sets: the fixed holidays in
      order, then Good Friday, then Easter Monday. */
  function EntryKey(year: int, i: nat): string
    requires year >= 0 && i < EntryCount
  {
    if i < |FixedHolidays| then FixedKey(year, i)
    else if i == |FixedHolidays| then ToIso(GoodFriday(year))
    else ToIso(EasterMonday(year))
  }

  /** The name set under the `i`-th key. */
  function EntryName(i: nat): string
    requires i < EntryCount
  {
    if i < |FixedHolidays| then FixedHolidays[i].1
    else if i == |FixedHolidays| then GoodFridayName
    else EasterMondayName
  }

  const EntryCount := |FixedHolidays| + 2

  /** The keys of a year's table in the order they are set. */
  function YearKeys(year: int): (keys: seq<string>)
    requires year >= 0
    ensures |keys| == EntryCount
  {
    seq(EntryCount, i requires 0 <= i < EntryCount => EntryKey(year, i))
  }

  /** The names in the same order. */
  function EntryNames(): (names: seq<string>)
    ensures |names| == EntryCount
  {
    seq(EntryCount, i requires 0 <= i < EntryCount => EntryName(i))
  }

  /** `map.get(key)` on a map whose keys `keys` were set, in order, to
      `names`, as a search from the front; for distinct keys the order of
      the search does not matter (`FindSpec`). */
  function Find(key: string, keys: seq<string>, names: seq<string>): Option<string>
    requires |keys| == |names|
  {
    if keys == [] then None
    else if key == keys[0] then Some(names[0])
    else Find(key, keys[1..], names[1..])
  }

  predicate Distinct(keys: seq<string>)
  {
    forall i, j :: 0 <= i < j < |keys| ==> keys[i] != keys[j]
  }

  lemma {:induction false} FindSpec(key: string, keys: seq<string>, names: seq<string>)
    requires |keys| == |names| && Distinct(keys)
    ensures Find(key, keys, names).Some? <==> key in keys
    ensures forall j :: 0 <= j < |keys| && keys[j] == key ==> Find(key, keys, names) == Some(names[j])
  {
    if keys != [] {
      FindSpec(key, keys[1..], names[1..]);
      assert keys == [keys[0]] + keys[1..];
      forall j | 0 < j < |keys| && keys[j] == key
        ensures Find(key, keys, names) == Some(names[j])
      {
        assert keys[1..][j - 1] == keys[j];
      }
    }
  }

  /** `getCzechHolidayName`: the name stored under the exact text in the
      table of the year it names, if the text has the `YYYY-MM-DD` shape. */
  function GetCzechHolidayName(dateIso: string): (name: Option<string>)
    ensures name.Some? ==> IsoShape(dateIso)
  {
    match IsoParts(dateIso)
    case None => None
    case Some(p) => Find(dateIso, YearKeys(p.year), EntryNames())
  }

  /** The thirteen keys of a year are distinct. */
  lemma EntryKeysDistinct(year: int, i: nat, j: nat)
    requires year >= 0 && i < j < EntryCount
    ensures EntryKey(year, i) != EntryKey(year, j)
  {
    if j < |FixedHolidays| {
      FixedKeysDistinct(year, i, j);
    } else {
      MovableKeysDistinct(year);
      FixedEntriesKeys(year, |FixedHolidays|);
      if i < |FixedHolidays| {
        MovableKeysNotFixed(year, GoodFriday(year));
        MovableKeysNotFixed(year, EasterMonday(year));
      }
    }
  }

  lemma YearKeysDistinct(year: int)
    requires year >= 0
    ensures Distinct(YearKeys(year))
  {
    forall i, j | 0 <= i < j < EntryCount
      ensures YearKeys(year)[i] != YearKeys(year)[j]
    {
      EntryKeysDistinct(year, i, j);
    }
  }

  /** The table holds exactly the thirteen keys. */
  lemma HolidayTableKeys(year: int)
    requires year >= 0
    ensures forall key :: key in HolidayTable(year) <==> exists j :: 0 <= j < EntryCount && key == EntryKey(year, j)
  {
    FixedEntriesKeys(year, |FixedHolidays|);
    forall key | key in HolidayTable(year)
      ensures exists j :: 0 <= j < EntryCount && key == EntryKey(year, j)
    {
      if key == ToIso(GoodFriday(year)) {
        assert key == EntryKey(year, |FixedHolidays|);
      } else if key == ToIso(EasterMonday(year)) {
        assert key == EntryKey(year, |FixedHolidays| + 1);
      } else {
        var i :| 0 <= i < |FixedHolidays| && key == FixedKey(year, i);
        assert key == EntryKey(year, i);
      }
    }
  }

  /** Each key is stored with its own name. */
  lemma HolidayTableValue(year: int, j: nat)
    requires year >= 0 && j < EntryCount
    ensures EntryKey(year, j) in HolidayTable(year) && HolidayTable(year)[EntryKey(year, j)] == EntryName(j)
  {
    if j < |FixedHolidays| {
      FixedEntriesValue(year, |FixedHolidays|, j);
      EntryKeysDistinct(year, j, |FixedHolidays|);
      EntryKeysDistinct(year, j, |FixedHolidays| + 1);
    } else if j == |FixedHolidays| {
      EntryKeysDistinct(year, j, j + 1);
    }
  }

  /** Searching the keys is `map.get` on `holidaysForYearCZ`'s table. */
  lemma FindIsTableGet(key: string, year: int)
    requires year >= 0
    ensures Find(key, YearKeys(year), EntryNames()) == (if key in HolidayTable(year) then Some(HolidayTable(year)[key]) else None)
  {
    YearKeysDistinct(year);
    FindSpec(key, YearKeys(year), EntryNames());
    HolidayTableKeys(year);
    if key in HolidayTable(year) {
      var j :| 0 <= j < EntryCount && key == EntryKey(year, j);
      HolidayTableValue(year, j);
      assert YearKeys(year)[j] == key;
    } else {
      forall j | 0 <= j < EntryCount
        ensures YearKeys(year)[j] != key
      {
      }
    }
  }

  /** So `getCzechHolidayName` is `holidaysForYearCZ(p.y).get(dateIso) ?? null`. */
  lemma HolidayNameIsTableGet(dateIso: string)
    ensures GetCzechHolidayName(dateIso) ==
      match IsoParts(dateIso)
      case None => None
      case Some(p) =>
        var table := HolidayTable(p.year);
        if dateIso in table then Some(table[dateIso]) else None
  {
    if IsoParts(dateIso).Some? {
      FindIsTableGet(dateIso, IsoParts(dateIso).value.year);
    }
  }

  /** The fixed holiday, if any, on month `m` and day `d`, looked up in the
      numeric table from index `from` on. */
  function FixedHolidayOn(m: int, d: int, from: nat): Option<string>
    requires from <= |FixedHolidayDates|
    decreases |FixedHolidayDates| - from
  {
    if from == |FixedHolidayDates| then None
    else if FixedHolidayDates[from] == (m, d) then Some(FixedHolidays[from].1)
    else FixedHolidayOn(m, d, from + 1)
  }

  lemma {:induction false} FixedHolidayOnSpec(m: int, d: int, from: nat)
    requires from <= |FixedHolidayDates|
    ensures FixedHolidayOn(m, d, from).Some? <==> exists i :: from <= i < |FixedHolidayDates| && FixedHolidayDates[i] == (m, d)
    ensures forall i :: from <= i < |FixedHolidayDates| && FixedHolidayDates[i] == (m, d) ==>
              FixedHolidayOn(m, d, from) == Some(FixedHolidays[i].1)
    decreases |FixedHolidayDates| - from
  {
    if from < |FixedHolidayDates| {
      FixedHolidayOnSpec(m, d, from + 1);
      forall i | from < i < |FixedHolidayDates| && FixedHolidayDates[i] == (m, d)
        ensures FixedHolidayDates[from] != (m, d)
      {
        FixedDatesDistinct(from, i);
      }
    }
  }

  /** The holiday on a date, defined on the calendar instead of on text:
      Good Friday, Easter Monday or one of the fixed dates. */
  function CzechHolidayOf(dt: Date): Option<string>
    requires dt.year >= 0
  {
    if dt == GoodFriday(dt.year) then Some(GoodFridayName)
    else if dt == EasterMonday(dt.year) then Some(EasterMondayName)
    else FixedHolidayOn(dt.month, dt.day, 0)
  }

  /** A date's text is a fixed holiday's key exactly when the numeric
      table lists its month and day, and then it holds that holiday's name. */
  lemma FixedEntriesOfDate(dt: Date)
    requires ValidDate(dt)
    ensures ToIso(dt) in FixedEntries(dt.year, |FixedHolidays|) <==> FixedHolidayOn(dt.month, dt.day, 0).Some?
    ensures ToIso(dt) in FixedEntries(dt.year, |FixedHolidays|) ==>
              FixedHolidayOn(dt.month, dt.day, 0) == Some(FixedEntries(dt.year, |FixedHolidays|)[ToIso(dt)])
  {
    var s, year := ToIso(dt), dt.year;
    FixedHolidayOnSpec(dt.month, dt.day, 0);
    FixedEntriesKeys(year, |FixedHolidays|);
    if s in FixedEntries(year, |FixedHolidays|) {
      var i :| 0 <= i < |FixedHolidays| && s == FixedKey(year, i);
      FixedKeyIsIso(year, i);
      FixedMmdd(i);
      ToIsoInjective(dt, Date(year, FixedHolidayDates[i].0, FixedHolidayDates[i].1));
      FixedEntriesValue(year, |FixedHolidays|, i);
    } else {
      forall i | 0 <= i < |FixedHolidayDates|
        ensures FixedHolidayDates[i] != (dt.month, dt.day)
      {
        FixedKeyIsIso(year, i);
      }
    }
  }

  /** The table of a year maps the text of each of its dates to the
      holiday the calendar definition gives, and holds no other date of it. */
  lemma HolidayTableOfDate(dt: Date)
    requires ValidDate(dt) && dt.year >= 0
    ensures ToIso(dt) in HolidayTable(dt.year) <==> CzechHolidayOf(dt).Some?
    ensures ToIso(dt) in HolidayTable(dt.year) ==> CzechHolidayOf(dt) == Some(HolidayTable(dt.year)[ToIso(dt)])
  {
    var year := dt.year;
    var gf, em := GoodFriday(year), EasterMonday(year);
    MovableKeysDistinct(year);
    if dt != gf && dt != em {
      if ToIso(dt) == ToIso(gf) { ToIsoInjective(dt, gf); }
      if ToIso(dt) == ToIso(em) { ToIsoInjective(dt, em); }
      FixedEntriesOfDate(dt);
    }
  }

  /** For a date with a four-digit year, looking its text up finds exactly
      the holiday the calendar definition gives. */
  lemma HolidayNameOfDate(dt: Date)
    requires ValidDate(dt) && 1000 <= dt.year <= 9999
    ensures GetCzechHolidayName(ToIso(dt)) == CzechHolidayOf(dt)
  {
    IsoRoundTrip(dt);
    HolidayTableOfDate(dt);
    HolidayNameIsTableGet(ToIso(dt));
  }

  /** `isWeekendDate`: the `YYYY-MM-DD` text names a Saturday or a Sunday
      (after `Date` rollover of out-of-range months and days). */
  predicate IsWeekendDate(dateIso: string)
  {
    match IsoParts(dateIso)
    case None => false
    case Some(p) =>
      var dow := JsGetDay(p.year, p.month - 1, p.day);
      dow == 0 || dow == 6
  }

  /** The weekday of a date from its day number: 0 Sunday .. 6 Saturday
      (day 1, 1 January of year 1, was a Monday). */
  function Weekday(dt: Date): (dow: int)
    requires 1 <= dt.month <= 12
    ensures 0 <= dow < 7
  {
    Ordinal(dt) % 7
  }

  lemma WeekendOfDate(dt: Date)
    requires ValidDate(dt) && 1000 <= dt.year <= 9999
    ensures IsWeekendDate(ToIso(dt)) <==> Weekday(dt) == 0 || Weekday(dt) == 6
  {
    IsoRoundTrip(dt);
    JsDayNumberOfDate(dt);
  }

  // ------------------------------------------------------- working days

  /** Day `d` of month `month1` counts when it is neither a weekend day nor
      a holiday; the holiday is looked up under `${year}-${pad2(month1)}-${pad2(d)}`. */
  predicate IsWorkingDay(year: int, month1: int, d: int)
  {
    var dow := JsGetDay(year, month1 - 1, d);
    dow != 0 && dow != 6 && GetCzechHolidayName(IsoText(year, month1, d)).None?
  }

  /** The number of `true` entries. */
  function CountTrue(flags: seq<bool>): (n: nat)
    ensures n <= |flags|
  {
    if flags == [] then 0 else CountTrue(flags[..|flags| - 1]) + (if flags[|flags| - 1] then 1 else 0)
  }

  lemma CountTruePrefix(flags: seq<bool>, k: nat)
    requires k < |flags|
    ensures CountTrue(flags[..k + 1]) == CountTrue(flags[..k]) + (if flags[k] then 1 else 0)
  {
    assert flags[..k + 1][..k] == flags[..k];
  }

  /** Which of the days 1..n are working days. */
  function WorkingDayFlags(year: int, month1: int, n: nat): (flags: seq<bool>)
    ensures |flags| == n
  {
    seq(n, i requires 0 <= i < n => IsWorkingDay(year, month1, i + 1))
  }

  /** The working days of the month `new Date(year, month1, 0)` ends. */
  function WorkingDaysOf(year: int, month1: int): nat
  {
    CountTrue(WorkingDayFlags(year, month1, JsDaysInMonth(year, month1)))
  }

  /** `workingDaysInMonthCs`: count the days of the month that are neither
      a weekend day nor a holiday. */
  method WorkingDaysInMonthCs(year: int, month1: int) returns (working: nat)
    ensures working == WorkingDaysOf(year, month1)
    ensures working <= JsDaysInMonth(year, month1)
  {
    var dim := JsDaysInMonth(year, month1);
    ghost var flags := WorkingDayFlags(year, month1, dim);
    working := 0;
    var d := 1;
    while d <= dim
      invariant 1 <= d <= dim + 1
      invariant working == CountTrue(flags[..d - 1])
    {
      CountTruePrefix(flags, d - 1);
      // a Saturday or a Sunday is skipped, and so is a holiday
      var dow := JsGetDay(year, month1 - 1, d);
      var iso := IsoText(year, month1, d);
      assert flags[d - 1] == (dow != 0 && dow != 6 && GetCzechHolidayName(iso).None?);
      if dow != 0 && dow != 6 && GetCzechHolidayName(iso).None? {
        working := working + 1;
      }
      d := d + 1;
    }
    assert flags[..dim] == flags;
  }

  /** In a real month of a four-digit year, a working day is a weekday
      that the calendar definition of holidays leaves free. */
  lemma WorkingDayOfDate(year: int, month1: int, d: int)
    requires 1000 <= year <= 9999 && 1 <= month1 <= 12 && 1 <= d <= DaysInMonth(year, month1)
    ensures IsWorkingDay(year, month1, d) <==>
      var dt := Date(year, month1, d);
      Weekday(dt) != 0 && Weekday(dt) != 6 && CzechHolidayOf(dt).None?
  {
    var dt := Date(year, month1, d);
    JsDayNumberOfDate(dt);
    assert JsGetDay(year, month1 - 1, d) == Weekday(dt);
    HolidayNameOfDate(dt);
    assert IsoText(year, month1, d) == ToIso(dt);
  }

  /** A day of January 2026 other than New Year's Day is no holiday. */
  lemma JanuaryHolidays2026(d: int)
    requires 1 <= d <= 31
    ensures CzechHolidayOf(Date(2026, 1, d)).Some? <==> d == 1
  {
    MovableDates2026();
    FixedHolidayOnSpec(1, d, 0);
    if d == 1 {
      assert FixedHolidayDates[0] == (1, d);
    }
  }

  /** Which days of January 2026 are working days, worked out by hand:
      the 1st, a Thursday, is a holiday, and the 3rd is a Saturday. */
  predicate JanuaryWorkday2026(d: int)
  {
    d != 1 && (d + 3) % 7 != 0 && (d + 3) % 7 != 6
  }

  lemma JanuaryDay2026(d: int)
    requires 1 <= d <= 31
    ensures IsWorkingDay(2026, 1, d) <==> JanuaryWorkday2026(d)
  {
    WorkingDayOfDate(2026, 1, d);
    JanuaryHolidays2026(d);
    JanuaryWeekday2026(d);
  }

  /** 1 January 2026 is a Thursday. */
  lemma JanuaryWeekday2026(d: int)
    ensures Weekday(Date(2026, 1, d)) == (d + 3) % 7
  {
    DaysBefore2026();
    assert Ordinal(Date(2026, 1, d)) == 739616 + d;
    WeekShift(105659, d + 3);
  }

  lemma DaysBefore2026()
    ensures DaysBeforeYear(2026) == 739616
  {
    assert 2025 / 4 == 506 && 2025 / 100 == 20 && 2025 / 400 == 5;
  }

  lemma WeekShift(k: int, x: int)
    ensures (7 * k + x) % 7 == x % 7
  {
  }

  /** The hand count of the first `k` days. */
  function JanuaryCount2026(k: nat): nat
  {
    if k == 0 then 0 else JanuaryCount2026(k - 1) + (if JanuaryWorkday2026(k) then 1 else 0)
  }

  lemma {:induction false} JanuaryPrefix2026(k: nat)
    requires k <= 31
    ensures CountTrue(WorkingDayFlags(2026, 1, 31)[..k]) == JanuaryCount2026(k)
  {
    if k > 0 {
      JanuaryPrefix2026(k - 1);
      CountTruePrefix(WorkingDayFlags(2026, 1, 31), k - 1);
      JanuaryDay2026(k);
    }
  }

  /** January 2026 has 21 working days: 31 days, nine of them on a
      weekend, and New Year's Day, a Thursday, a holiday. */
  lemma JanuaryWorkingDays2026()
    ensures WorkingDaysOf(2026, 1) == 21
  {
    assert JsDaysInMonth(2026, 1) == 31;
    JanuaryPrefix2026(31);
    assert WorkingDayFlags(2026, 1, 31)[..31] == WorkingDayFlags(2026, 1, 31);
    JanuaryCountIs21();
  }

  lemma JanuaryCountIs21()
    ensures JanuaryCount2026(31) == 21
  {
    JanuaryCountTo18();
    assert JanuaryCount2026(25) == 16;
  }

  lemma JanuaryCountTo18()
    ensures JanuaryCount2026(18) == 11
  {
    assert JanuaryCount2026(4) == 1;
    assert JanuaryCount2026(11) == 6;
  }
}
