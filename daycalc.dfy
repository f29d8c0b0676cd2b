/**
 * The per-day result and the month totals of `src/utils/attendanceCalc.ts`
 * (`computeDayCalc`, `computeMonthStats`).
 */
module DayCalc {
  import opened Options
  import opened JsString
  import opened TimeOfDay
  import opened Holidays
  import opened Breaks

  /** `EmploymentTemplate`. */
  datatype Template = DPP_DPC | HPP

  /** `AttendanceRowLike`: a `YYYY-MM-DD` date and two optional `HH:MM` times. */
  datatype AttendanceRow = AttendanceRow(date: string, arrivalTime: Option<string>, departureTime: Option<string>)

  datatype DayComputed = DayComputed(
    workedMins: Option<int>,
    breakMins: int,
    breakLabel: Option<string>,
    breakTooltip: Option<string>,
    afternoonMins: int,
    weekendHolidayMins: int,
    isWeekend: bool,
    holidayName: Option<string>,
    isWeekendOrHoliday: bool)

  datatype MonthStats = MonthStats(totalMins: int, breakMins: int, afternoonMins: int, weekendHolidayMins: int)

  /** The minutes of `segs` at or after `cutoff` (and before midnight). */
  function AfternoonMinutes(segs: seq<Segment>, cutoff: int): int
  {
    if segs == [] then 0
    else OverlapMinutes(segs[0].from, segs[0].to, cutoff, 24 * 60) + AfternoonMinutes(segs[1..], cutoff)
  }

  /** The arrival and departure of a row, when both parse and the departure
      is later. */
  predicate HasInterval(row: AttendanceRow)
  {
    var a := ParseTimeToMinutes(row.arrivalTime);
    var d := ParseTimeToMinutes(row.departureTime);
    a.Some? && d.Some? && d.value > a.value
  }

  /** The length of the row's interval, breaks included; 0 without one. */
  function IntervalMinutes(row: AttendanceRow): (n: int)
    ensures n >= 0
    ensures n > 0 <==> HasInterval(row)
  {
    if HasInterval(row) then ParseTimeToMinutes(row.departureTime).value - ParseTimeToMinutes(row.arrivalTime).value else 0
  }

  /** `computeDayCalc`. */
  function ComputeDayCalc(row: AttendanceRow, template: Template, cutoffMinutes: int): (c: DayComputed)
    // the calendar flags are computed on every path
    ensures c.isWeekend == IsWeekendDate(row.date)
    ensures c.holidayName == GetCzechHolidayName(row.date)
    ensures c.isWeekendOrHoliday == (c.isWeekend || (c.holidayName.Some? && c.holidayName.value != ""))
    // no usable interval: nothing worked, every bucket empty
    ensures !HasInterval(row) ==>
      c.workedMins.None? && c.breakMins == 0 && c.breakLabel.None? && c.breakTooltip.None?
      && c.afternoonMins == 0 && c.weekendHolidayMins == 0
  {
    var isWeekend := IsWeekendDate(row.date);
    var holidayName := GetCzechHolidayName(row.date);
    var isWeekendOrHoliday := isWeekend || (holidayName.Some? && holidayName.value != "");
    var a := ParseTimeToMinutes(row.arrivalTime);
    var d := ParseTimeToMinutes(row.departureTime);
    if a.None? || d.None? || d.value <= a.value then
      DayComputed(None, 0, None, None, 0, 0, isWeekend, holidayName, isWeekendOrHoliday)
    else if template != HPP then
      DayComputed(Some(d.value - a.value), 0, None, None, 0, 0, isWeekend, holidayName, isWeekendOrHoliday)
    else
      HppDayCalc(a.value, d.value, cutoffMinutes, isWeekend, holidayName, isWeekendOrHoliday)
  }

  /** The HPP path of `computeDayCalc` for an interval `a < d`: breaks,
      segments, the buckets, and the label and tooltip. */
  function HppDayCalc(a: int, d: int, cutoffMinutes: int, isWeekend: bool, holidayName: Option<string>, isWeekendOrHoliday: bool): DayComputed
  {
    var breaks := ComputeHppBreaks(a, d);
    var segments := SegmentsMinusBreaksSpec(a, d, breaks);
    var workedMins := Worked(segments);
    var afternoonMins := AfternoonMinutes(segments, cutoffMinutes);
    var weekendHolidayMins := if isWeekendOrHoliday then workedMins else 0;
    var breakMins := |breaks| * 30;
    DayComputed(Some(workedMins), breakMins,
      if breakMins != 0 then Some(BreakLabelFromMinutes(breakMins)) else None,
      if |breaks| != 0 then Some(BreakTooltipFromWindows(breaks)) else None,
      afternoonMins, weekendHolidayMins, isWeekend, holidayName, isWeekendOrHoliday)
  }

  /** The HPP path keeps worked plus break time equal to the interval. */
  lemma HppDayCalcTotals(a: int, d: int, cutoffMinutes: int, isWeekend: bool, holidayName: Option<string>, isWeekendOrHoliday: bool)
    requires a < d
    ensures var c := HppDayCalc(a, d, cutoffMinutes, isWeekend, holidayName, isWeekendOrHoliday);
      c.workedMins.Some? && c.workedMins.value + c.breakMins == d - a
      && c.breakMins == (if d - a < 390 then 0 else if d - a < 750 then 30 else 60)
      && 0 <= c.afternoonMins <= c.workedMins.value
      && c.weekendHolidayMins == (if isWeekendOrHoliday then c.workedMins.value else 0)
      && (c.breakLabel.Some? <==> c.breakMins > 0) && (c.breakTooltip.Some? <==> c.breakMins > 0)
      && c.isWeekend == isWeekend && c.holidayName == holidayName && c.isWeekendOrHoliday == isWeekendOrHoliday
  {
    var breaks := ComputeHppBreaks(a, d);
    HppSegments(a, d);
    AfternoonWithinWorked(SegmentsMinusBreaksSpec(a, d, breaks), cutoffMinutes, a, d);
  }

  /** A non-HPP day with an interval works its whole length and fills no bucket. */
  lemma DayCalcOtherTemplate(row: AttendanceRow, template: Template, cutoffMinutes: int)
    requires HasInterval(row) && template != HPP
    ensures var c := ComputeDayCalc(row, template, cutoffMinutes);
      c.workedMins == Some(IntervalMinutes(row)) && c.breakMins == 0 && c.breakLabel.None?
      && c.breakTooltip.None? && c.afternoonMins == 0 && c.weekendHolidayMins == 0
  {
  }

  /** An HPP day with an interval: worked time plus break time is the
      interval, the break time follows the 6h30 / 12h30 thresholds, the
      afternoon bucket is part of the worked time, the weekend/holiday
      bucket is all of it or nothing, and the label and tooltip are present
      exactly when there is a break. */
  lemma DayCalcHpp(row: AttendanceRow, cutoffMinutes: int)
    requires HasInterval(row)
    ensures var c := ComputeDayCalc(row, HPP, cutoffMinutes);
      c.workedMins.Some? && c.workedMins.value + c.breakMins == IntervalMinutes(row)
      && c.breakMins == (if IntervalMinutes(row) < 390 then 0 else if IntervalMinutes(row) < 750 then 30 else 60)
      && 0 <= c.afternoonMins <= c.workedMins.value
      && c.weekendHolidayMins == (if c.isWeekendOrHoliday then c.workedMins.value else 0)
      && (c.breakLabel.Some? <==> c.breakMins > 0) && (c.breakTooltip.Some? <==> c.breakMins > 0)
  {
    var a := ParseTimeToMinutes(row.arrivalTime).value;
    var d := ParseTimeToMinutes(row.departureTime).value;
    var isWeekend := IsWeekendDate(row.date);
    var holidayName := GetCzechHolidayName(row.date);
    var isWeekendOrHoliday := isWeekend || (holidayName.Some? && holidayName.value != "");
    HppDayCalcTotals(a, d, cutoffMinutes, isWeekend, holidayName, isWeekendOrHoliday);
    assert ComputeDayCalc(row, HPP, cutoffMinutes) == HppDayCalc(a, d, cutoffMinutes, isWeekend, holidayName, isWeekendOrHoliday);
  }

  /** Each segment's afternoon part is at most its length. */
  lemma {:induction false} AfternoonWithinWorked(segs: seq<Segment>, cutoff: int, a: int, d: int)
    requires OrderedWithin(segs, a, d)
    ensures 0 <= AfternoonMinutes(segs, cutoff) <= Worked(segs)
    decreases |segs|
  {
    if segs != [] {
      assert OrderedWithin(segs[1..], a, d) by {
        forall k | 0 <= k < |segs[1..]| ensures a <= segs[1..][k].from < segs[1..][k].to <= d {
          assert segs[1..][k] == segs[k + 1];
        }
        forall k, l | 0 <= k < l < |segs[1..]| ensures segs[1..][k].to <= segs[1..][l].from {
          assert segs[1..][k] == segs[k + 1] && segs[1..][l] == segs[l + 1];
        }
      }
      AfternoonWithinWorked(segs[1..], cutoff, a, d);
    }
  }

  /** The afternoon example: an HPP shift 08:00–18:00 (480–1080) with a
      17:00 cutoff has one break, 570 worked minutes and 60 afternoon ones. */
  lemma AfternoonExample()
    ensures var segs := SegmentsMinusBreaksSpec(480, 1080, ComputeHppBreaks(480, 1080));
      Worked(segs) == 570 && AfternoonMinutes(segs, 1020) == 60
  {
    var breaks := ComputeHppBreaks(480, 1080);
    assert breaks == [BreakWindow(840, 870)];
    var segs := SegmentsMinusBreaksSpec(480, 1080, breaks);
    assert SegmentsFrom(870, [], 1080) == [Segment(870, 1080)];
    assert SegmentsFrom(480, breaks, 1080) == [Segment(480, 840), Segment(870, 1080)];
    assert segs == [Segment(480, 840), Segment(870, 1080)] by {
      NonEmptyKeeps([Segment(480, 840), Segment(870, 1080)]);
    }
    assert segs[1..] == [Segment(870, 1080)];
    assert AfternoonMinutes(segs, 1020) == 0 + AfternoonMinutes(segs[1..], 1020);
    assert Worked(segs) == 360 + Worked(segs[1..]);
  }

  // ------------------------------------------------------- month stats

  /** The totals after one more day. */
  function AddDay(t: MonthStats, c: DayComputed): MonthStats
  {
    MonthStats(t.totalMins + (if c.workedMins.Some? then c.workedMins.value else 0),
               t.breakMins + c.breakMins, t.afternoonMins + c.afternoonMins,
               t.weekendHolidayMins + c.weekendHolidayMins)
  }

  /** The four running totals of the `computeMonthStats` loop over the
      days' results. */
  function SumDays(days: seq<DayComputed>): MonthStats
  {
    if days == [] then MonthStats(0, 0, 0, 0) else AddDay(SumDays(days[..|days| - 1]), days[|days| - 1])
  }

  /** The per-day results of the rows, in order. */
  function DaysOf(rows: seq<AttendanceRow>, template: Template, cutoffMinutes: int): (days: seq<DayComputed>)
    ensures |days| == |rows|
  {
    seq(|rows|, i requires 0 <= i < |rows| => ComputeDayCalc(rows[i], template, cutoffMinutes))
  }

  /** What `computeMonthStats` returns: the totals, with the three HPP-only
      buckets forced to 0 for any other template. */
  function MonthStatsOf(rows: seq<AttendanceRow>, template: Template, cutoffMinutes: int): MonthStats
  {
    var t := SumDays(DaysOf(rows, template, cutoffMinutes));
    if template != HPP then MonthStats(t.totalMins, 0, 0, 0) else t
  }

  /** The fold over the first `i + 1` days is one step of the fold over the first `i`. */
  lemma SumDaysPrefix(days: seq<DayComputed>, i: nat)
    requires i < |days|
    ensures SumDays(days[..i + 1]) == AddDay(SumDays(days[..i]), days[i])
  {
    assert days[..i + 1][..i] == days[..i];
  }

  /** `computeMonthStats`: run `computeDayCalc` over the rows in order and
      keep the four running totals. */
  method ComputeMonthStats(rows: seq<AttendanceRow>, template: Template, cutoffMinutes: int) returns (stats: MonthStats)
    ensures stats == MonthStatsOf(rows, template, cutoffMinutes)
  {
    var totalMins, breakMins, afternoonMins, weekendHolidayMins := 0, 0, 0, 0;
    ghost var days := DaysOf(rows, template, cutoffMinutes);
    var i := 0;
    while i < |rows|
      invariant 0 <= i <= |rows|
      invariant MonthStats(totalMins, breakMins, afternoonMins, weekendHolidayMins) == SumDays(days[..i])
    {
      // computeDayCalc(rows[i], template, cutoffMinutes)
      var c := DaysOf(rows, template, cutoffMinutes)[i];
      SumDaysPrefix(days, i);
      if c.workedMins.Some? {
        totalMins := totalMins + c.workedMins.value;
      }
      breakMins := breakMins + c.breakMins;
      afternoonMins := afternoonMins + c.afternoonMins;
      weekendHolidayMins := weekendHolidayMins + c.weekendHolidayMins;
      i := i + 1;
    }
    assert days[..|rows|] == days;
    if template != HPP {
      return MonthStats(totalMins, 0, 0, 0);
    }
    return MonthStats(totalMins, breakMins, afternoonMins, weekendHolidayMins);
  }

  /** The sum of the rows' interval lengths, breaks included. */
  function IntervalTotal(rows: seq<AttendanceRow>): (n: int)
    ensures n >= 0
  {
    if rows == [] then 0 else IntervalTotal(rows[..|rows| - 1]) + IntervalMinutes(rows[|rows| - 1])
  }

  /** What one row adds to the totals: its worked minutes (none counted as
      0) and its break minutes make up its interval on HPP, its worked
      minutes alone do on any other template, and the afternoon and
      weekend/holiday minutes are part of the worked ones. */
  lemma DayContribution(row: AttendanceRow, template: Template, cutoffMinutes: int)
    ensures var c := ComputeDayCalc(row, template, cutoffMinutes);
      var worked := if c.workedMins.Some? then c.workedMins.value else 0;
      (template == HPP ==> worked + c.breakMins == IntervalMinutes(row))
      && (template != HPP ==> worked == IntervalMinutes(row) && c.breakMins == 0 && c.afternoonMins == 0 && c.weekendHolidayMins == 0)
      && 0 <= c.afternoonMins <= worked && 0 <= c.weekendHolidayMins <= worked
  {
    if HasInterval(row) {
      if template == HPP {
        DayCalcHpp(row, cutoffMinutes);
      } else {
        DayCalcOtherTemplate(row, template, cutoffMinutes);
      }
    }
  }

  lemma {:induction false} TotalsAccount(rows: seq<AttendanceRow>, template: Template, cutoffMinutes: int)
    ensures var t := SumDays(DaysOf(rows, template, cutoffMinutes));
      (template == HPP ==> t.totalMins + t.breakMins == IntervalTotal(rows))
      && (template != HPP ==> t.totalMins == IntervalTotal(rows))
      && 0 <= t.afternoonMins <= t.totalMins && 0 <= t.weekendHolidayMins <= t.totalMins
    decreases |rows|
  {
    if rows != [] {
      var n := |rows| - 1;
      var days := DaysOf(rows, template, cutoffMinutes);
      TotalsAccount(rows[..n], template, cutoffMinutes);
      assert days[..n] == DaysOf(rows[..n], template, cutoffMinutes);
      DayContribution(rows[n], template, cutoffMinutes);
    }
  }

  /** Worked time and break time together account for every interval: on
      HPP the month's worked and break minutes add up to the intervals'
      total, on any other template the worked minutes alone do and the
      other three totals are 0; the afternoon and weekend/holiday totals
      never exceed the worked total. */
  lemma MonthStatsAccount(rows: seq<AttendanceRow>, template: Template, cutoffMinutes: int)
    ensures var s := MonthStatsOf(rows, template, cutoffMinutes);
      (template == HPP ==> s.totalMins + s.breakMins == IntervalTotal(rows))
      && (template != HPP ==> s.totalMins == IntervalTotal(rows) && s.breakMins == 0 && s.afternoonMins == 0 && s.weekendHolidayMins == 0)
      && 0 <= s.afternoonMins <= s.totalMins && 0 <= s.weekendHolidayMins <= s.totalMins
  {
    TotalsAccount(rows, template, cutoffMinutes);
  }

  /** The totals of two runs of days add up. */
  lemma {:induction false} SumDaysConcat(d1: seq<DayComputed>, d2: seq<DayComputed>)
    ensures var t, t1, t2 := SumDays(d1 + d2), SumDays(d1), SumDays(d2);
      t == MonthStats(t1.totalMins + t2.totalMins, t1.breakMins + t2.breakMins,
                      t1.afternoonMins + t2.afternoonMins, t1.weekendHolidayMins + t2.weekendHolidayMins)
    decreases |d2|
  {
    if d2 == [] {
      assert d1 + d2 == d1;
    } else {
      assert (d1 + d2)[..|d1 + d2| - 1] == d1 + d2[..|d2| - 1];
      assert (d1 + d2)[|d1 + d2| - 1] == d2[|d2| - 1];
      SumDaysConcat(d1, d2[..|d2| - 1]);
    }
  }

  /** Splitting the month's rows splits the totals: the stats of `r1 + r2`
      are the field-wise sums of the stats of `r1` and of `r2`. */
  lemma MonthStatsConcat(r1: seq<AttendanceRow>, r2: seq<AttendanceRow>, template: Template, cutoffMinutes: int)
    ensures var s, s1, s2 := MonthStatsOf(r1 + r2, template, cutoffMinutes),
                             MonthStatsOf(r1, template, cutoffMinutes), MonthStatsOf(r2, template, cutoffMinutes);
      s == MonthStats(s1.totalMins + s2.totalMins, s1.breakMins + s2.breakMins,
                      s1.afternoonMins + s2.afternoonMins, s1.weekendHolidayMins + s2.weekendHolidayMins)
  {
    var d1, d2 := DaysOf(r1, template, cutoffMinutes), DaysOf(r2, template, cutoffMinutes);
    assert DaysOf(r1 + r2, template, cutoffMinutes) == d1 + d2;
    SumDaysConcat(d1, d2);
  }
}
