# A verified model of the dagmar attendance front end

This project models in Dafny the logic of the dagmar front end, an attendance-tracking web application with an employee portal and an admin console. The model covers the following parts.

- **The attendance engine** (`src/utils/attendanceCalc.ts`):
  - the Czech holiday calendar, with Easter by the Anonymous Gregorian algorithm and the per-year table of eleven fixed holidays plus Good Friday and Easter Monday;
  - the weekend and holiday classification of a `YYYY-MM-DD` text and the working-day count of a month;
  - `HH:MM` parsing and the afternoon cutoff;
  - the automatic HPP breaks and the worked segments left between them;
  - the per-day result for the three cases (no interval, DPP/DPČ, HPP) and the month totals.
- **The time-entry normaliser** (`src/utils/timeInput.ts`) and the copies of it in two pages.
- **The employee page** (`src/pages/EmployeePage.tsx`):
  - the month sheet filled from the server's days;
  - a time edit, with its optimistic row update and its payload;
  - the "punch now" button;
  - the offline queue: `enqueue`, and `flushQueueIfPossible` as a class with a mutable queue;
  - the working fund.
- **The admin pages:**
  - the `YYYY-MM` month texts and their steppers;
  - the attendance-sheet search and `commitTime`;
  - the print preview:
    - the list of days;
    - the planned minutes;
    - the break windows read back out of the engine's tooltip, proved to be a round trip;
    - the in/out pairs printed for a row;
    - the row colours and the working fund;
  - the export links;
  - the instance list: the display-name normaliser, the counts, the search, the two ordered lists, the selection and the merge;
  - the print selection and its preview link;
  - the login redirect guard.
- **The device identity store** (`src/state/instanceStore.ts`): a class holding the identity and the listeners, with pure transitions on an `Identity` value.
- **The retry policy** of `src/api/client.ts`: which errors are retried, and `withRetry` as a loop with its back-off pauses.

Where the source loops or updates in place, the model keeps that form. Examples are the working-day counter, the month totals, the segment cursor, the month fill, the `exec` loop, the day list, the status counts, the offline queue and the identity store. Each of these is a `method` proved against a specification function, and the properties are proved about that function. The rest is functions and lemmas.

Quirks of the source that the model keeps:
- JavaScript's truncating `%` is modelled as such.
- `new Date(y, …)` maps the years 0..99 to 1900..1999, and rolls over months and days that are out of range; both are modelled.
- `getCzechHolidayName` finds no holiday in a year below 1000. It reads a date only with a four-digit year, but stores its keys with the unpadded year.
- The print-preview page reads a month without trimming it first. The other admin pages trim.

## Model

| member | source | states |
|---|---|---|
| Calendar.DaysInMonth | src/utils/attendanceCalc.ts:69-73 | the month lengths the `Date` arithmetic rolls over with: 28 to 31 days, 29 exactly for February of a leap year |
| Calendar.JsGetDay | src/utils/attendanceCalc.ts:65 | `getDay()` of a constructed date is a weekday number 0 (Sunday) to 6 (Saturday) |
| Calendar.JsDaysInMonth | src/pages/EmployeePage.tsx:38-40 | `new Date(y, m, 0).getDate()` is a month length, 28 to 31 |
| Calendar.DayZeroIsLastDayOfPreviousMonth | src/pages/EmployeePage.tsx:38-40 | day 0 of a month is the last day of the month before, so `daysInMonth` is the day count of the month asked for |
| Calendar.JsDayNumberOfDate | src/utils/attendanceCalc.ts:65 | for a year outside 0..99, `new Date(y, m - 1, d)` is the day the fields name |
| Calendar.NextDay | src/utils/attendanceCalc.ts:69-73 | the next calendar day is a valid date one day later |
| Calendar.PrevDay | src/utils/attendanceCalc.ts:69-73 | the previous calendar day is a valid date one day earlier |
| Calendar.AddDays | src/utils/attendanceCalc.ts:69-73 | `addDays` gives the valid date exactly `delta` days away, over month and year ends |
| Calendar.NextDayEndOfMonth | src/utils/attendanceCalc.ts:69-73 | the day after a month's last day is the 1st of the next month |
| Calendar.PrevDayStartOfMonth | src/utils/attendanceCalc.ts:69-73 | the day before the 1st is the last day of the previous month |
| Calendar.AddDaysTwoBack | src/utils/attendanceCalc.ts:126 | moving two days back is two single steps back |
| Calendar.AddDaysOneOn | src/utils/attendanceCalc.ts:127 | moving one day on is the next day |
| Calendar.IsoParts | src/utils/attendanceCalc.ts:52-60 | a result exactly for texts of the `YYYY-MM-DD` digit shape, with fields in 0..9999, 0..99, 0..99 and no range check |
| Calendar.IsoRoundTrip | src/utils/attendanceCalc.ts:52-60 | reading back what `toIso` writes for a four-digit year gives the same date |
| Calendar.ToIsoInjective | src/utils/attendanceCalc.ts:96-98 | distinct dates get distinct `toIso` texts, so holiday keys do not collide |
| TimeOfDay.JsRem | src/utils/attendanceCalc.ts:48 | JavaScript's `%`: equal to the mathematical remainder for a non-negative operand and strictly inside (-b, b) |
| TimeOfDay.HourTextValue | src/utils/attendanceCalc.ts:34 | the hour group of the clock pattern reads as 0..23 |
| TimeOfDay.MinuteTextValue | src/utils/attendanceCalc.ts:34 | the minute group reads as 0..59 |
| TimeOfDay.ParseTimeToMinutes | src/utils/attendanceCalc.ts:32-37 | a value exactly for a present text matching the clock pattern, and then a minute of the day 0..1439 |
| TimeOfDay.MinutesToHHMM | src/utils/attendanceCalc.ts:46-50 | `minutesToHHMM` with JavaScript's `Math.floor` and `%`; its properties are the ensures of `TimeOfDay.HHMMRoundTrip` |
| TimeOfDay.HHMMRoundTrip | src/utils/attendanceCalc.ts:46-50 | `minutesToHHMM` writes five characters that match the clock pattern and parse back to the same minute |
| TimeOfDay.ShortHourAccepted | src/utils/attendanceCalc.ts:34 | a one-digit hour such as `9:05` is accepted and read as hour * 60 + minute |
| TimeOfDay.ParseCutoffToMinutes | src/utils/attendanceCalc.ts:39-44 | the value's minutes when it parses, else the fallback's when that parses, else 1020 (17:00); always 0..1439 |
| TimeOfDay.DefaultCutoff | src/utils/attendanceCalc.ts:39 | with the default fallback an unusable value gives 17:00 |
| Holidays.EasterSunday | src/utils/attendanceCalc.ts:75-92 | the anonymous Gregorian algorithm gives a valid date of the year `Date` uses, between 22 March and 25 April |
| Holidays.Easter2026 | src/utils/attendanceCalc.ts:76-92 | Easter Sunday 2026 is 5 April |
| Holidays.GoodFriday | src/utils/attendanceCalc.ts:126 | Good Friday is a valid March or April date of the same year |
| Holidays.EasterMonday | src/utils/attendanceCalc.ts:127 | Easter Monday is a valid March or April date of the same year |
| Holidays.MovableHolidaysAreAddDays | src/utils/attendanceCalc.ts:124-127 | Good Friday is `addDays(easter, -2)` and Easter Monday `addDays(easter, +1)`, two days before and one day after Easter |
| Holidays.TwoDaysBefore | src/utils/attendanceCalc.ts:126 | two days before a date in Easter's range, written out across the March/April boundary |
| Holidays.OneDayAfter | src/utils/attendanceCalc.ts:127 | the day after a date in Easter's range, written out across the March/April boundary |
| Holidays.GoodFridayAndEasterMonday2026 | src/utils/attendanceCalc.ts:124-127 | the 2026 table keys of the movable holidays are `2026-04-03` and `2026-04-06` |
| Holidays.MovableDates2026 | src/utils/attendanceCalc.ts:124-127 | Good Friday 2026 is 3 April and Easter Monday 6 April |
| Holidays.HolidaysForYearCZ | src/utils/attendanceCalc.ts:100-131 | the loop over the fixed holidays followed by the two movable ones builds the year's table |
| Holidays.FixedMmdd | src/utils/attendanceCalc.ts:107-119 | each `MM-DD` literal of the fixed table is the padded text of a real month (1..12) and day (1..31) |
| Holidays.FixedKeyIsIso | src/utils/attendanceCalc.ts:120-122 | the key `${year}-${mmdd}` of a fixed holiday is the `toIso` text of its date |
| Holidays.FixedDatesDistinct | src/utils/attendanceCalc.ts:107-119 | the eleven fixed holidays are on distinct dates, none in March or April |
| Holidays.FixedKeysDistinct | src/utils/attendanceCalc.ts:120-122 | distinct fixed holidays are stored under distinct keys |
| Holidays.FixedEntriesKeys | src/utils/attendanceCalc.ts:120-122 | after `n` fixed holidays are set the map has exactly their `n` keys |
| Holidays.FixedEntriesValue | src/utils/attendanceCalc.ts:120-122 | a later `set` never overwrites an earlier fixed holiday's name |
| Holidays.MovableKeysNotFixed | src/utils/attendanceCalc.ts:124-127 | a March or April key never overwrites a fixed holiday |
| Holidays.MovableKeysDistinct | src/utils/attendanceCalc.ts:126-127 | Good Friday and Easter Monday never share a key |
| Holidays.HolidayTable | src/utils/attendanceCalc.ts:100-131 | the table `holidaysForYearCZ` builds; its properties are the ensures of the `Holidays.HolidayTable…` lemmas below |
| Holidays.HolidayTableSize | src/utils/attendanceCalc.ts:100-131 | every year's table holds thirteen holidays |
| Holidays.FindSpec | src/utils/attendanceCalc.ts:137 | `map.get` over distinct keys finds a key exactly when it was set, with the name set for it |
| Holidays.HolidayTableKeys | src/utils/attendanceCalc.ts:100-131 | the table's keys are exactly the thirteen keys set |
| Holidays.HolidayTableValue | src/utils/attendanceCalc.ts:100-131 | each key is stored with its own holiday's name |
| Holidays.FindIsTableGet | src/utils/attendanceCalc.ts:137 | the front-to-back search of the keys is the map lookup |
| Holidays.GetCzechHolidayName | src/utils/attendanceCalc.ts:133-138 | a name only for text of the `YYYY-MM-DD` shape |
| Holidays.HolidayNameIsTableGet | src/utils/attendanceCalc.ts:133-138 | the name is the table of the parsed year looked up under the exact text, or none |
| Holidays.FixedHolidayOnSpec | src/utils/attendanceCalc.ts:107-119 | the numeric lookup finds a holiday exactly when the fixed table lists that month and day, with its name |
| Holidays.FixedEntriesOfDate | src/utils/attendanceCalc.ts:120-122 | a date's text is a fixed key exactly when the fixed table lists its month and day, with that name |
| Holidays.HolidayTableOfDate | src/utils/attendanceCalc.ts:100-131 | the year's table maps each of the year's dates to the holiday the calendar definition gives, and no other date |
| Holidays.HolidayNameOfDate | src/utils/attendanceCalc.ts:133-138 | for a four-digit year, looking a date's text up yields exactly its calendar holiday (Good Friday, Easter Monday or a fixed one) |
| Holidays.Weekday | src/utils/attendanceCalc.ts:65 | the weekday of a date is 0 (Sunday) to 6 (Saturday) |
| Holidays.IsWeekendDate | src/utils/attendanceCalc.ts:62-67 | `isWeekendDate` with `Date` rollover; its properties are the ensures of `Holidays.WeekendOfDate` |
| Holidays.WeekendOfDate | src/utils/attendanceCalc.ts:62-67 | for a four-digit year, `isWeekendDate` holds exactly on Saturdays and Sundays |
| Holidays.CountTruePrefix | src/utils/attendanceCalc.ts:143-150 | the counter goes up by one exactly for a counted day |
| Holidays.IsWorkingDay | src/utils/attendanceCalc.ts:143-149 | the loop body's test of one day; its properties are the ensures of `Holidays.WorkingDayOfDate` and `Holidays.WorkingDaysInMonthCs` |
| Holidays.WorkingDaysInMonthCs | src/utils/attendanceCalc.ts:140-152 | the loop counts exactly the month's days that are neither weekend days nor holidays, at most the month length |
| Holidays.WorkingDayOfDate | src/utils/attendanceCalc.ts:143-149 | in a real month of a four-digit year a day counts exactly when it is a weekday without a calendar holiday |
| TimeInput.Num2 | src/utils/timeInput.ts:6-7 | two digits read as a number below 100 |
| TimeInput.NormalizeTime | src/utils/timeInput.ts:1-26 | the result is the trimmed input or a strict `HH:MM` |
| TimeInput.NormalizeTrimmed | src/utils/timeInput.ts:3-25 | on trimmed text, the text itself or a strict `HH:MM` |
| TimeInput.CanonicalClock | src/utils/timeInput.ts:8 | an in-range hour and minute are written as a strict `HH:MM` that reads back as hour * 60 + minute |
| TimeInput.AcceptedClockParses | src/utils/timeInput.ts:5-23 | the canonical text of each accepted shape (`HHMM`, `H:MM`/`HH:MM`, bare hour 1..23) is a strict clock reading back to the minutes its digits give |
| TimeInput.NormalizeTrimmedShapes | src/utils/timeInput.ts:5-25 | non-blank text becomes its canonical clock when accepted and stays unchanged otherwise |
| TimeInput.StrictClockAccepted | src/utils/timeInput.ts:12-16 | a strict `HH:MM` is accepted by the colon branch and written back unchanged; it has no surrounding space |
| TimeInput.Pad2OfNum2 | src/utils/timeInput.ts:8 | padding back two digits' value gives the digits |
| TimeInput.NormalizeBlank | src/utils/timeInput.ts:2-3 | the result is `""` exactly for blank input, which is valid |
| TimeInput.NormalizeAccepted | src/utils/timeInput.ts:1-26 | an accepted shape becomes a strict clock of the minute its digits give; any other text is returned trimmed |
| TimeInput.IsValidTimeOrEmpty | src/utils/timeInput.ts:28-32 | `isValidTimeOrEmpty`; its properties are the ensures of `TimeInput.ValidIffAccepted` and `TimeInput.ValidTimesParse` |
| TimeInput.ValidIffAccepted | src/utils/timeInput.ts:28-32 | valid exactly for blank input and the accepted shapes |
| TimeInput.ValidTimesParse | src/utils/timeInput.ts:28-32 | every non-empty valid value normalises to a time `parseTimeToMinutes` reads |
| TimeInput.NormalizeIdempotent | src/utils/timeInput.ts:1-26 | normalising twice is normalising once |
| TimeInput.NormalizeOfClock | src/utils/timeInput.ts:12-16 | a strict `HH:MM` normalises to itself |
| TimeInput.Example1000 | src/utils/timeInput.ts:5-8 | `"1000"` becomes `"10:00"` |
| TimeInput.KeptAndRejected | src/utils/timeInput.ts:28-32 | text the normaliser keeps that is not a strict clock is returned and refused |
| TimeInput.Example2460 | src/utils/timeInput.ts:9 | `"2460"` is kept and refused |
| TimeInput.Example905 | src/utils/timeInput.ts:12-16 | `"9:05"` becomes `"09:05"` |
| TimeInput.Example95 | src/utils/timeInput.ts:25 | `"9:5"` matches no shape and is kept and refused |
| TimeInput.Example7 | src/utils/timeInput.ts:20-23 | `"7"` becomes `"07:00"` |
| TimeInput.ExampleBareHourRejected | src/utils/timeInput.ts:20-25 | a bare `0`, `00` or `24` is kept and refused |
| TimeInput.PageCopiesAgree | src/pages/EmployeePage.tsx:48-82 | the pages' own copies of `normalizeTime` and `isValidTimeOrEmpty` agree with the shared ones on every input |
| Breaks.ComputeHppBreaks | src/utils/attendanceCalc.ts:156-168 | no break below 6h30, one from +6:00 to +6:30 below 12h30, a second from +12:00 to +12:30 above; each 30 minutes, in order inside the shift |
| Breaks.SegmentsMinusBreaks | src/utils/attendanceCalc.ts:170-180 | the cursor loop over the breaks computes the segments of the specification function |
| Breaks.NonEmptySegments | src/utils/attendanceCalc.ts:179 | only non-empty segments are kept |
| Breaks.SegmentsFromProperties | src/utils/attendanceCalc.ts:172-178 | between well-formed breaks the segments are ordered, disjoint, non-empty, clear of every break, and add up to the time not spent on breaks |
| Breaks.RestWellFormed | src/utils/attendanceCalc.ts:176 | after a break the cursor moves to its end and the remaining breaks stay well formed |
| Breaks.SegmentsFromStep | src/utils/attendanceCalc.ts:175-176 | one loop step pushes the gap before the break, then carries on from the break's end |
| Breaks.SegmentsFromOrdered | src/utils/attendanceCalc.ts:172-178 | the segments are ordered and inside the shift |
| Breaks.OrderedConcat | src/utils/attendanceCalc.ts:175-178 | ordered pieces before and after a cut stay ordered together |
| Breaks.SegmentsFromAvoids | src/utils/attendanceCalc.ts:172-178 | no segment overlaps a break |
| Breaks.SegmentsFromWorked | src/utils/attendanceCalc.ts:172-178 | the segments add up to the span less the break minutes |
| Breaks.WorkedConcat | src/utils/attendanceCalc.ts:239 | the worked sum splits over concatenation |
| Breaks.NonEmptyKeeps | src/utils/attendanceCalc.ts:179 | the filter drops nothing when no segment is empty |
| Breaks.HppSegments | src/utils/attendanceCalc.ts:237-239 | the HPP segments of a shift are ordered, clear of the breaks and worth its length less 30 minutes per break |
| Breaks.WorkedExamples | src/utils/attendanceCalc.ts:160-168 | 08:00-16:00 works 450 minutes and 08:00-14:00 works 360 |
| Breaks.OverlapMinutes | src/utils/attendanceCalc.ts:182-186 | never negative, at most the first interval's length, zero exactly when the intervals do not meet, the whole interval when it lies inside the other |
| Breaks.OverlapSplit | src/utils/attendanceCalc.ts:182-186 | cutting an interval in two cuts its overlap in two |
| Breaks.BreakLabelFromMinutes | src/utils/attendanceCalc.ts:188-192 | the break label with U+2212; its properties are the ensures of `Breaks.BreakLabelExamples` and `Breaks.LabelWithoutSign` |
| Breaks.BreakTooltipFromWindows | src/utils/attendanceCalc.ts:194-200 | the break tooltip; its properties are the ensures of `Breaks.TooltipLabel` |
| Breaks.BreakLabelExamples | src/utils/attendanceCalc.ts:188-192 | 30 minutes read `−0:30 pauza` and 60 minutes `−1:00 pauza` |
| Breaks.WindowTexts | src/utils/attendanceCalc.ts:196 | one `HH:MM–HH:MM` text per window, in order |
| Breaks.TooltipLabel | src/utils/attendanceCalc.ts:194-200 | the tooltip is the singular or plural word, the label of 30 minutes per window without its sign, and the windows in parentheses |
| Breaks.LabelWithoutSign | src/utils/attendanceCalc.ts:199 | `replace("−", "")` on a label drops just its first character |
| DayCalc.IntervalMinutes | src/utils/attendanceCalc.ts:207-209 | positive exactly when both times parse and the departure is later |
| DayCalc.ComputeDayCalc | src/utils/attendanceCalc.ts:202-221 | the weekend, holiday and combined flags on every path; without a usable interval no worked time and every bucket empty |
| DayCalc.HppDayCalc | src/utils/attendanceCalc.ts:237-254 | the HPP path of `computeDayCalc`; its properties are the ensures of `DayCalc.HppDayCalcTotals` |
| DayCalc.HppDayCalcTotals | src/utils/attendanceCalc.ts:237-254 | on the HPP path worked plus break minutes is the interval, breaks follow the 6h30/12h30 thresholds, the afternoon bucket is part of the worked time, the weekend/holiday bucket all of it or nothing, label and tooltip present exactly with a break |
| DayCalc.DayCalcOtherTemplate | src/utils/attendanceCalc.ts:223-235 | any other template works the whole interval and fills no bucket |
| DayCalc.DayCalcHpp | src/utils/attendanceCalc.ts:202-255 | an HPP row with an interval gets the HPP totals of that interval |
| DayCalc.AfternoonMinutes | src/utils/attendanceCalc.ts:240 | the afternoon reduction over the segments; its properties are the ensures of `DayCalc.AfternoonWithinWorked` and `DayCalc.AfternoonExample` |
| DayCalc.AfternoonWithinWorked | src/utils/attendanceCalc.ts:240 | the afternoon part of the segments is at most their worked time |
| DayCalc.AfternoonExample | src/utils/attendanceCalc.ts:237-240 | an HPP shift 08:00-18:00 with a 17:00 cutoff works 570 minutes, 60 of them in the afternoon |
| DayCalc.DaysOf | src/utils/attendanceCalc.ts:263-264 | one day result per row |
| DayCalc.SumDaysPrefix | src/utils/attendanceCalc.ts:263-269 | the running totals after one more row are one step of the fold |
| DayCalc.ComputeMonthStats | src/utils/attendanceCalc.ts:257-275 | the loop returns the folded totals, with the three HPP-only totals 0 for any other template |
| DayCalc.DayContribution | src/utils/attendanceCalc.ts:202-255 | one row adds its interval as worked plus break minutes on HPP, as worked minutes alone otherwise; afternoon and weekend/holiday minutes are part of the worked ones |
| DayCalc.TotalsAccount | src/utils/attendanceCalc.ts:263-269 | the running totals account for every row's interval |
| DayCalc.MonthStatsAccount | src/utils/attendanceCalc.ts:257-275 | the month's worked and break minutes make up the intervals' total on HPP, the worked minutes alone do otherwise with the other totals 0, and the afternoon and weekend/holiday totals never exceed the worked total |
| DayCalc.SumDaysConcat | src/utils/attendanceCalc.ts:263-269 | the totals of two runs of days add up field by field |
| DayCalc.MonthStatsConcat | src/utils/attendanceCalc.ts:257-275 | the stats of two runs of rows are the field-wise sums of their stats |
| DayRows.FindRow | src/pages/AdminAttendanceSheetsPage.tsx:243 | the first row of the date, and none exactly when no row has it |
| DayRows.WithField | src/pages/AdminAttendanceSheetsPage.tsx:258 | the row with the one field replaced and the date and other field kept |
| DayRows.SetTime | src/pages/AdminAttendanceSheetsPage.tsx:254-261 | the optimistic update: rows of the date get the value in the field and keep the other; every other row is unchanged |
| DayRows.StoredValue | src/pages/AdminAttendanceSheetsPage.tsx:242 | `null` exactly for the empty text, the text otherwise |
| EmployeePage.LastWithDate | src/pages/EmployeePage.tsx:314-316 | a row found under a date carries that date |
| EmployeePage.LastWithDateIsLast | src/pages/EmployeePage.tsx:314-316 | the row kept for a date is the last server day with it, and none exactly when no server day has it |
| EmployeePage.RowFor | src/pages/EmployeePage.tsx:320-326 | the row shown for a date carries that date |
| EmployeePage.ByDateIsLast | src/pages/EmployeePage.tsx:314-316 | the map built by the `set` loop holds a date exactly when a server day has it, with the last such day |
| EmployeePage.FillMonth | src/pages/EmployeePage.tsx:313-327 | one row per day of the month in order, dated `${y}-${pad2(m)}-${pad2(day)}`, each the server's row for that date or an empty one |
| EmployeePage.MonthSheet | src/pages/EmployeePage.tsx:318-327 | the first `n` rows of the sheet, each the row for its date |
| EmployeePage.FillMonthDates | src/pages/EmployeePage.tsx:313-320 | for a real month of a four-digit year the row count is the month length and each row's date is the `YYYY-MM-DD` text of that day |
| EmployeePage.ChangeTime | src/pages/EmployeePage.tsx:404-431 | `onChangeTime` up to the send; its properties are the ensures of `EmployeePage.ChangeTimeRefused` and `EmployeePage.ChangeTimeApplied` |
| EmployeePage.ChangeTimeRefused | src/pages/EmployeePage.tsx:404-410 | a locked month or an invalid entry changes nothing |
| EmployeePage.ChangeTimeApplied | src/pages/EmployeePage.tsx:412-431 | an accepted edit sets the normalised value (`null` for `""`) in that field of the rows of that date only, and the payload carries it with the other field of the row as it was before the edit |
| EmployeePage.PunchTarget | src/pages/EmployeePage.tsx:448-468 | refused exactly in a locked month, and exactly when today's row is missing; the arrival when it is empty, else the departure when that is empty; nothing exactly when both are filled; never a filled field |
| EmployeePage.PunchTimeAccepted | src/pages/EmployeePage.tsx:458-466 | the `HH:MM` the punch writes always passes validation and is stored as it is |
| EmployeePage.FindDate | src/pages/EmployeePage.tsx:366 | the index of the first queued item of the date, none exactly when no item has it |
| EmployeePage.OtherDates | src/pages/EmployeePage.tsx:366-367 | the queued items of other dates only |
| EmployeePage.OtherDatesConcat | src/pages/EmployeePage.tsx:366-367 | filtering a date out splits over concatenation |
| EmployeePage.OtherDatesKeepsAll | src/pages/EmployeePage.tsx:366-367 | a queue without the date loses nothing |
| EmployeePage.SpliceIsFilter | src/pages/EmployeePage.tsx:366-367 | with unique dates, `splice(idx, 1)` of the date's item is filtering that date out |
| EmployeePage.AppendKeepsUnique | src/pages/EmployeePage.tsx:368 | pushing an item of a new date keeps dates unique |
| EmployeePage.OtherDatesUnique | src/pages/EmployeePage.tsx:366-367 | filtering a date out keeps dates unique and invents no item |
| EmployeePage.Enqueued | src/pages/EmployeePage.tsx:363-370 | the queue after `enqueue`; its properties are the ensures of `EmployeePage.EnqueueReplaces` and `EmployeePage.EnqueuedLast` |
| EmployeePage.EnqueueReplaces | src/pages/EmployeePage.tsx:363-370 | latest wins: the other items keep their order, the new one is last, dates stay unique, and the queue grows exactly when the date was not queued |
| EmployeePage.LeadingSuccesses | src/pages/EmployeePage.tsx:382-397 | the number of sends before the first failure |
| EmployeePage.PayloadsOf | src/pages/EmployeePage.tsx:385-392 | the payload sent for each queued item, in order |
| EmployeePage.Flushed | src/pages/EmployeePage.tsx:372-402 | the state after `flushQueueIfPossible`; its properties are the ensures of `EmployeePage.FlushKeepsOrder` and `EmployeePage.FlushedKeepsLast` |
| EmployeePage.FlushKeepsOrder | src/pages/EmployeePage.tsx:372-402 | flushing loses and reorders nothing: the newly delivered payloads followed by the remaining queue are the queue before; with a usable connection the queue empties exactly when every send succeeds |
| EmployeePage.PayloadsSplit | src/pages/EmployeePage.tsx:385-392 | the payloads of a queue split at any point |
| EmployeePage.DeliveredGrows | src/pages/EmployeePage.tsx:385-394 | delivering the next item appends its payload |
| EmployeePage.AfterSend | src/pages/EmployeePage.tsx:433-445 | the send-or-queue tail of `onChangeTime`; its properties are the ensures of `EmployeePage.PayloadNotLost` |
| EmployeePage.PayloadNotLost | src/pages/EmployeePage.tsx:433-445 | after `onChangeTime` the payload is delivered or is the last queued item |
| EmployeePage.EnqueuedLast | src/pages/EmployeePage.tsx:368 | the enqueued item ends the queue |
| EmployeePage.FlushedKeepsLast | src/pages/EmployeePage.tsx:380-398 | the last queued item is, after a flush, delivered or still last |
| EmployeePage.EmployeeSheet.constructor | src/pages/EmployeePage.tsx:122 | an empty sheet, unlocked, with an empty queue |
| EmployeePage.EmployeeSheet.Enqueue | src/pages/EmployeePage.tsx:363-370 | the queue becomes the spliced queue with the item pushed |
| EmployeePage.EmployeeSheet.FlushQueueIfPossible | src/pages/EmployeePage.tsx:372-402 | the loop sends front first and shifts only after a success, reaching the flushed state |
| EmployeePage.EmployeeSheet.OnChangeTime | src/pages/EmployeePage.tsx:404-446 | a refused edit changes nothing; an accepted one updates the rows and then sends or queues the payload |
| EmployeePage.EmployeeSheet.Send | src/pages/EmployeePage.tsx:433-445 | offline or without a token the payload is queued; otherwise sent, queued on failure, then the queue is flushed |
| EmployeePage.EmployeeSheet.HandlePunchNow | src/pages/EmployeePage.tsx:448-468 | a refused punch changes nothing; otherwise the clock time is written into the target field of today's row, and the punch's payload is sent or queued exactly as `onChangeTime` does |
| EmployeePage.LeadingSuccessesIs | src/pages/EmployeePage.tsx:382-397 | the loop stops exactly at the first failed send |
| EmployeePage.WorkingFundHours | src/pages/EmployeePage.tsx:122-126 | never negative |
| EmployeePage.WorkingFundOfMonthText | src/pages/EmployeePage.tsx:122-126 | on a `YYYY-MM` text the fund is 8 hours per working day of that month |
| EmployeePage.WorkingFundWithoutMonth | src/pages/EmployeePage.tsx:122-126 | a text without `-` gives no month and a fund of 0 |
| MonthString.ParseMonth | src/pages/AdminPrintPreviewPage.tsx:26-33 | a month only for the `YYYY-MM` digit shape, with a year 0..9999 and a month 1..12 |
| MonthString.OfIndex | src/pages/AdminAttendanceSheetsPage.tsx:26-48 | the month at a position of the month count, January of year 0 being 0 |
| MonthString.OfIndexOfMonth | src/pages/AdminAttendanceSheetsPage.tsx:26-48 | every month is the month at its own position |
| MonthString.ParseMonthText | src/pages/AdminAttendanceSheetsPage.tsx:16-24 | `${year}-${pad2(month)}` for a four-digit year reads back as that month, trimmed or not |
| MonthString.MonthTextParts | src/pages/AdminAttendanceSheetsPage.tsx:16-24 | the written month has the shape and its digit groups give the year and month |
| MonthString.MonthTextOfParse | src/pages/AdminPrintPreviewPage.tsx:26-33 | a parsed month with a four-digit year is written back as the text it came from |
| MonthString.ParseYYYYMM | src/pages/AdminAttendanceSheetsPage.tsx:16-24 | `parseYYYYMM`; its properties are the ensures of `MonthString.ParseYYYYMMOfShape` |
| MonthString.ParseYYYYMMOfShape | src/pages/AdminAttendanceSheetsPage.tsx:16-24 | `parseYYYYMM` accepts what `parseMonth` accepts, with the same result |
| MonthString.ParseMonthDoesNotTrim | src/pages/AdminPrintPreviewPage.tsx:26-33 | a leading space is refused by `parseMonth` and trimmed away by `parseYYYYMM` |
| MonthString.SteppersKeepUnparsed | src/pages/AdminAttendanceSheetsPage.tsx:26-48 | an unparsable text is returned unchanged by both steppers |
| MonthString.MonthBeforeSteps | src/pages/AdminAttendanceSheetsPage.tsx:30-34 | one month back is one step down the month count; January goes to December of the year before |
| MonthString.MonthAfterSteps | src/pages/AdminAttendanceSheetsPage.tsx:42-46 | one month on is one step up the month count; December goes to January of the year after |
| MonthString.PrevMonth | src/pages/AdminAttendanceSheetsPage.tsx:26-36 | `prevMonth`; its properties are the ensures of `MonthString.PrevMonthSteps`, `MonthString.SteppersKeepUnparsed` and `MonthString.PrevAfterNext` |
| MonthString.NextMonth | src/pages/AdminAttendanceSheetsPage.tsx:38-48 | `nextMonth`; its properties are the ensures of `MonthString.NextMonthSteps`, `MonthString.SteppersKeepUnparsed` and `MonthString.NextAfterPrev` |
| MonthString.PrevMonthSteps | src/pages/AdminAttendanceSheetsPage.tsx:26-36 | `prevMonth` writes the month one step back |
| MonthString.NextMonthSteps | src/pages/AdminAttendanceSheetsPage.tsx:38-48 | `nextMonth` writes the month one step on |
| MonthString.SteppersRoundTrip | src/pages/AdminAttendanceSheetsPage.tsx:26-48 | inside the four-digit years, next after previous and previous after next give the month back |
| MonthString.SteppersWrap | src/pages/AdminAttendanceSheetsPage.tsx:26-48 | `2026-01` steps back to `2025-12` and that steps on to `2026-01` |
| AdminData.IdsOf | src/pages/AdminPrintsPage.tsx:60 | the ids of the rows, in order |
| AdminData.TokenFilter | src/pages/AdminAttendanceSheetsPage.tsx:181-185 | no tokens keeps the list; otherwise exactly the instances whose lower-cased name-and-id text holds every token |
| AdminData.TokenFilterConcat | src/pages/AdminAttendanceSheetsPage.tsx:181-185 | the search is a filter: it keeps the list's order |
| AttendanceSheetsPage.Filtered | src/pages/AdminAttendanceSheetsPage.tsx:174-186 | the sheet page's search; its properties are the ensures of `AttendanceSheetsPage.FilteredSpec` |
| AttendanceSheetsPage.FilteredSpec | src/pages/AdminAttendanceSheetsPage.tsx:174-186 | a blank query lists every instance; otherwise exactly those whose text holds every word of the query |
| AttendanceSheetsPage.CommitTime | src/pages/AdminAttendanceSheetsPage.tsx:236-261 | `commitTime` up to the upsert; its properties are the ensures of `AttendanceSheetsPage.CommitTimeNoOp` and `AttendanceSheetsPage.CommitTimeApplied` |
| AttendanceSheetsPage.CommitTimeNoOp | src/pages/AdminAttendanceSheetsPage.tsx:236-244 | nothing happens exactly without a selected instance, with an invalid time, or without the day on the sheet |
| AttendanceSheetsPage.CommitTimeApplied | src/pages/AdminAttendanceSheetsPage.tsx:242-261 | only that date's edited field changes, to the normalised value or `null`, and the body carries it with the row's other field |
| AttendanceSheetsPage.SavingAfter | src/pages/AdminAttendanceSheetsPage.tsx:263-278 | after the upsert the key is marked not saving and every other key is as before |
| AttendanceSheetsPage.ErrorsAfter | src/pages/AdminAttendanceSheetsPage.tsx:265-275 | the key's old error is dropped and the failure message, if any, recorded; other keys are untouched |
| AttendanceSheetsPage.WorkingFundHours | src/pages/AdminAttendanceSheetsPage.tsx:125-129 | the sheet page's `workingFundHours`; its properties are the ensures of `AttendanceSheetsPage.FundOfParsed` and `AttendanceSheetsPage.FundAgreesWithEmployeePage` |
| AttendanceSheetsPage.FundOfParsed | src/pages/AdminAttendanceSheetsPage.tsx:125-129 | the fund of a parsed month is 8 hours per working day |
| AttendanceSheetsPage.FundAgreesWithEmployeePage | src/pages/AdminAttendanceSheetsPage.tsx:125-129 | on a `YYYY-MM` text the admin sheet and the employee page report the same fund |
| AttendanceSheetsPage.EmployeeFundOfMonth | src/pages/EmployeePage.tsx:122-126 | the employee page's fund of a `YYYY-MM` text is 8 hours per working day |
| PrintPreviewPage.DocTypeOf | src/pages/AdminPrintPreviewPage.tsx:121 | the shift plan exactly for the parameter `plan`, the attendance sheet for anything else or nothing |
| PrintPreviewPage.TrimAll | src/pages/AdminPrintPreviewPage.tsx:126 | each piece trimmed, in order |
| PrintPreviewPage.IdList | src/pages/AdminPrintPreviewPage.tsx:123-127 | every id read is non-empty, trimmed and free of commas |
| PrintPreviewPage.TrimmedPiecesAreClean | src/pages/AdminPrintPreviewPage.tsx:124-127 | trimming comma-free pieces and dropping empty ones leaves clean ids |
| PrintPreviewPage.CommaJoinSplits | src/pages/AdminPrintPreviewPage.tsx:125 | splitting comma-joined clean ids at commas gives the ids back |
| PrintPreviewPage.IdListOfCleanPieces | src/pages/AdminPrintPreviewPage.tsx:124-127 | a parameter whose comma pieces are clean lists exactly those pieces |
| PrintPreviewPage.PlannedMinutes | src/pages/AdminPrintPreviewPage.tsx:42-49 | the plan's total of `plannedMinutes`; its properties are the ensures of `PrintPreviewPage.PlannedMinutesSpec` |
| PrintPreviewPage.PlannedMinutesSpec | src/pages/AdminPrintPreviewPage.tsx:42-49 | never negative; a day adds exactly its interval, nothing when a time is missing, unparsable or not later; the total equals the engine's worked total on a non-HPP template |
| PrintPreviewPage.DayList | src/pages/AdminPrintPreviewPage.tsx:51-60 | the loop lists each day of the month once, in order, as `YYYY-MM-DD` of the year `Date` uses |
| PrintPreviewPage.DayListStep | src/pages/AdminPrintPreviewPage.tsx:54-57 | while the month holds, the loop is on the next unlisted day and one `setDate` moves to the one after |
| PrintPreviewPage.FirstDays | src/pages/AdminPrintPreviewPage.tsx:55-56 | the texts of the first `n` days of the month |
| PrintPreviewPage.DayListDates | src/pages/AdminPrintPreviewPage.tsx:55 | for a four-digit year each listed day reads back as that real date |
| PrintPreviewPage.TimeLenAt | src/pages/AdminPrintPreviewPage.tsx:68 | a time `[0-2]?\d:[0-5]\d` at a place is 4 or 5 characters long, and the two lengths never both fit |
| PrintPreviewPage.MatchAt | src/pages/AdminPrintPreviewPage.tsx:68 | a match at a place starts with a digit and ends inside the text |
| PrintPreviewPage.NextMatch | src/pages/AdminPrintPreviewPage.tsx:71 | `exec` from `lastIndex` finds the leftmost match, and none when none remains |
| PrintPreviewPage.BreakWindowsOf | src/pages/AdminPrintPreviewPage.tsx:66-75 | at most two windows, none for a missing or empty tooltip |
| PrintPreviewPage.ParseBreakWindows | src/pages/AdminPrintPreviewPage.tsx:66-75 | the `exec` loop collects every match and keeps the first two |
| PrintPreviewPage.NextMatchSkips | src/pages/AdminPrintPreviewPage.tsx:71 | text without a match is skipped by the search |
| PrintPreviewPage.HHMMShape | src/utils/attendanceCalc.ts:46-50 | a minute of the day is written as `[0-2]\d:[0-5]\d` |
| PrintPreviewPage.MatchOfTimes | src/pages/AdminPrintPreviewPage.tsx:68 | two five-character times around an en dash are one whole match |
| PrintPreviewPage.MatchOfWindowText | src/pages/AdminPrintPreviewPage.tsx:68 | the tooltip text of a window is one whole match giving its two times |
| PrintPreviewPage.PrefixHasNoMatch | src/utils/attendanceCalc.ts:199 | no match starts in the tooltip's words before the first window |
| PrintPreviewPage.SeparatorHasNoMatch | src/utils/attendanceCalc.ts:199 | no match starts on the `, ` between windows |
| PrintPreviewPage.WindowTextsOf | src/pages/AdminPrintPreviewPage.tsx:72 | one pair of texts per window |
| PrintPreviewPage.WindowTextLength | src/utils/attendanceCalc.ts:196 | a window of the day is written in 11 characters |
| PrintPreviewPage.ScanWindow | src/pages/AdminPrintPreviewPage.tsx:71-73 | the scan finds a window's text and resumes right after it |
| PrintPreviewPage.ScanEnd | src/pages/AdminPrintPreviewPage.tsx:71 | the closing parenthesis ends the scan |
| PrintPreviewPage.TooltipOfOne | src/utils/attendanceCalc.ts:194-200 | the one-break tooltip is `Pauza 0:30 pauza (` + window + `)` |
| PrintPreviewPage.TooltipOfTwo | src/utils/attendanceCalc.ts:194-200 | the two-break tooltip is `Pauzy 1:00 pauza (` + window + `, ` + window + `)` |
| PrintPreviewPage.ReadOneWindow | src/pages/AdminPrintPreviewPage.tsx:66-75 | the scan of a one-break tooltip finds exactly its window |
| PrintPreviewPage.ReadTwoWindows | src/pages/AdminPrintPreviewPage.tsx:66-75 | the scan of a two-break tooltip finds exactly its two windows in order |
| PrintPreviewPage.ScanLastWindow | src/pages/AdminPrintPreviewPage.tsx:71-73 | the separator, the last window and `)` give one more match |
| PrintPreviewPage.TooltipRoundTrip | src/pages/AdminPrintPreviewPage.tsx:66-75 | reading back a tooltip of `breakTooltipFromWindows` recovers the start and end text of each of its one or two windows |
| PrintPreviewPage.BuildIntervals | src/pages/AdminPrintPreviewPage.tsx:79-102 | all six cells blank when both times are blank |
| PrintPreviewPage.HppRowCalc | src/utils/attendanceCalc.ts:237-248 | an HPP row's worked minutes are its interval less 30 per break, and its tooltip lists the breaks |
| PrintPreviewPage.HppRowIsHppDayCalc | src/utils/attendanceCalc.ts:202-255 | an HPP row with an interval takes the HPP path with its parsed times and calendar flags |
| PrintPreviewPage.PairOfMinutes | src/pages/AdminPrintPreviewPage.tsx:92-101 | a printed in/out pair spans the difference of its minutes |
| PrintPreviewPage.PairsSpan | src/pages/AdminPrintPreviewPage.tsx:79-102 | the printed pairs of an interval span it less 30 minutes per HPP break |
| PrintPreviewPage.PairsOfOneBreak | src/pages/AdminPrintPreviewPage.tsx:95-98 | with one break the two pairs span the interval less 30 |
| PrintPreviewPage.PairsOfTwoBreaks | src/pages/AdminPrintPreviewPage.tsx:100-101 | with two breaks the three pairs span the interval less 60 |
| PrintPreviewPage.PrintedIntervalsAddUp | src/pages/AdminPrintPreviewPage.tsx:79-102 | on an HPP day the printed pairs, built from the row's times and the engine's tooltip, span exactly the engine's worked minutes |
| PrintPreviewPage.PlanRowClass | src/pages/AdminPrintPreviewPage.tsx:353 | the plan sheet's row class; its properties are the ensures of `PrintPreviewPage.RowClassesAgree` |
| PrintPreviewPage.AttendanceRowClass | src/pages/AdminPrintPreviewPage.tsx:289 | the attendance sheet's row class; its properties are the ensures of `PrintPreviewPage.RowClassesAgree` |
| PrintPreviewPage.RowClassesAgree | src/pages/AdminPrintPreviewPage.tsx:289 | the attendance sheet colours a day as the plan sheet does: holiday, else weekend, else nothing |
| PrintPreviewPage.WorkingFundMinutes | src/pages/AdminPrintPreviewPage.tsx:255 | the sheets' working fund in minutes; its properties are the ensures of `PrintPreviewPage.WorkingFundInMinutes` |
| PrintPreviewPage.WorkingFundInMinutes | src/pages/AdminPrintPreviewPage.tsx:255 | for a valid month the fund in minutes is 60 times the admin sheet's fund in hours |
| PrintPreviewPage.MinutesOfParsed | src/pages/AdminPrintPreviewPage.tsx:255 | 480 minutes per working day of the parsed month |
| InstanceStore.LoadInitial | src/state/instanceStore.ts:68-92 | the stored texts are taken over with client type `WEB`; the fingerprint is the stored one, else the stored instance id when there is an id and no token, else a newly generated one |
| InstanceStore.ReloadRestores | src/state/instanceStore.ts:94-103 | loading what `persist` wrote gives the same identity back |
| InstanceStore.MigrationIsStable | src/state/instanceStore.ts:76-83 | an older record with an id and no token or fingerprint keeps the id as fingerprint, and a second load changes nothing |
| InstanceStore.WithFingerprint | src/state/instanceStore.ts:126-137 | a new fingerprint starts a new registration: id, token and name are dropped |
| InstanceStore.WithInstanceId | src/state/instanceStore.ts:139-148 | the id is set; a different id drops token and name, the same id changes nothing |
| InstanceStore.WithActiveToken | src/state/instanceStore.ts:150-154 | token and name are set, id and fingerprint kept |
| InstanceStore.TokenCleared | src/state/instanceStore.ts:156-160 | token and name are dropped, id and fingerprint kept |
| InstanceStore.ResetIdentity | src/state/instanceStore.ts:162-173 | everything forgotten except a newly generated fingerprint |
| InstanceStore.WithToken | src/state/instanceStore.ts:196-199 | the token is set and the cached name kept, a missing one becoming `""` |
| InstanceStore.WithDisplayName | src/state/instanceStore.ts:205-208 | the name is set and the token kept, a missing one becoming `""` |
| InstanceStore.GetOrCreate | src/state/instanceStore.ts:176-184 | a non-empty fingerprint is returned unchanged; otherwise the generated one is stored and returned |
| InstanceStore.TransitionsKeepSteady | src/state/instanceStore.ts:126-208 | every transition keeps a fingerprint and the `WEB` client type |
| InstanceStore.InstanceIdIdempotent | src/state/instanceStore.ts:139-148 | setting the same id twice is setting it once |
| InstanceStore.GetOrCreateStable | src/state/instanceStore.ts:176-184 | once created, the fingerprint is returned by every later call without change |
| InstanceStore.TokenAndNameCommute | src/state/instanceStore.ts:196-208 | storing a token and a name, in either order, is one `setActiveToken` with both |
| InstanceStore.NewRegistrationForgets | src/state/instanceStore.ts:126-160 | after a new registration, clearing the token or the id changes nothing |
| InstanceStore.Broadcast | src/state/instanceStore.ts:111-113 | every listener, in subscription order, gets the current state |
| InstanceStore.Store.constructor | src/state/instanceStore.ts:105-109 | the store starts from `loadInitial` and persists it, with no listeners |
| InstanceStore.Store.Emit | src/state/instanceStore.ts:111-113 | one delivery per listener of the current state |
| InstanceStore.Store.Commit | src/state/instanceStore.ts:135-136 | the state is persisted, then announced |
| InstanceStore.Store.Subscribe | src/state/instanceStore.ts:120-124 | the listener joins the set once and is called at once with the state |
| InstanceStore.Store.Unsubscribe | src/state/instanceStore.ts:123 | the listener leaves the set; the other listeners stay, in their subscription order |
| InstanceStore.Store.SetDeviceFingerprint | src/state/instanceStore.ts:126-137 | the state becomes the new registration, persisted and announced |
| InstanceStore.Store.SetInstanceId | src/state/instanceStore.ts:139-148 | the state becomes `WithInstanceId`, persisted and announced |
| InstanceStore.Store.SetActiveToken | src/state/instanceStore.ts:150-154 | the state becomes `WithActiveToken`, persisted and announced |
| InstanceStore.Store.ClearToken | src/state/instanceStore.ts:156-160 | the token and name are cleared, persisted and announced |
| InstanceStore.Store.ResetAll | src/state/instanceStore.ts:162-173 | the state is reset to the new fingerprint, persisted and announced |
| InstanceStore.Store.GetOrCreateDeviceFingerprint | src/state/instanceStore.ts:176-184 | the existing fingerprint is returned without persisting or announcing; otherwise the generated one is stored, persisted and announced |
| InstanceStore.Store.StartNewRegistration | src/state/instanceStore.ts:186-190 | the generated fingerprint is returned and starts a new registration |
| InstanceStore.Store.SetInstanceToken | src/state/instanceStore.ts:196-199 | the state becomes `WithToken`, persisted and announced |
| InstanceStore.Store.SetInstanceDisplayName | src/state/instanceStore.ts:205-208 | the state becomes `WithDisplayName`, persisted and announced |
| InstanceStore.StoreReloads | src/state/instanceStore.ts:94-109 | whatever the store went through, reloading from storage gives its current identity |
| Retry.IsRetryableError | src/api/client.ts:165-175 | an API error is retried exactly for 429 and statuses from 500 on; an abort never; any other failure always |
| Retry.ClientErrorsAreFinal | src/api/client.ts:165-175 | other 4xx statuses and aborts are final, rate limiting, server errors and network failures are retried |
| Retry.Retryable | src/api/client.ts:157 | a supplied `retryOn` replaces the default classifier |
| Retry.Pow2Monotone | src/api/client.ts:159 | powers of two do not shrink |
| Retry.Delay | src/api/client.ts:159 | the pause is the smaller of the cap and `baseDelayMs * 2^(attempt - 1)` |
| Retry.DelayMonotone | src/api/client.ts:159 | with a non-negative base, later pauses are never shorter |
| Retry.Delays | src/api/client.ts:149-163 | the pause after each failed attempt, in order |
| Retry.PausesNonDecreasing | src/api/client.ts:149-163 | the sleeps of one run never shrink and never exceed the cap |
| Retry.WithRetry | src/api/client.ts:149-163 | at least one call and at most `maxAttempts` (one when that is below 1); the result is the last call's outcome, and that call stops the loop: a success, a final error, or the last attempt; every earlier call failed with a retryable error; the pauses are the back-off sequence |
| AdminLoginPage.ParseNextParam | src/pages/AdminLoginPage.tsx:11-19 | the value is kept as it is, and refused exactly when missing, empty, not starting with `/` or starting with `//` |
| AdminLoginPage.NextPath | src/pages/AdminLoginPage.tsx:25 | the default admin page when `next` is refused |
| AdminLoginPage.NoOpenRedirect | src/pages/AdminLoginPage.tsx:11-25 | the target always starts with exactly one slash, and `next` is accepted exactly when it is such a path |
| ExportPage.MonthValid | src/pages/AdminExportPage.tsx:66 | `monthValid`; its properties are the ensures of `ExportPage.LinksEnabled` and `ExportPage.SteppingKeepsMonthValid` |
| ExportPage.BulkUrl | src/pages/AdminExportPage.tsx:52-56 | a bulk export of the month exactly as typed, with no instance id |
| ExportPage.InstanceUrl | src/pages/AdminExportPage.tsx:58-64 | a single-instance export of the month as typed, carrying the trimmed id |
| ExportPage.LinksEnabled | src/pages/AdminExportPage.tsx:52-66 | the bulk link exists exactly when the month is valid; the instance link exactly when, besides, the id is not blank; so the instance link implies the bulk link |
| ExportPage.SteppingKeepsMonthValid | src/pages/AdminExportPage.tsx:23-45 | stepping a valid month back or forward within four-digit years gives a valid month, and so a bulk link |
| InstancesPage.CollapseSpaces | src/pages/AdminInstancesPage.tsx:43 | no longer than the text, empty only for empty text, the first character kept, every whitespace a plain space and never two in a row |
| InstancesPage.CollapseTrimmedIsJoin | src/pages/AdminInstancesPage.tsx:41-43 | on trimmed text, collapsing the whitespace runs gives exactly the words of the text joined by single spaces |
| InstancesPage.NormDisplayName | src/pages/AdminInstancesPage.tsx:40-45 | `normDisplayName`; its properties are the ensures of `InstancesPage.NormDisplayNameSpec` |
| InstancesPage.NormDisplayNameSpec | src/pages/AdminInstancesPage.tsx:40-45 | the name is the first 120 characters of the input's words joined by single spaces; so at most 120 characters, no leading whitespace, single plain spaces between words, and empty exactly for a blank input |
| InstancesPage.PrefixKeepsSpacing | src/pages/AdminInstancesPage.tsx:44 | cutting to 120 keeps the spacing guarantees and the first character |
| InstancesPage.NameGuard | src/pages/AdminInstancesPage.tsx:274-280 | nothing happens without a selected instance; the missing-name error exactly for a blank name; otherwise the call carries the instance id and the normalised name, non-empty and at most 120 characters |
| InstancesPage.CountOf | src/pages/AdminInstancesPage.tsx:153 | a status count never exceeds the number of rows |
| InstancesPage.CountOfSnoc | src/pages/AdminInstancesPage.tsx:153 | one more row adds one to its own status's count only |
| InstancesPage.CountRows | src/pages/AdminInstancesPage.tsx:144-155 | the total is the number of rows, each status count is the number of rows with that status, and the four counts add up to the total |
| InstancesPage.QueryFiltered | src/pages/AdminInstancesPage.tsx:157-165 | `queryFiltered`; its properties are the ensures of `InstancesPage.QueryFilteredSpec` |
| InstancesPage.QueryFilteredSpec | src/pages/AdminInstancesPage.tsx:157-165 | a blank query keeps every row; otherwise a row is kept exactly when its text holds the trimmed lower-cased query; the search keeps list order |
| InstancesPage.Priority | src/pages/AdminInstancesPage.tsx:178-182 | active first, deactivated second, every other status last |
| InstancesPage.Insert | src/pages/AdminInstancesPage.tsx:177-186 | inserting into a sorted list keeps it sorted and adds exactly that row |
| InstancesPage.SortedTail | src/pages/AdminInstancesPage.tsx:177-186 | the tail of a sorted list is sorted and follows its head |
| InstancesPage.InsertBehind | src/pages/AdminInstancesPage.tsx:177-186 | a row that may precede the inserted row and the whole tail may precede their merge |
| InstancesPage.SortRows | src/pages/AdminInstancesPage.tsx:177-186 | the sort's result is ordered by the comparator and is a permutation of its input |
| InstancesPage.Pending | src/pages/AdminInstancesPage.tsx:167-171 | `pending`; its properties are the ensures of `InstancesPage.PendingSpec` and `InstancesPage.ListsPartitionSearch` |
| InstancesPage.Filtered | src/pages/AdminInstancesPage.tsx:173-187 | `filtered`; its properties are the ensures of `InstancesPage.FilteredSpec`, `InstancesPage.AllTabKeepsAll` and `InstancesPage.ListsPartitionSearch` |
| InstancesPage.PendingSpec | src/pages/AdminInstancesPage.tsx:167-171 | the pending list holds exactly the pending rows of the search, each as often, newest first |
| InstancesPage.FilteredSpec | src/pages/AdminInstancesPage.tsx:173-187 | the main list holds exactly the non-pending rows of the search that the status tab admits, ordered by priority, then newest first |
| InstancesPage.ListsPartitionSearch | src/pages/AdminInstancesPage.tsx:167-187 | with the "all" tab every row of the search is in exactly one of the two lists, as often as the search holds it |
| InstancesPage.AllTabKeepsAll | src/pages/AdminInstancesPage.tsx:173-187 | the "all" tab drops none of the non-pending rows |
| InstancesPage.IsMergeSelectable | src/pages/AdminInstancesPage.tsx:202-204 | `isMergeSelectable`; its properties are the ensures of `InstancesPage.MergeSelectableListed` |
| InstancesPage.MergeSelectableListed | src/pages/AdminInstancesPage.tsx:202-204 | a row whose box can be checked is never pending; the "all" and ACTIVE tabs list it and no other status tab does |
| InstancesPage.ToggleSelection | src/pages/AdminInstancesPage.tsx:206-213 | the id is selected exactly when its box is checked and no other id changes |
| InstancesPage.SelectedRows | src/pages/AdminInstancesPage.tsx:197-200 | exactly the rows whose id is selected |
| InstancesPage.DoMerge | src/pages/AdminInstancesPage.tsx:222-228 | nothing without a target; the no-source error exactly when every selected row is the target; otherwise the call carries the target and the non-empty list of exactly the other selected ids |
| InstancesPage.DoMergeConcat | src/pages/AdminInstancesPage.tsx:222-228 | the sources of two runs of selected rows are the first run's sources followed by the second's: the selection's order is kept |
| InstancesPage.DoMergeOne | src/pages/AdminInstancesPage.tsx:222-228 | one selected row other than the target is the one source |
| PrintsPage.Filtered | src/pages/AdminPrintsPage.tsx:43-53 | no tokens keeps every instance; otherwise an instance is kept exactly when its name-and-id text holds every token |
| PrintsPage.SameSearchAsSheets | src/pages/AdminPrintsPage.tsx:43-53 | this search gives the same list as the attendance-sheet page's search for the same query |
| PrintsPage.FilteredKeepsOrder | src/pages/AdminPrintsPage.tsx:49-52 | the search keeps list order |
| PrintsPage.Toggle | src/pages/AdminPrintsPage.tsx:55-57 | a selected id is removed and every other id stays; an unselected id is appended at the end |
| PrintsPage.ToggleOffKeepsOrder | src/pages/AdminPrintsPage.tsx:56 | removing an id keeps the other ids in their order |
| PrintsPage.ToggleTwice | src/pages/AdminPrintsPage.tsx:55-57 | toggling an id twice restores which ids are selected, and a selection without duplicates keeps none |
| PrintsPage.ToggleKeepsNoDuplicates | src/pages/AdminPrintsPage.tsx:55-57 | a selection without duplicates has none after a toggle |
| PrintsPage.SelectAll | src/pages/AdminPrintsPage.tsx:59-61 | exactly the ids of the listed instances, in list order |
| PrintsPage.ClearAll | src/pages/AdminPrintsPage.tsx:63-65 | `clearAll`; its properties are the ensures of `PrintsPage.SelectionSteps` |
| PrintsPage.SelectionSteps | src/pages/AdminPrintsPage.tsx:55-65 | after clearing, one toggle selects exactly that id; after selecting all, toggling a listed id unselects it |
| PrintsPage.OnSubmit | src/pages/AdminPrintsPage.tsx:67-73 | no link exactly when the month is empty or nothing is selected; the link carries the document type and month |
| PrintsPage.PreviewReadsLink | src/pages/AdminPrintsPage.tsx:67-73 | the preview page reads back the document type and, for clean ids, exactly the selected ids in order |
| PrintsPage.IdListOfJoin | src/pages/AdminPrintsPage.tsx:70 | comma-joined clean ids are read back as those ids |
| PrintPreviewPage.BuildIntervalsChains | src/pages/AdminPrintPreviewPage.tsx:79-102 | arrival opens the first pair, each break window closes one pair and opens the next, departure closes the last, and the remaining cells are blank |
| JsString.Trim | src/utils/timeInput.ts:2 | `trim` leaves no whitespace at either end and never lengthens the text; what it keeps is stated by `JsString.TrimIsSlice` |
| JsString.TrimIsSlice | src/utils/timeInput.ts:2 | `trim` keeps one contiguous slice of the text and cuts nothing but whitespace before and after it |
| JsString.TrimEmptyIffAllSpace | src/utils/timeInput.ts:2-3 | trimming gives `""` exactly for blank text |
| JsString.Pad2Small | src/utils/attendanceCalc.ts:28-30 | a number below 100 is written as exactly its two digits |
| JsString.NatToStringValue | src/utils/attendanceCalc.ts:29 | `String(n)` read back as digits is `n` |
| JsString.Words | src/pages/AdminPrintsPage.tsx:44-47 | every token of the split is non-empty and free of whitespace |
| JsString.WordsAllSpace | src/pages/AdminPrintsPage.tsx:44-48 | a query has no tokens exactly when it is blank |
| JsString.SplitOn | src/pages/AdminPrintPreviewPage.tsx:125 | at least one piece, the whole text when it holds no comma, and no piece holds a comma |
| JsString.SplitOfJoin | src/pages/AdminPrintPreviewPage.tsx:125 | splitting comma-free pieces joined by commas gives the pieces back |
| MonthString.NextAfterPrev | src/pages/AdminAttendanceSheetsPage.tsx:26-48 | inside the four-digit years, a step forward undoes a step back |
| MonthString.PrevAfterNext | src/pages/AdminAttendanceSheetsPage.tsx:26-48 | inside the four-digit years, a step back undoes a step forward |
| Holidays.JanuaryHolidays2026 | src/utils/attendanceCalc.ts:100-131 | New Year's Day is the only holiday in January 2026 |
| Holidays.JanuaryWeekday2026 | src/utils/attendanceCalc.ts:65 | 1 January 2026 is a Thursday, and the weekdays of the month follow from it |
| Holidays.JanuaryDay2026 | src/utils/attendanceCalc.ts:143-149 | a day of January 2026 counts exactly when it is not New Year's Day, a Saturday or a Sunday |
| Holidays.JanuaryPrefix2026 | src/utils/attendanceCalc.ts:143-150 | the counter after each day of January 2026 equals the hand count of working days so far |
| Holidays.JanuaryWorkingDays2026 | src/utils/attendanceCalc.ts:140-152 | January 2026 has 21 working days |

## Left out

- EmployeePage.PayloadNotLost and EmployeePage.FlushedKeepsLast hold only if each async handler (`onChangeTime`, `flushQueueIfPossible`) runs to completion before the next one starts, which is how `EmployeePage.EmployeeSheet` runs them. Under that assumption the `sending` guard (`src/pages/EmployeePage.tsx:374`) never refuses a flush, because `sending` is already false again when the next handler starts. The interleaving this hides: while a flush awaits `putAttendance` for `q[0]`, a failed online edit of the same date enqueues its payload and splices `q[0]` out; the flush's `q.shift()` (`src/pages/EmployeePage.tsx:393`) then removes whatever is now at the front of the queue. If `q[0]` was the only item, that is the new item, and the edit is lost. Otherwise it is the next queued item, which was never sent, and that item's edit is lost while the new item stays queued.
- HTTP transport, the API wrappers and the CSRF plumbing are not modelled. Every call's outcome is a parameter: a `bool` per `putAttendance`, and `call: nat -> Outcome` for `withRetry`.
- React rendering, hooks and effects are not modelled. Each page's state is passed in and handed back as values, except the two classes (`EmployeePage.EmployeeSheet`, `InstanceStore.Store`).
- Timers and `sleep` are not modelled. `withRetry` records the pauses it would sleep rather than waiting, and polling is left out.
- Clocks and randomness are parameters: the time of "punch now", the queue's `enqueuedAt`, and the freshly generated device fingerprint.
- The storage side of `localStorage` is left out: quota errors and JSON parsing failures. A save is a recorded snapshot, and a load starts from the fields of that snapshot.
- Listeners are modelled as identities (`nat`). Delivery is a recorded sequence of (listener, state) pairs, so a listener that calls back into the store is not modelled.
- `holidayCache` is not modelled. It only memoises, so each lookup recomputes the year's table.
- `Date` parsing of `created_at` is not modelled: a row's creation time is the parsed number, and an unparsable date (`NaN`) is not modelled.
- `Date` values in general are not modelled. The model uses day numbers of the proleptic Gregorian calendar in local time, with no time zones and no daylight saving.
- `Number` is applied only to digit groups of a regex match (`src/pages/AdminExportPage.tsx:16-17`, `src/pages/AdminAttendanceSheetsPage.tsx:19-20`), and is modelled as the value of those digits. Where `parseInt` reads the pieces of `month.split("-")` (`src/pages/EmployeePage.tsx:123`, `src/pages/EmployeePage.tsx:309`), no regex is in front of it; there `JsString.ParseIntText` models it: leading whitespace is skipped, then an optional sign and the longest run of digits are read, and text with no digits gives `NaN`, modelled as `None`. Floating-point precision is not modelled.
- Strings are sequences of UTF-16 code units. `slice(0, 120)` can split a surrogate pair, and the model's characters do not record that. `toLowerCase` is modelled for ASCII, Latin-1 and Latin Extended-A only.
- `URLSearchParams` and `encodeURIComponent` are not modelled. The login page's `next` is taken already decoded. The print link's `ids` are kept as the joined text, and the encoding is not modelled.
- The sorts in the instance list are modelled as a stable insertion sort. Stability is what `Array.prototype.sort` guarantees; the library's own algorithm is not modelled.
- Locale formatting is not modelled: weekday and month labels, `formatHours`, `clientTypeLabel` and `profileNameById`. These are display text only.
- PDF generation and page capture are not modelled.
- `detectClientType` is not modelled.
- `openMerge` is not modelled. It only opens the merge dialog with the first selected row as the target.
