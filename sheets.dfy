/**
 * The admin attendance sheets, `src/pages/AdminAttendanceSheetsPage.tsx`:
 * the instance search, the edit of one time (`commitTime`) with its
 * optimistic update, its upsert body and its per-field saving and error
 * marks, and the month's working fund. The page's month texts are
 * `MonthString` and its copy of the time normaliser is `TimeInput`'s page
 * copy.
 */
module AttendanceSheetsPage {
  import opened Options
  import opened JsString
  import opened Holidays
  import opened TimeInput
  import opened DayCalc
  import opened DayRows
  import opened AdminData
  import opened MonthString
  import EmployeePage

  /** The search tokens: `query.trim().toLowerCase().split(/\s+/).filter(Boolean)`. */
  function SearchTokens(query: string): seq<string>
  {
    Words(Lower(Trim(query)))
  }

  /** `filtered`: the instances (none while they load) matched against the
      query's tokens. */
  function Filtered(instances: Option<seq<AdminInstance>>, query: string): seq<AdminInstance>
  {
    TokenFilter(if instances.Some? then instances.value else [], SearchTokens(query))
  }

  /** A blank query lists every instance; otherwise exactly the instances
      whose lower-cased "display_name id" contains every token stay. */
  lemma FilteredSpec(list: seq<AdminInstance>, query: string)
    ensures AllSpace(query) ==> Filtered(Some(list), query) == list
    ensures forall it :: it in Filtered(Some(list), query) <==>
      it in list && ContainsAll(NameIdHay(it), Words(Lower(query)))
  {
    WordsOfLowerTrim(query);
    if AllSpace(query) {
      TrimEmptyIffAllSpace(query);
    }
  }

  // ---------------------------------------------------------- commitTime

  /** The body of `adminUpsertAttendance`. */
  datatype UpsertBody = UpsertBody(instanceId: string, date: string, arrivalTime: Option<string>, departureTime: Option<string>)

  function FieldName(field: TimeField): string
  {
    if field == ArrivalTime then "arrival_time" else "departure_time"
  }

  /** What `commitTime` does before the upsert: nothing, or the new days,
      the upsert body and the `date:field` key of the edit. */
  datatype Commit = NoCommit | Commit(days: seq<DayRow>, body: UpsertBody, key: string)

  function CommitTime(selected: Option<AdminInstance>, days: Option<seq<DayRow>>, date: string,
                      field: TimeField, rawValue: string): Commit
  {
    if selected.None? then NoCommit
    else
      var normalized := PageNormalizeTime(rawValue);
      if !PageIsValidTimeOrEmpty(normalized) || days.None? then NoCommit
      else match FindRow(days.value, date)
        case None => NoCommit
        case Some(row) =>
          var next := StoredValue(normalized);
          Commit(SetTime(days.value, date, field, next),
                 UpsertBody(selected.value.id, date,
                            if field == ArrivalTime then next else row.arrivalTime,
                            if field == DepartureTime then next else row.departureTime),
                 date + ":" + FieldName(field))
  }

  /** `commitTime` does nothing exactly when no instance is selected, the
      input is not a valid time, or the day is not on the sheet. */
  lemma CommitTimeNoOp(selected: Option<AdminInstance>, days: Option<seq<DayRow>>, date: string,
                       field: TimeField, rawValue: string)
    ensures CommitTime(selected, days, date, field, rawValue).NoCommit? <==>
      selected.None? || !IsValidTimeOrEmpty(rawValue) || days.None? || FindRow(days.value, date).None?
  {
    var normalized := PageNormalizeTime(rawValue);
    PageCopiesAgree(rawValue);
    PageCopiesAgree(normalized);
    NormalizeIdempotent(rawValue);
  }

  /** Otherwise only that date's edited field changes, to the normalised
      value or `null`, and the body carries it with the row's other field. */
  lemma CommitTimeApplied(inst: AdminInstance, days: seq<DayRow>, date: string, field: TimeField, rawValue: string)
    requires IsValidTimeOrEmpty(rawValue) && FindRow(days, date).Some?
    ensures var c := CommitTime(Some(inst), Some(days), date, field, rawValue);
      var v := StoredValue(NormalizeTime(rawValue));
      var row := FindRow(days, date).value;
      c.Commit? && c.days == SetTime(days, date, field, v)
      && c.body.instanceId == inst.id && c.body.date == date
      && FieldOf(AttendanceRow(date, c.body.arrivalTime, c.body.departureTime), field) == v
      && FieldOf(AttendanceRow(date, c.body.arrivalTime, c.body.departureTime), OtherField(field)) == FieldOf(row, OtherField(field))
  {
    CommitTimeNoOp(Some(inst), Some(days), date, field, rawValue);
    PageCopiesAgree(rawValue);
  }

  /** `savingByKey` once the upsert has settled: the key is no longer saving. */
  function SavingAfter(saving: map<string, bool>, key: string): (m: map<string, bool>)
    ensures key in m && !m[key]
    ensures forall k :: k in saving && k != key ==> k in m && m[k] == saving[k]
    ensures forall k :: k in m ==> k == key || k in saving
  {
    saving[key := false]
  }

  /** `errorByKey` once the upsert has settled: the key's old error is
      dropped and the failure message, if any, recorded. */
  function ErrorsAfter(errors: map<string, string>, key: string, failure: Option<string>): (m: map<string, string>)
    ensures key in m <==> failure.Some?
    ensures failure.Some? ==> m[key] == failure.value
    ensures forall k :: k != key ==> (k in m <==> k in errors) && (k in m ==> m[k] == errors[k])
  {
    if failure.Some? then (errors - {key})[key := failure.value] else errors - {key}
  }

  // -------------------------------------------------------- working fund

  /** `workingFundHours`: 8 hours per working day of the parsed month, 0 for
      a month text that does not parse. */
  function WorkingFundHours(month: string): (h: nat)
  {
    match ParseYYYYMM(month)
    case None => 0
    case Some(ym) => WorkingDaysOf(ym.year, ym.month) * 8
  }

  lemma FundOfParsed(month: string, ym: YearMonth)
    requires ParseYYYYMM(month) == Some(ym)
    ensures WorkingFundHours(month) == WorkingDaysOf(ym.year, ym.month) * 8
  {
  }

  /** On a canonical `YYYY-MM` text the admin sheet and the employee page
      report the same working fund. */
  lemma FundAgreesWithEmployeePage(month: string)
    requires ParseMonth(month).Some?
    ensures WorkingFundHours(month) == EmployeePage.WorkingFundHours(month)
    ensures WorkingFundHours(month) == 8 * WorkingDaysOf(ParseMonth(month).value.year, ParseMonth(month).value.month)
  {
    var ym := ParseMonth(month).value;
    ParseYYYYMMOfShape(month, ym);
    FundOfParsed(month, ym);
    EmployeeFundOfMonth(month, ym);
  }

  lemma EmployeeFundOfMonth(month: string, ym: YearMonth)
    requires ParseMonth(month) == Some(ym)
    ensures EmployeePage.WorkingFundHours(month) == 8 * WorkingDaysOf(ym.year, ym.month)
  {
    assert MonthShape(month);
    EmployeePage.WorkingFundOfMonthText(month);
  }
}
