/**
 * The enabling conditions of `src/pages/AdminExportPage.tsx`: the bulk
 * export link, the per-instance export link and the month check. The page's
 * `parseYYYYMM`, `prevMonth` and `nextMonth` are `MonthString`'s.
 */
module ExportPage {
  import opened Options
  import opened JsString
  import opened MonthString

  /** The query of `adminExportUrl`: the month, the instance id when one is
      given, and the bulk flag. */
  datatype ExportQuery = ExportQuery(month: string, instanceId: Option<string>, bulk: bool)

  /** `monthValid`. */
  predicate MonthValid(month: string)
  {
    ParseYYYYMM(month).Some?
  }

  /** `bulkUrl`: the bulk export of the month as typed, once it parses. */
  function BulkUrl(month: string): (r: Option<ExportQuery>)
    ensures r.Some? ==> r.value.bulk && r.value.instanceId.None? && r.value.month == month
  {
    if ParseYYYYMM(month).None? then None else Some(ExportQuery(month, None, true))
  }

  /** `instanceUrl`: the export of one instance, by its trimmed id, once the
      month parses and the id is not blank. */
  function InstanceUrl(month: string, instanceId: string): (r: Option<ExportQuery>)
    ensures r.Some? ==> !r.value.bulk && r.value.month == month
    ensures r.Some? ==> r.value.instanceId == Some(Trim(instanceId)) && Trimmed(Trim(instanceId))
  {
    if ParseYYYYMM(month).None? then None
    else
      var trimmed := Trim(instanceId);
      if trimmed == "" then None else Some(ExportQuery(month, Some(trimmed), false))
  }

  /** The bulk link is offered exactly when the month is valid; the
      instance link exactly when, besides, the id is not blank, that is,
      holds a character other than white space. */
  lemma LinksEnabled(month: string, instanceId: string)
    ensures BulkUrl(month).Some? <==> MonthValid(month)
    ensures InstanceUrl(month, instanceId).Some? <==> MonthValid(month) && !AllSpace(instanceId)
    ensures InstanceUrl(month, instanceId).Some? ==> BulkUrl(month).Some?
  {
    TrimEmptyIffAllSpace(instanceId);
  }

  /** The month buttons keep a valid month valid inside the four-digit
      years, and the month typed back after a step is the one stepped to. */
  lemma SteppingKeepsMonthValid(year: int, month: int)
    requires 1000 < year < 9999 && 1 <= month <= 12
    ensures MonthValid(PrevMonth(MonthText(year, month)))
    ensures MonthValid(NextMonth(MonthText(year, month)))
    ensures BulkUrl(PrevMonth(MonthText(year, month))).Some?
    ensures BulkUrl(NextMonth(MonthText(year, month))).Some?
  {
    var ym := YearMonth(year, month);
    ParseMonthText(year, month);
    var p, n := MonthBefore(ym), MonthAfter(ym);
    ParseMonthText(p.year, p.month);
    ParseMonthText(n.year, n.month);
  }
}
