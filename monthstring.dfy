/**
 * The `YYYY-MM` month strings of the admin pages: `parseYYYYMM`,
 * `prevMonth` and `nextMonth` (the same text in
 * `src/pages/AdminAttendanceSheetsPage.tsx` and
 * `src/pages/AdminExportPage.tsx`) and `parseMonth` of
 * `src/pages/AdminPrintPreviewPage.tsx`, which reads the same shape without
 * trimming first.
 */
module MonthString {
  import opened Options
  import opened JsString

  datatype YearMonth = YearMonth(year: int, month: int)

  /** `/^([0-9]{4})-([0-9]{2})$/`. */
  predicate MonthShape(v: string)
  {
    |v| == 7 && AllDigits(v[..4]) && v[4] == '-' && AllDigits(v[5..])
  }

  /** `parseMonth`: the shape, with the month in `1..12`; `Number` of the
      two digit groups. */
  function ParseMonth(v: string): (r: Option<YearMonth>)
    ensures r.Some? ==> MonthShape(v) && 0 <= r.value.year <= 9999 && 1 <= r.value.month <= 12
  {
    if MonthShape(v) && 1 <= DigitsValue(v[5..]) <= 12 then
      Some(YearMonth(DigitsValue(v[..4]), DigitsValue(v[5..])))
    else None
  }

  /** `parseYYYYMM`: `parseMonth` of the trimmed text. */
  function ParseYYYYMM(s: string): Option<YearMonth>
  {
    ParseMonth(Trim(s))
  }

  /** `${year}-${pad2(month)}`. */
  function MonthText(year: int, month: int): string
  {
    IntToString(year) + "-" + Pad2(month)
  }

  /** `prevMonth`: an unparsable text is returned as it is. */
  function PrevMonth(s: string): string
  {
    match ParseYYYYMM(s)
    case None => s
    case Some(ym) => var p := MonthBefore(ym); MonthText(p.year, p.month)
  }

  /** `nextMonth`: an unparsable text is returned as it is. */
  function NextMonth(s: string): string
  {
    match ParseYYYYMM(s)
    case None => s
    case Some(ym) => var n := MonthAfter(ym); MonthText(n.year, n.month)
  }

  /** The arithmetic of `prevMonth`: one month back, January wrapping to
      December of the year before. */
  function MonthBefore(ym: YearMonth): YearMonth
  {
    if ym.month - 1 < 1 then YearMonth(ym.year - 1, 12) else YearMonth(ym.year, ym.month - 1)
  }

  /** The arithmetic of `nextMonth`. */
  function MonthAfter(ym: YearMonth): YearMonth
  {
    if ym.month + 1 > 12 then YearMonth(ym.year + 1, 1) else YearMonth(ym.year, ym.month + 1)
  }

  // ------------------------------------------------- months as one count

  /** The months counted from January of year 0, the reference the two
      steppers are measured against. */
  function MonthIndex(ym: YearMonth): int
  {
    ym.year * 12 + (ym.month - 1)
  }

  function OfIndex(k: int): (ym: YearMonth)
    ensures 1 <= ym.month <= 12 && MonthIndex(ym) == k
  {
    YearMonth(k / 12, k % 12 + 1)
  }

  lemma OfIndexOfMonth(ym: YearMonth)
    requires 1 <= ym.month <= 12
    ensures OfIndex(MonthIndex(ym)) == ym
  {
    var k := MonthIndex(ym);
    assert k / 12 == ym.year && k % 12 == ym.month - 1;
  }

  // ------------------------------------------------------- round trips

  /** A month written with a four-digit year reads back as that month. */
  lemma ParseMonthText(year: int, month: int)
    requires 1000 <= year <= 9999 && 1 <= month <= 12
    ensures Trimmed(MonthText(year, month))
    ensures ParseMonth(MonthText(year, month)) == Some(YearMonth(year, month))
    ensures ParseYYYYMM(MonthText(year, month)) == Some(YearMonth(year, month))
  {
    var v := MonthText(year, month);
    MonthTextParts(year, month);
    assert IsDigit(v[0]) && IsDigit(v[6]);
    DigitEndsTrimmed(v);
  }

  lemma MonthTextParts(year: int, month: int)
    requires 1000 <= year <= 9999 && 1 <= month <= 12
    ensures MonthShape(MonthText(year, month))
    ensures DigitsValue(MonthText(year, month)[..4]) == year
    ensures DigitsValue(MonthText(year, month)[5..]) == month
  {
    var y, m := IntToString(year), Pad2(month);
    FourDigitYear(year);
    Pad2Small(month);
    var v := MonthText(year, month);
    assert v[..4] == y && v[5..] == m && v[4] == '-';
  }

  /** A parsed month whose year has no leading zero is the text it came
      from. */
  lemma MonthTextOfParse(v: string)
    requires ParseMonth(v).Some? && ParseMonth(v).value.year >= 1000
    ensures MonthText(ParseMonth(v).value.year, ParseMonth(v).value.month) == v
  {
    var y, m := v[..4], v[5..];
    DigitsValue4(y);
    assert y[0] != '0';
    NatToStringOfDigits(y);
    Pad2OfDigits(m);
    assert v == y + "-" + m;
  }

  /** What `parseMonth` accepts, `parseYYYYMM` reads the same way. */
  lemma ParseYYYYMMOfShape(v: string, ym: YearMonth)
    requires ParseMonth(v) == Some(ym)
    ensures ParseYYYYMM(v) == Some(ym)
  {
    assert IsDigit(v[0]) && IsDigit(v[6]);
    DigitEndsTrimmed(v);
  }

  /** `parseYYYYMM` trims and `parseMonth` does not: a leading space is
      refused by the second only. */
  lemma ParseMonthDoesNotTrim(v: string, ym: YearMonth)
    requires ParseMonth(v) == Some(ym)
    ensures ParseMonth(" " + v).None?
    ensures ParseYYYYMM(" " + v) == Some(ym)
  {
    LeadingSpaceTrimmed(v, ym);
    LeadingSpaceRefused(v);
  }

  lemma LeadingSpaceTrimmed(v: string, ym: YearMonth)
    requires ParseMonth(v) == Some(ym)
    ensures ParseYYYYMM(" " + v) == Some(ym)
  {
    ParseYYYYMMOfShape(v, ym);
    SpaceIsSpace();
    TrimLeadingSpace(' ', v);
    assert " " + v == [' '] + v;
  }

  lemma SpaceIsSpace()
    ensures IsSpace(' ')
  {
  }

  lemma LeadingSpaceRefused(v: string)
    ensures ParseMonth(" " + v).None? || ParseMonth(v).None?
  {
    assert |" " + v| == |v| + 1;
  }

  // ----------------------------------------------------------- steppers

  /** An unparsable text is left as it is by both steppers. */
  lemma SteppersKeepUnparsed(s: string)
    requires ParseYYYYMM(s).None?
    ensures PrevMonth(s) == s && NextMonth(s) == s
  {
  }

  /** One month back is one step down the month count; a January goes to
      December of the year before. */
  lemma MonthBeforeSteps(ym: YearMonth)
    requires 1 <= ym.month <= 12
    ensures MonthBefore(ym) == OfIndex(MonthIndex(ym) - 1)
    ensures ym.month == 1 ==> MonthBefore(ym) == YearMonth(ym.year - 1, 12)
  {
    var k := MonthIndex(ym) - 1;
    if ym.month == 1 {
      assert k / 12 == ym.year - 1 && k % 12 == 11;
    } else {
      assert k / 12 == ym.year && k % 12 == ym.month - 2;
    }
  }

  /** One month on is one step up the month count; a December goes to
      January of the year after. */
  lemma MonthAfterSteps(ym: YearMonth)
    requires 1 <= ym.month <= 12
    ensures MonthAfter(ym) == OfIndex(MonthIndex(ym) + 1)
    ensures ym.month == 12 ==> MonthAfter(ym) == YearMonth(ym.year + 1, 1)
  {
    var k := MonthIndex(ym) + 1;
    if ym.month == 12 {
      assert k / 12 == ym.year + 1 && k % 12 == 0;
    } else {
      assert k / 12 == ym.year && k % 12 == ym.month;
    }
  }

  /** `prevMonth` writes the month one step back in the month count. */
  lemma PrevMonthSteps(s: string, ym: YearMonth)
    requires ParseYYYYMM(s) == Some(ym)
    ensures var p := OfIndex(MonthIndex(ym) - 1); PrevMonth(s) == MonthText(p.year, p.month)
  {
    MonthBeforeSteps(ym);
  }

  /** `nextMonth` writes the month one step on in the month count. */
  lemma NextMonthSteps(s: string, ym: YearMonth)
    requires ParseYYYYMM(s) == Some(ym)
    ensures var n := OfIndex(MonthIndex(ym) + 1); NextMonth(s) == MonthText(n.year, n.month)
  {
    MonthAfterSteps(ym);
  }

  /** On a canonical month strictly inside the four-digit years, the two
      steppers undo each other. */
  lemma SteppersRoundTrip(year: int, month: int)
    requires 1000 < year < 9999 && 1 <= month <= 12
    ensures NextMonth(PrevMonth(MonthText(year, month))) == MonthText(year, month)
    ensures PrevMonth(NextMonth(MonthText(year, month))) == MonthText(year, month)
  {
    NextAfterPrev(year, month);
    PrevAfterNext(year, month);
  }

  lemma NextAfterPrev(year: int, month: int)
    requires 1000 < year < 9999 && 1 <= month <= 12
    ensures NextMonth(PrevMonth(MonthText(year, month))) == MonthText(year, month)
  {
    var ym := YearMonth(year, month);
    ParseMonthText(year, month);
    var p := MonthBefore(ym);
    ParseMonthText(p.year, p.month);
    MonthBeforeSteps(ym);
    MonthAfterSteps(p);
    OfIndexOfMonth(ym);
  }

  lemma PrevAfterNext(year: int, month: int)
    requires 1000 < year < 9999 && 1 <= month <= 12
    ensures PrevMonth(NextMonth(MonthText(year, month))) == MonthText(year, month)
  {
    var ym := YearMonth(year, month);
    ParseMonthText(year, month);
    var n := MonthAfter(ym);
    ParseMonthText(n.year, n.month);
    MonthAfterSteps(ym);
    MonthBeforeSteps(n);
    OfIndexOfMonth(ym);
  }

  /** January steps back across the year, December steps on across it. */
  lemma SteppersWrap(jan: string, dec: string)
    requires jan == "2026-01" && dec == "2025-12"
    ensures PrevMonth(jan) == dec && NextMonth(dec) == jan
  {
    WrapTexts();
    ParseMonthText(2026, 1);
    ParseMonthText(2025, 12);
  }

  lemma WrapTexts()
    ensures MonthText(2026, 1) == "2026-01" && MonthText(2025, 12) == "2025-12"
  {
    assert NatToString(2026) == "2026" by {
      assert NatToString(202) == "202" by { assert NatToString(20) == "20"; }
    }
    assert NatToString(2025) == "2025" by {
      assert NatToString(202) == "202" by { assert NatToString(20) == "20"; }
    }
    assert Pad2(12) == "12" by { assert NatToString(12) == "12"; }
  }
}
