/**
 * The print sheets of `src/pages/AdminPrintPreviewPage.tsx`: the planned
 * minutes of a shift plan, the days of the month, the break windows read
 * back out of the engine's tooltip, the three in/out pairs of an
 * attendance row, the row colouring and the working fund. The page's
 * `parseMonth` is `MonthString.ParseMonth`, and its `minutesFromHHMM` runs
 * the same regex as the engine's `parseTimeToMinutes`
 * (`TimeOfDay.ParseTimeToMinutes`).
 */
module PrintPreviewPage {
  import opened Options
  import opened JsString
  import opened Seqs
  import opened Calendar
  import opened TimeOfDay
  import opened Holidays
  import opened Breaks
  import opened DayCalc
  import opened MonthString
  import AttendanceSheetsPage

  // ------------------------------------------------------ query string

  datatype DocType = Attendance | Plan

  function DocTypeText(t: DocType): string
  {
    if t == Plan then "plan" else "attendance"
  }

  /** The `type` parameter: "plan" selects the shift plan, anything else,
      or nothing, the attendance sheet. */
  function DocTypeOf(param: Option<string>): (t: DocType)
    ensures t == Plan <==> param == Some("plan")
  {
    if param == Some("plan") then Plan else Attendance
  }

  function TrimAll(parts: seq<string>): (r: seq<string>)
    ensures |r| == |parts|
    ensures forall k :: 0 <= k < |parts| ==> r[k] == Trim(parts[k])
  {
    seq(|parts|, k requires 0 <= k < |parts| => Trim(parts[k]))
  }

  predicate NonEmpty(piece: string)
  {
    piece != ""
  }

  /** Ids as the preview reads them: non-empty, trimmed, without a comma. */
  predicate CleanIds(ids: seq<string>)
  {
    forall k :: 0 <= k < |ids| ==> ids[k] != "" && Trimmed(ids[k]) && ',' !in ids[k]
  }

  /** `idList`: the `ids` parameter split at commas, each piece trimmed,
      the empty pieces dropped. */
  function IdList(idsParam: Option<string>): (ids: seq<string>)
    ensures CleanIds(ids)
  {
    var parts := SplitOn(OrEmpty(idsParam), ',');
    TrimmedPiecesAreClean(parts);
    Filter(TrimAll(parts), NonEmpty)
  }

  /** Trimming comma-free pieces and dropping the empty ones leaves clean ids. */
  lemma TrimmedPiecesAreClean(parts: seq<string>)
    requires forall k :: 0 <= k < |parts| ==> ',' !in parts[k]
    ensures CleanIds(Filter(TrimAll(parts), NonEmpty))
  {
    var pieces := TrimAll(parts);
    var ids := Filter(pieces, NonEmpty);
    forall k | 0 <= k < |ids| ensures ids[k] != "" && Trimmed(ids[k]) && ',' !in ids[k] {
      assert ids[k] in ids;
      var j :| 0 <= j < |pieces| && pieces[j] == ids[k];
      TrimKeepsChars(parts[j]);
    }
  }

  lemma CommaJoinSplits(ids: seq<string>)
    requires ids != []
    requires CleanIds(ids)
    ensures SplitOn(Join(ids, ","), ',') == ids
  {
    SplitOfJoin(ids, ',');
  }

  /** A parameter whose comma-separated pieces are already non-empty and
      trimmed lists exactly those pieces. */
  lemma IdListOfCleanPieces(param: string, ids: seq<string>)
    requires SplitOn(param, ',') == ids
    requires CleanIds(ids)
    ensures IdList(Some(param)) == ids
  {
    var pieces := TrimAll(ids);
    forall k | 0 <= k < |ids| ensures pieces[k] == ids[k] {
      TrimOfTrimmed(ids[k]);
    }
    assert pieces == ids;
    FilterKeepsAll(ids, NonEmpty);
  }

  // ------------------------------------------------------ planned minutes

  /** `plannedMinutes`: `days.reduce` adding `d - a` for every day whose two
      times parse with the departure later. The reduction is the engine's
      `IntervalTotal` fold. */
  function PlannedMinutes(days: seq<AttendanceRow>): (n: int)
  {
    IntervalTotal(days)
  }

  /** The plan total is never negative, a day adds exactly its interval
      (nothing when a time is missing, unparsable or not later), and it is
      the total the engine reports for the same days on a non-HPP template. */
  lemma PlannedMinutesSpec(days: seq<AttendanceRow>, day: AttendanceRow, cutoffMinutes: int)
    ensures PlannedMinutes(days) >= 0
    ensures PlannedMinutes(days + [day]) == PlannedMinutes(days) +
      (if HasInterval(day) then ParseTimeToMinutes(day.departureTime).value - ParseTimeToMinutes(day.arrivalTime).value else 0)
    ensures PlannedMinutes(days) == MonthStatsOf(days, DPP_DPC, cutoffMinutes).totalMins
  {
    assert (days + [day])[..|days|] == days;
    MonthStatsAccount(days, DPP_DPC, cutoffMinutes);
  }

  // ------------------------------------------------------------ day list

  /** `dayList`: from `new Date(year, month - 1, 1)` step one day at a time
      while the month stays the same, writing each date as `YYYY-MM-DD`
      with `getFullYear()` (so a year `0..99` prints as `1900..1999`). The
      weekday label is locale formatting and is not modelled. */
  method DayList(year: int, month: int) returns (days: seq<string>)
    requires 0 <= year <= 9999 && 1 <= month <= 12
    ensures |days| == DaysInMonth(JsYear(year), month)
    ensures forall i :: 0 <= i < |days| ==> days[i] == IsoText(JsYear(year), month, i + 1)
  {
    var y := JsYear(year);
    var dim := DaysInMonth(y, month);
    days := [];
    var dt := Date(y, month, 1);
    while dt.month == month
      invariant AtDay(dt, y, month, |days|)
      invariant days == FirstDays(y, month, |days|)
      decreases dim - |days|
    {
      DayListStep(dt, y, month, |days|);
      days := days + [ToIso(dt)];
      dt := NextDay(dt);
    }
  }

  /** Where the day loop stands after `n` days: on day `n + 1` of the
      month, or past its last day once all of them are listed. */
  predicate AtDay(dt: Date, y: int, month: int, n: nat)
  {
    1 <= month <= 12 && ValidDate(dt)
    && n <= DaysInMonth(y, month)
    && (if dt.month == month then dt == Date(y, month, n + 1) else n == DaysInMonth(y, month))
  }

  /** One step of the day loop. */
  lemma DayListStep(dt: Date, y: int, month: int, n: nat)
    requires AtDay(dt, y, month, n) && dt.month == month
    ensures n < DaysInMonth(y, month)
    ensures ToIso(dt) == IsoText(y, month, n + 1)
    ensures AtDay(NextDay(dt), y, month, n + 1)
  {
    if dt.day < DaysInMonth(y, month) {
      NextDayInMonth(dt);
    }
  }

  /** The texts of the first `n` days of a month. */
  function FirstDays(y: int, month: int, n: nat): (days: seq<string>)
    ensures |days| == n
    ensures forall i :: 0 <= i < n ==> days[i] == IsoText(y, month, i + 1)
  {
    if n == 0 then [] else FirstDays(y, month, n - 1) + [IsoText(y, month, n)]
  }

  /** A listed day of a four-digit year reads back as that date. */
  lemma DayListDates(year: int, month: int, i: int)
    requires 1000 <= year <= 9999 && 1 <= month <= 12 && 1 <= i <= DaysInMonth(year, month)
    ensures JsYear(year) == year
    ensures IsoParts(IsoText(JsYear(year), month, i)) == Some(Date(year, month, i))
    ensures ValidDate(Date(year, month, i))
  {
    IsoRoundTrip(Date(year, month, i));
  }

  // ---------------------------------------------- break windows from text

  /** One window as the page reads it: the two time texts. */
  datatype Window = Window(start: string, end: string)

  /** A match of the window regex and the index just after it. */
  datatype Match = Match(window: Window, next: nat)

  const EnDash: char := '\U{2013}'

  /** `[0-2]\d:[0-5]\d` at `p`. */
  predicate LongTimeAt(s: string, p: nat)
  {
    p + 5 <= |s| && '0' <= s[p] <= '2' && IsDigit(s[p + 1]) && s[p + 2] == ':' && '0' <= s[p + 3] <= '5' && IsDigit(s[p + 4])
  }

  /** `\d:[0-5]\d` at `p`. */
  predicate ShortTimeAt(s: string, p: nat)
  {
    p + 4 <= |s| && IsDigit(s[p]) && s[p + 1] == ':' && '0' <= s[p + 2] <= '5' && IsDigit(s[p + 3])
  }

  /** The length of the time `[0-2]?\d:[0-5]\d` the regex matches at `p`
      (0 for none). The optional digit is tried first; the two shapes never
      both fit at one place, so backtracking finds no other match. */
  function TimeLenAt(s: string, p: nat): (n: nat)
    ensures n == 0 || n == 4 || n == 5
    ensures n > 0 ==> p + n <= |s| && IsDigit(s[p])
    ensures !(LongTimeAt(s, p) && ShortTimeAt(s, p))
  {
    if LongTimeAt(s, p) then 5 else if ShortTimeAt(s, p) then 4 else 0
  }

  /** `([0-2]?\d:[0-5]\d)–([0-2]?\d:[0-5]\d)` anchored at `p`. */
  function MatchAt(s: string, p: nat): (r: Option<Match>)
    ensures r.Some? ==> p < r.value.next <= |s| && IsDigit(s[p])
  {
    var t1 := TimeLenAt(s, p);
    if t1 == 0 then None
    else
      var q := p + t1;
      if q < |s| && s[q] == EnDash then
        var t2 := TimeLenAt(s, q + 1);
        if t2 == 0 then None
        else Some(Match(Window(s[p..q], s[q + 1..q + 1 + t2]), q + 1 + t2))
      else None
  }

  /** What `regex.exec` finds from `lastIndex = from`: the leftmost match. */
  function NextMatch(s: string, from: nat): (r: Option<nat>)
    ensures r.Some? ==> from <= r.value < |s| && MatchAt(s, r.value).Some?
    ensures r.Some? ==> forall p :: from <= p < r.value ==> MatchAt(s, p).None?
    ensures r.None? ==> forall p :: from <= p < |s| ==> MatchAt(s, p).None?
    decreases |s| - from
  {
    if from >= |s| then None
    else if MatchAt(s, from).Some? then Some(from)
    else NextMatch(s, from + 1)
  }

  /** Every match of the global regex from `from` on, in order. */
  function AllMatches(s: string, from: nat): seq<Window>
    decreases |s| - from
  {
    match NextMatch(s, from)
    case None => []
    case Some(p) => [MatchAt(s, p).value.window] + AllMatches(s, MatchAt(s, p).value.next)
  }

  /** What `parseBreakWindows` returns: nothing for a missing or empty
      tooltip, else the first two matches. */
  function BreakWindowsOf(tooltip: Option<string>): (ws: seq<Window>)
    ensures |ws| <= 2
    ensures !Filled(tooltip) ==> ws == []
  {
    if !Filled(tooltip) then []
    else
      var all := AllMatches(tooltip.value, 0);
      if |all| <= 2 then all else all[..2]
  }

  /** `parseBreakWindows`: run the global regex with `exec` until it finds
      nothing, then keep the first two. */
  method ParseBreakWindows(tooltip: Option<string>) returns (out: seq<Window>)
    ensures out == BreakWindowsOf(tooltip)
  {
    if !Filled(tooltip) {
      return [];
    }
    var s := tooltip.value;
    var found: seq<Window> := [];
    var lastIndex := 0;
    var m := NextMatch(s, lastIndex);
    while m.Some?
      invariant lastIndex <= |s|
      invariant m == NextMatch(s, lastIndex)
      invariant found + AllMatches(s, lastIndex) == AllMatches(s, 0)
      decreases |s| - lastIndex
    {
      var hit := MatchAt(s, m.value).value;
      assert AllMatches(s, lastIndex) == [hit.window] + AllMatches(s, hit.next);
      found := found + [hit.window];
      lastIndex := hit.next;
      m := NextMatch(s, lastIndex);
    }
    out := if |found| <= 2 then found else found[..2];
  }

  lemma {:induction false} NextMatchSkips(s: string, from: nat, upTo: nat)
    requires from <= upTo <= |s|
    requires forall p :: from <= p < upTo ==> MatchAt(s, p).None?
    ensures NextMatch(s, from) == NextMatch(s, upTo)
    decreases upTo - from
  {
    if from < upTo {
      NextMatchSkips(s, from + 1, upTo);
    }
  }

  /** `minutesToHHMM` of a minute of the day: `[0-2]\d:[0-5]\d`. */
  lemma HHMMShape(m: int)
    requires 0 <= m <= 1439
    ensures var t := MinutesToHHMM(m);
      |t| == 5 && '0' <= t[0] <= '2' && IsDigit(t[1]) && t[2] == ':' && '0' <= t[3] <= '5' && IsDigit(t[4])
  {
    HHMMRoundTrip(m);
    var t := MinutesToHHMM(m);
    assert HourText(t[..2]) && t[..2][0] == t[0] && t[..2][1] == t[1];
    assert MinuteText(t[3..]) && t[3..][0] == t[3] && t[3..][1] == t[4];
  }

  /** Two five-character times around an en dash are one whole match. */
  lemma MatchOfTimes(s: string, p: nat, a: string, b: string)
    requires |a| == 5 && '0' <= a[0] <= '2' && IsDigit(a[1]) && a[2] == ':' && '0' <= a[3] <= '5' && IsDigit(a[4])
    requires |b| == 5 && '0' <= b[0] <= '2' && IsDigit(b[1]) && b[2] == ':' && '0' <= b[3] <= '5' && IsDigit(b[4])
    requires p + 11 <= |s| && s[p..p + 5] == a && s[p + 5] == EnDash && s[p + 6..p + 11] == b
    ensures MatchAt(s, p) == Some(Match(Window(a, b), p + 11))
  {
    forall i | 0 <= i < 5 ensures s[p + i] == a[i] && s[p + 6 + i] == b[i] {
      assert s[p..p + 5][i] == s[p + i];
      assert s[p + 6..p + 11][i] == s[p + 6 + i];
    }
    assert LongTimeAt(s, p);
    assert LongTimeAt(s, p + 6);
  }

  /** The tooltip text of a window inside the day is one whole match. */
  lemma MatchOfWindowText(s: string, p: nat, w: BreakWindow)
    requires 0 <= w.start <= 1439 && 0 <= w.end <= 1439
    requires p + 11 <= |s| && s[p..p + 11] == WindowText(w)
    ensures MatchAt(s, p) == Some(Match(Window(MinutesToHHMM(w.start), MinutesToHHMM(w.end)), p + 11))
  {
    var a, b := MinutesToHHMM(w.start), MinutesToHHMM(w.end);
    HHMMShape(w.start);
    HHMMShape(w.end);
    var text := s[p..p + 11];
    assert text == a + "–" + b;
    assert text[..5] == a && text[5] == EnDash && text[6..] == b;
    assert s[p..p + 5] == text[..5];
    assert s[p + 6..p + 11] == text[6..];
    MatchOfTimes(s, p, a, b);
  }

  /** No match starts inside the text before the first window. */
  lemma PrefixHasNoMatch(s: string, h: string)
    requires h == "Pauza 0:30 pauza (" || h == "Pauzy 1:00 pauza ("
    requires |h| <= |s| && s[..|h|] == h
    ensures forall p :: 0 <= p < |h| ==> MatchAt(s, p).None?
  {
    assert forall i :: 0 <= i < |h| ==> s[i] == h[i];
    forall p | 0 <= p < |h| ensures MatchAt(s, p).None? {
      if p == 6 {
        assert !LongTimeAt(s, p);
        assert TimeLenAt(s, p) == 4 && s[10] != EnDash;
      } else if p == 8 || p == 9 {
        assert !LongTimeAt(s, p) && !ShortTimeAt(s, p);
      } else {
        assert !IsDigit(s[p]);
      }
    }
  }

  /** The separator `, ` between two windows holds no match. */
  lemma SeparatorHasNoMatch(s: string, p: nat)
    requires p + 2 <= |s| && s[p] == ',' && s[p + 1] == ' '
    ensures forall q :: p <= q < p + 2 ==> MatchAt(s, q).None?
  {
    assert MatchAt(s, p).None? && MatchAt(s, p + 1).None?;
    forall q | p <= q < p + 2 ensures MatchAt(s, q).None? {
      if q == p + 1 {
        assert MatchAt(s, q) == MatchAt(s, p + 1);
      }
    }
  }

  /** A window as the page reads it back: its two `HH:MM` texts. */
  function WindowOf(w: BreakWindow): Window
  {
    Window(MinutesToHHMM(w.start), MinutesToHHMM(w.end))
  }

  function WindowTextsOf(ws: seq<BreakWindow>): (r: seq<Window>)
    ensures |r| == |ws|
  {
    seq(|ws|, k requires 0 <= k < |ws| => WindowOf(ws[k]))
  }

  lemma WindowTextLength(w: BreakWindow)
    requires 0 <= w.start <= 1439 && 0 <= w.end <= 1439
    ensures |WindowText(w)| == 11
  {
    HHMMRoundTrip(w.start);
    HHMMRoundTrip(w.end);
  }

  /** Scanning from `from` over text without a match up to a window's text
      finds that window and goes on right after it. */
  lemma ScanWindow(s: string, from: nat, p: nat, w: BreakWindow)
    requires 0 <= w.start <= 1439 && 0 <= w.end <= 1439
    requires from <= p && p + 11 <= |s| && s[p..p + 11] == WindowText(w)
    requires forall q :: from <= q < p ==> MatchAt(s, q).None?
    ensures AllMatches(s, from) == [WindowOf(w)] + AllMatches(s, p + 11)
  {
    NextMatchSkips(s, from, p);
    MatchOfWindowText(s, p, w);
  }

  /** The closing parenthesis ends the scan. */
  lemma ScanEnd(s: string, p: nat)
    requires p + 1 == |s| && s[p] == ')'
    ensures AllMatches(s, p) == []
  {
    assert MatchAt(s, p).None?;
    assert NextMatch(s, p + 1).None?;
  }

  lemma TooltipOfOne(w: BreakWindow)
    ensures BreakTooltipFromWindows([w]) == "Pauza 0:30 pauza (" + WindowText(w) + ")"
  {
    var t := WindowText(w);
    TooltipLabel([w]);
    BreakLabel30();
    var lbl := BreakLabelFromMinutes(30);
    assert lbl[1..] == "0:30 pauza";
    assert WindowTexts([w]) == [t];
    assert Join([t], ", ") == t;
    PrefixTextOne();
  }

  lemma TooltipOfTwo(w1: BreakWindow, w2: BreakWindow)
    ensures BreakTooltipFromWindows([w1, w2]) == "Pauzy 1:00 pauza (" + (WindowText(w1) + ", " + WindowText(w2)) + ")"
  {
    var t1, t2 := WindowText(w1), WindowText(w2);
    TooltipLabel([w1, w2]);
    BreakLabel60();
    var lbl := BreakLabelFromMinutes(60);
    assert lbl[1..] == "1:00 pauza";
    assert WindowTexts([w1, w2]) == [t1, t2];
    JoinTwo(t1, t2);
    PrefixTextTwo();
  }

  lemma JoinTwo(t1: string, t2: string)
    ensures Join([t1, t2], ", ") == t1 + ", " + t2
  {
    assert [t1, t2][1..] == [t2];
  }

  lemma PrefixTextOne()
    ensures "Pauza" + " " + "0:30 pauza" + " (" == "Pauza 0:30 pauza ("
  {
    var l := "Pauza" + " " + "0:30 pauza" + " (";
    assert |l| == 18;
    assert forall i :: 0 <= i < 18 ==> l[i] == "Pauza 0:30 pauza ("[i];
  }

  lemma PrefixTextTwo()
    ensures "Pauzy" + " " + "1:00 pauza" + " (" == "Pauzy 1:00 pauza ("
  {
    var l := "Pauzy" + " " + "1:00 pauza" + " (";
    assert |l| == 18;
    assert forall i :: 0 <= i < 18 ==> l[i] == "Pauzy 1:00 pauza ("[i];
  }

  lemma Middle(a: string, b: string, c: string)
    ensures (a + b + c)[..|a|] == a && (a + b + c)[|a|..|a| + |b|] == b
  {
  }

  /** A slice that is three texts end to end holds each at its offset. */
  lemma Parts(s: string, p: nat, a: string, b: string, c: string)
    requires p + |a| + |b| + |c| <= |s| && s[p..p + |a| + |b| + |c|] == a + b + c
    ensures s[p..p + |a|] == a
    ensures forall i :: 0 <= i < |b| ==> s[p + |a| + i] == b[i]
    ensures s[p + |a| + |b|..p + |a| + |b| + |c|] == c
  {
    var t := s[p..p + |a| + |b| + |c|];
    assert s[p..p + |a|] == t[..|a|] && t[..|a|] == a;
    assert s[p + |a| + |b|..p + |a| + |b| + |c|] == t[|a| + |b|..] && t[|a| + |b|..] == c;
    forall i | 0 <= i < |b| ensures s[p + |a| + i] == b[i] {
      assert s[p + |a| + i] == t[|a| + i];
    }
  }

  lemma ReadOneWindow(w: BreakWindow)
    requires 0 <= w.start <= 1439 && 0 <= w.end <= 1439
    ensures AllMatches(BreakTooltipFromWindows([w]), 0) == [WindowOf(w)]
  {
    var h, t := "Pauza 0:30 pauza (", WindowText(w);
    TooltipOfOne(w);
    WindowTextLength(w);
    var s := h + t + ")";
    OneWindowLayout(s, h, t);
    PrefixHasNoMatch(s, h);
    ScanWindow(s, 0, 18, w);
    ScanEnd(s, 29);
  }

  /** Where the pieces of a one-window tooltip sit. */
  lemma OneWindowLayout(s: string, h: string, t: string)
    requires |h| == 18 && |t| == 11
    requires s == h + t + ")"
    ensures |s| == 30 && s[..18] == h && s[18..29] == t && s[29] == ')'
  {
    Middle(h, t, ")");
  }

  lemma ReadTwoWindows(w1: BreakWindow, w2: BreakWindow)
    requires 0 <= w1.start <= 1439 && 0 <= w1.end <= 1439
    requires 0 <= w2.start <= 1439 && 0 <= w2.end <= 1439
    ensures AllMatches(BreakTooltipFromWindows([w1, w2]), 0) == [WindowOf(w1), WindowOf(w2)]
  {
    TooltipOfTwo(w1, w2);
    ReadTwoWindowTexts("Pauzy 1:00 pauza (" + (WindowText(w1) + ", " + WindowText(w2)) + ")", w1, w2);
  }

  lemma ReadTwoWindowTexts(s: string, w1: BreakWindow, w2: BreakWindow)
    requires 0 <= w1.start <= 1439 && 0 <= w1.end <= 1439
    requires 0 <= w2.start <= 1439 && 0 <= w2.end <= 1439
    requires s == "Pauzy 1:00 pauza (" + (WindowText(w1) + ", " + WindowText(w2)) + ")"
    ensures AllMatches(s, 0) == [WindowOf(w1), WindowOf(w2)]
  {
    var h, t1, t2 := "Pauzy 1:00 pauza (", WindowText(w1), WindowText(w2);
    WindowTextLength(w1);
    WindowTextLength(w2);
    TwoWindowLayout(s, h, t1, t2);
    PrefixHasNoMatch(s, h);
    ScanWindow(s, 0, 18, w1);
    ScanLastWindow(s, 29, w2);
  }

  /** Where the pieces of a two-window tooltip sit. */
  lemma TwoWindowLayout(s: string, h: string, t1: string, t2: string)
    requires |h| == 18 && |t1| == 11 && |t2| == 11
    requires s == h + (t1 + ", " + t2) + ")"
    ensures |s| == 43 && s[..18] == h && s[18..29] == t1
    ensures s[29] == ',' && s[30] == ' ' && s[31..42] == t2 && s[42] == ')'
  {
    Middle(h, t1 + ", " + t2, ")");
    Parts(s, 18, t1, ", ", t2);
  }

  /** `, `, the last window and `)`: one more match. */
  lemma ScanLastWindow(s: string, p: nat, w: BreakWindow)
    requires 0 <= w.start <= 1439 && 0 <= w.end <= 1439
    requires p + 14 == |s| && s[p] == ',' && s[p + 1] == ' ' && s[p + 2..p + 13] == WindowText(w) && s[p + 13] == ')'
    ensures AllMatches(s, p) == [WindowOf(w)]
  {
    SeparatorHasNoMatch(s, p);
    ScanWindow(s, p, p + 2, w);
    ScanEnd(s, p + 13);
  }

  /** Reading a tooltip of `breakTooltipFromWindows` back recovers the
      `HH:MM` start and end of each of its (one or two) windows. */
  lemma TooltipRoundTrip(ws: seq<BreakWindow>)
    requires 1 <= |ws| <= 2
    requires forall k :: 0 <= k < |ws| ==> 0 <= ws[k].start <= 1439 && 0 <= ws[k].end <= 1439
    ensures BreakWindowsOf(Some(BreakTooltipFromWindows(ws))) == WindowTextsOf(ws)
  {
    if |ws| == 1 {
      assert ws == [ws[0]];
      ReadOneWindow(ws[0]);
    } else {
      assert ws == [ws[0], ws[1]];
      ReadTwoWindows(ws[0], ws[1]);
    }
    assert BreakTooltipFromWindows(ws) != "" by {
      assert |"Pauza"| == 5;
    }
  }

  // ----------------------------------------------------- in/out intervals

  /** `IntervalPairs`: the three arrival/departure pairs of a printed row. */
  datatype IntervalPairs = IntervalPairs(in1: string, out1: string, in2: string, out2: string, in3: string, out3: string)

  /** `buildIntervals`: the arrival, then each break window's start and end,
      then the departure, as consecutive in/out pairs; all blank when both
      times are blank. */
  function BuildIntervals(arrival: Option<string>, departure: Option<string>, breakTooltip: Option<string>): (r: IntervalPairs)
    ensures !Filled(arrival) && !Filled(departure) ==> r == IntervalPairs("", "", "", "", "", "")
  {
    var windows := BreakWindowsOf(breakTooltip);
    if !Filled(arrival) && !Filled(departure) then IntervalPairs("", "", "", "", "", "")
    else
      var a, d := OrEmpty(arrival), OrEmpty(departure);
      if |windows| == 0 then IntervalPairs(a, d, "", "", "", "")
      else if |windows| == 1 then IntervalPairs(a, windows[0].start, windows[0].end, d, "", "")
      else IntervalPairs(a, windows[0].start, windows[0].end, windows[1].start, windows[1].end, d)
  }

  /** The six cells of a printed row in reading order. */
  function Cells(p: IntervalPairs): (cells: seq<string>)
    ensures |cells| == 6
  {
    [p.in1, p.out1, p.in2, p.out2, p.in3, p.out3]
  }

  /** With a time present, the cells chain the arrival, each window's start
      and end in turn, and the departure, and the cells after it are blank. */
  lemma BuildIntervalsChains(arrival: Option<string>, departure: Option<string>, breakTooltip: Option<string>)
    requires Filled(arrival) || Filled(departure)
    ensures var ws, cells := BreakWindowsOf(breakTooltip), Cells(BuildIntervals(arrival, departure, breakTooltip));
      cells[0] == OrEmpty(arrival) && cells[2 * |ws| + 1] == OrEmpty(departure)
      && (forall k :: 0 <= k < |ws| ==> cells[2 * k + 1] == ws[k].start && cells[2 * k + 2] == ws[k].end)
      && (forall i :: 2 * |ws| + 1 < i < 6 ==> cells[i] == "")
  {
  }

  /** The minutes an in/out pair spans when both ends read as times. */
  function PairMinutes(i: string, o: string): int
  {
    var a, d := ParseTimeToMinutes(Some(i)), ParseTimeToMinutes(Some(o));
    if a.Some? && d.Some? then d.value - a.value else 0
  }

  function IntervalsMinutes(p: IntervalPairs): int
  {
    PairMinutes(p.in1, p.out1) + PairMinutes(p.in2, p.out2) + PairMinutes(p.in3, p.out3)
  }

  /** The HPP path as the printed row needs it: worked minutes are the
      interval less 30 per break, and the tooltip lists the breaks. */
  lemma HppRowCalc(row: AttendanceRow, cutoffMinutes: int)
    requires HasInterval(row)
    ensures var a, d := ParseTimeToMinutes(row.arrivalTime).value, ParseTimeToMinutes(row.departureTime).value;
      var c := ComputeDayCalc(row, HPP, cutoffMinutes);
      var breaks := ComputeHppBreaks(a, d);
      c.workedMins == Some(d - a - 30 * |breaks|)
      && c.breakTooltip == (if |breaks| != 0 then Some(BreakTooltipFromWindows(breaks)) else None)
  {
    var a := ParseTimeToMinutes(row.arrivalTime).value;
    var d := ParseTimeToMinutes(row.departureTime).value;
    var isWeekend := IsWeekendDate(row.date);
    var holidayName := GetCzechHolidayName(row.date);
    var isWeekendOrHoliday := isWeekend || (holidayName.Some? && holidayName.value != "");
    HppRowIsHppDayCalc(row, cutoffMinutes);
    HppFields(a, d, cutoffMinutes, isWeekend, holidayName, isWeekendOrHoliday);
  }

  lemma HppFields(a: int, d: int, cutoffMinutes: int, isWeekend: bool, holidayName: Option<string>, isWeekendOrHoliday: bool)
    requires a < d
    ensures var c := HppDayCalc(a, d, cutoffMinutes, isWeekend, holidayName, isWeekendOrHoliday);
      var breaks := ComputeHppBreaks(a, d);
      c.workedMins == Some(d - a - 30 * |breaks|)
      && c.breakTooltip == (if |breaks| != 0 then Some(BreakTooltipFromWindows(breaks)) else None)
  {
    HppSegments(a, d);
  }

  lemma HppRowIsHppDayCalc(row: AttendanceRow, cutoffMinutes: int)
    requires HasInterval(row)
    ensures var a, d := ParseTimeToMinutes(row.arrivalTime).value, ParseTimeToMinutes(row.departureTime).value;
      var isWeekend, holidayName := IsWeekendDate(row.date), GetCzechHolidayName(row.date);
      ComputeDayCalc(row, HPP, cutoffMinutes)
      == HppDayCalc(a, d, cutoffMinutes, isWeekend, holidayName, isWeekend || (holidayName.Some? && holidayName.value != ""))
  {
  }

  /** A pair of printed times spans their difference in minutes. */
  lemma PairOfMinutes(i: int, o: int)
    requires 0 <= i <= 1439 && 0 <= o <= 1439
    ensures PairMinutes(MinutesToHHMM(i), MinutesToHHMM(o)) == o - i
  {
    HHMMRoundTrip(i);
    HHMMRoundTrip(o);
  }

  lemma BlankPair()
    ensures PairMinutes("", "") == 0
  {
  }

  /** The printed pairs of an interval `a < d` of the day span the interval
      less 30 minutes per HPP break. */
  lemma PairsSpan(at: string, dt: string, a: int, d: int)
    requires ParseTimeToMinutes(Some(at)) == Some(a) && ParseTimeToMinutes(Some(dt)) == Some(d) && a < d
    ensures var breaks := ComputeHppBreaks(a, d);
      var tooltip := if |breaks| != 0 then Some(BreakTooltipFromWindows(breaks)) else None;
      IntervalsMinutes(BuildIntervals(Some(at), Some(dt), tooltip)) == d - a - 30 * |breaks|
  {
    var breaks := ComputeHppBreaks(a, d);
    assert at != "" && dt != "";
    BlankPair();
    if |breaks| == 0 {
      assert BuildIntervals(Some(at), Some(dt), None) == IntervalPairs(at, dt, "", "", "", "");
    } else if |breaks| == 1 {
      PairsOfOneBreak(at, dt, a, d, breaks);
    } else {
      PairsOfTwoBreaks(at, dt, a, d, breaks);
    }
  }

  lemma PairsOfOneBreak(at: string, dt: string, a: int, d: int, breaks: seq<BreakWindow>)
    requires ParseTimeToMinutes(Some(at)) == Some(a) && ParseTimeToMinutes(Some(dt)) == Some(d) && a < d
    requires breaks == ComputeHppBreaks(a, d) && |breaks| == 1
    ensures IntervalsMinutes(BuildIntervals(Some(at), Some(dt), Some(BreakTooltipFromWindows(breaks)))) == d - a - 30
  {
    var b1 := breaks[0];
    assert b1 in breaks;
    TooltipRoundTrip(breaks);
    assert at != "" && dt != "";
    var p := BuildIntervals(Some(at), Some(dt), Some(BreakTooltipFromWindows(breaks)));
    assert p == IntervalPairs(at, MinutesToHHMM(b1.start), MinutesToHHMM(b1.end), dt, "", "");
    HHMMRoundTrip(b1.start);
    HHMMRoundTrip(b1.end);
    BlankPair();
  }

  lemma PairsOfTwoBreaks(at: string, dt: string, a: int, d: int, breaks: seq<BreakWindow>)
    requires ParseTimeToMinutes(Some(at)) == Some(a) && ParseTimeToMinutes(Some(dt)) == Some(d) && a < d
    requires breaks == ComputeHppBreaks(a, d) && |breaks| == 2
    ensures IntervalsMinutes(BuildIntervals(Some(at), Some(dt), Some(BreakTooltipFromWindows(breaks)))) == d - a - 60
  {
    var b1, b2 := breaks[0], breaks[1];
    assert b1 in breaks && b2 in breaks;
    TooltipRoundTrip(breaks);
    assert at != "" && dt != "";
    var p := BuildIntervals(Some(at), Some(dt), Some(BreakTooltipFromWindows(breaks)));
    assert p == IntervalPairs(at, MinutesToHHMM(b1.start), MinutesToHHMM(b1.end),
                              MinutesToHHMM(b2.start), MinutesToHHMM(b2.end), dt);
    PairOfMinutes(b1.end, b2.start);
    HHMMRoundTrip(b1.start);
    HHMMRoundTrip(b2.end);
  }

  /** On an HPP day the printed pairs, built from the row's times and the
      engine's break tooltip, span exactly the minutes the engine counts as
      worked. */
  lemma PrintedIntervalsAddUp(row: AttendanceRow, cutoffMinutes: int)
    requires HasInterval(row)
    ensures var c := ComputeDayCalc(row, HPP, cutoffMinutes);
      c.workedMins.Some?
      && IntervalsMinutes(BuildIntervals(row.arrivalTime, row.departureTime, c.breakTooltip)) == c.workedMins.value
  {
    HppRowCalc(row, cutoffMinutes);
    PairsSpan(row.arrivalTime.value, row.departureTime.value,
      ParseTimeToMinutes(row.arrivalTime).value, ParseTimeToMinutes(row.departureTime).value);
  }

  // -------------------------------------------------------- row colouring

  /** The plan sheet's row class: a holiday, else a weekend day, else none. */
  function PlanRowClass(holidayName: Option<string>, weekend: bool): string
  {
    if Filled(holidayName) then "row-holiday" else if weekend then "row-weekend" else ""
  }

  /** The attendance sheet's row class, read off the computed day. */
  function AttendanceRowClass(c: DayComputed): string
  {
    if c.isWeekendOrHoliday then (if Filled(c.holidayName) then "row-holiday" else "row-weekend") else ""
  }

  /** Both sheets colour a day alike: "row-holiday" for a holiday,
      "row-weekend" for any other Saturday or Sunday, nothing otherwise. */
  lemma RowClassesAgree(row: AttendanceRow, template: Template, cutoffMinutes: int)
    ensures var c := ComputeDayCalc(row, template, cutoffMinutes);
      AttendanceRowClass(c) == PlanRowClass(GetCzechHolidayName(row.date), IsWeekendDate(row.date))
  {
  }

  // -------------------------------------------------------- working fund

  /** The sheets' working fund in minutes: 480 per working day of the
      parsed month, of January 1970 when the month does not parse. */
  function WorkingFundMinutes(month: string): int
  {
    var ym := match ParseMonth(month) case Some(v) => v case None => YearMonth(1970, 1);
    WorkingDaysOf(ym.year, ym.month) * 60 * 8
  }

  /** For a canonical month it is the admin sheet's working fund in hours,
      times 60. */
  lemma WorkingFundInMinutes(month: string)
    requires ParseMonth(month).Some?
    ensures WorkingFundMinutes(month) == 60 * AttendanceSheetsPage.WorkingFundHours(month)
  {
    var ym := ParseMonth(month).value;
    ParseYYYYMMOfShape(month, ym);
    AttendanceSheetsPage.FundOfParsed(month, ym);
    MinutesOfParsed(month, ym);
    Scale(WorkingDaysOf(ym.year, ym.month));
  }

  lemma Scale(n: int)
    ensures n * 60 * 8 == 60 * (n * 8)
  {
  }

  lemma MinutesOfParsed(month: string, ym: YearMonth)
    requires ParseMonth(month) == Some(ym)
    ensures WorkingFundMinutes(month) == WorkingDaysOf(ym.year, ym.month) * 60 * 8
  {
  }
}
