/**
 * Minute-of-day text of `src/utils/attendanceCalc.ts`: reading `H:MM` /
 * `HH:MM` into minutes since midnight, the afternoon cutoff with its
 * fallbacks, and writing minutes back as `HH:MM`.
 */
module TimeOfDay {
  import opened Options
  import opened JsString

  /** JavaScript's `a % b` for `b > 0`: the remainder truncated toward zero,
      negative for a negative `a`. */
  function JsRem(a: int, b: int): (r: int)
    requires b > 0
    ensures a >= 0 ==> r == a % b
    ensures -b < r < b
  {
    if a >= 0 then a % b else 0 - ((0 - a) % b)
  }

  /** The hour group `[0-1]?\d|2[0-3]` of the clock regex. */
  predicate HourText(h: string)
  {
    (|h| == 1 && IsDigit(h[0]))
    || (|h| == 2 && (('0' <= h[0] <= '1' && IsDigit(h[1])) || (h[0] == '2' && '0' <= h[1] <= '3')))
  }

  /** The minute group `[0-5]\d` of the clock regex. */
  predicate MinuteText(m: string)
  {
    |m| == 2 && '0' <= m[0] <= '5' && IsDigit(m[1])
  }

  /** The whole regex `^([0-1]?\d|2[0-3]):([0-5]\d)$`: the minute group is
      the last two characters, so the colon sits three from the end. */
  predicate ClockText(s: string)
  {
    |s| >= 4 && s[|s| - 3] == ':' && HourText(s[..|s| - 3]) && MinuteText(s[|s| - 2..])
  }

  lemma HourTextValue(h: string)
    requires HourText(h)
    ensures AllDigits(h) && DigitsValue(h) <= 23
  {
    if |h| == 2 { DigitsValue2(h); }
    else { assert h[..0] == []; }
  }

  lemma MinuteTextValue(m: string)
    requires MinuteText(m)
    ensures AllDigits(m) && DigitsValue(m) <= 59
  {
    DigitsValue2(m);
  }

  /** `parseTimeToMinutes`: `null` and `""` give nothing, as does text the
      clock regex rejects; otherwise hour * 60 + minute. */
  function ParseTimeToMinutes(hhmm: Option<string>): (r: Option<int>)
    ensures r.Some? <==> hhmm.Some? && ClockText(hhmm.value)
    ensures r.Some? ==> 0 <= r.value <= 1439
  {
    match hhmm
    case None => None
    case Some(s) =>
      if s == "" || !ClockText(s) then None
      else
        var h, m := s[..|s| - 3], s[|s| - 2..];
        HourTextValue(h);
        MinuteTextValue(m);
        Some(DigitsValue(h) * 60 + DigitsValue(m))
  }

  /** `minutesToHHMM`: `Math.floor(mins / 60)` and `mins % 60`, each padded. */
  function MinutesToHHMM(mins: int): string
  {
    Pad2(mins / 60) + ":" + Pad2(JsRem(mins, 60))
  }

  /** Parsing what `minutesToHHMM` writes gives the minute back. */
  lemma HHMMRoundTrip(mins: int)
    requires 0 <= mins <= 1439
    ensures |MinutesToHHMM(mins)| == 5 && ClockText(MinutesToHHMM(mins))
    ensures ParseTimeToMinutes(Some(MinutesToHHMM(mins))) == Some(mins)
  {
    var h, m := mins / 60, mins % 60;
    Pad2Small(h);
    Pad2Small(m);
    var s := MinutesToHHMM(mins);
    assert s[..2] == Pad2(h) && s[3..] == Pad2(m);
    assert DigitChar(h / 10) <= '2';
    assert h / 10 == 2 ==> h % 10 <= 3;
  }

  /** A one-digit hour is accepted too: `9:05` reads as 545. */
  lemma ShortHourAccepted(h: int, m: int)
    requires 0 <= h <= 9 && 0 <= m <= 59
    ensures ParseTimeToMinutes(Some(IntToString(h) + ":" + Pad2(m))) == Some(h * 60 + m)
  {
    Pad2Small(m);
    var s := IntToString(h) + ":" + Pad2(m);
    assert IntToString(h) == [DigitChar(h)];
    assert s[..1] == IntToString(h) && s[2..] == Pad2(m);
    assert s[..1][..0] == [];
  }

  /** `parseCutoffToMinutes(value, fallback)`: the value if it parses, else
      the fallback if that parses, else 17:00. */
  function ParseCutoffToMinutes(value: Option<string>, fallback: string): (r: int)
    ensures 0 <= r <= 1439
    ensures ParseTimeToMinutes(value).Some? ==> r == ParseTimeToMinutes(value).value
    ensures ParseTimeToMinutes(value).None? && ParseTimeToMinutes(Some(fallback)).Some? ==>
              r == ParseTimeToMinutes(Some(fallback)).value
    ensures ParseTimeToMinutes(value).None? && ParseTimeToMinutes(Some(fallback)).None? ==> r == 1020
  {
    match ParseTimeToMinutes(value)
    case Some(parsed) => parsed
    case None =>
      match ParseTimeToMinutes(Some(fallback))
      case Some(fb) => fb
      case None => 17 * 60
  }

  /** With the default fallback `"17:00"` an unusable value gives 1020. */
  lemma DefaultCutoff(value: Option<string>)
    requires ParseTimeToMinutes(value).None?
    ensures ParseCutoffToMinutes(value, "17:00") == 1020
  {
    HHMMRoundTrip(1020);
    assert MinutesToHHMM(1020) == "17:00" by {
      assert Pad2(17) == "17" by { assert NatToString(1) == "1"; }
      assert Pad2(0) == "00";
    }
  }
}
