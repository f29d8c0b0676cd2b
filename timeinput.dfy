/**
 * The time-entry normaliser of `src/utils/timeInput.ts` and of its two
 * copies in the employee and attendance-sheet pages: trimmed input in one
 * of three shapes (`HHMM`, `H:MM`/`HH:MM`, a bare hour) becomes a
 * canonical `HH:MM`; anything else is returned trimmed, and only `""` or a
 * strict `HH:MM` passes the validity gate. The regexes have fixed lengths,
 * so they are written character by character.
 */
module TimeInput {
  import opened Options
  import opened JsString
  import opened TimeOfDay

  /** `/^\d{4}$/`. */
  predicate FourDigits(v: string)
  {
    |v| == 4 && IsDigit(v[0]) && IsDigit(v[1]) && IsDigit(v[2]) && IsDigit(v[3])
  }

  /** `/^(\d{1,2}):(\d{2})$/`: one or two digits, a colon, two digits. */
  predicate ColonShape(v: string)
  {
    (|v| == 4 && IsDigit(v[0]) && v[1] == ':' && IsDigit(v[2]) && IsDigit(v[3]))
    || (|v| == 5 && IsDigit(v[0]) && IsDigit(v[1]) && v[2] == ':' && IsDigit(v[3]) && IsDigit(v[4]))
  }

  /** `/^\d{1,2}$/`. */
  predicate HourOnly(v: string)
  {
    (|v| == 1 && IsDigit(v[0])) || (|v| == 2 && IsDigit(v[0]) && IsDigit(v[1]))
  }

  /** `/^([01]\d|2[0-3]):([0-5]\d)$/`, the validity regex. */
  predicate StrictClock(v: string)
  {
    |v| == 5 && v[2] == ':'
    && (('0' <= v[0] <= '1' && IsDigit(v[1])) || (v[0] == '2' && '0' <= v[1] <= '3'))
    && '0' <= v[3] <= '5' && IsDigit(v[4])
  }

  /** `parseInt` of two digits. */
  function Num2(a: char, b: char): (n: nat)
    requires IsDigit(a) && IsDigit(b)
    ensures n < 100
  {
    10 * DigitValue(a) + DigitValue(b)
  }

  /** What each shape reads as hour and minute. */
  function FourDigitHour(v: string): nat
    requires FourDigits(v)
  {
    Num2(v[0], v[1])
  }

  function FourDigitMinute(v: string): nat
    requires FourDigits(v)
  {
    Num2(v[2], v[3])
  }

  function ColonHour(v: string): nat
    requires ColonShape(v)
  {
    if |v| == 4 then DigitValue(v[0]) else Num2(v[0], v[1])
  }

  function ColonMinute(v: string): nat
    requires ColonShape(v)
  {
    Num2(v[|v| - 2], v[|v| - 1])
  }

  function BareHour(v: string): nat
    requires HourOnly(v)
  {
    if |v| == 1 then DigitValue(v[0]) else Num2(v[0], v[1])
  }

  /** `${pad2(hh)}:${pad2(mm)}`. */
  function Clock(hh: int, mm: int): string
  {
    Pad2(hh) + ":" + Pad2(mm)
  }

  /** `normalizeTime` of `src/utils/timeInput.ts`. */
  function NormalizeTime(value: string): (r: string)
    ensures r == Trim(value) || StrictClock(r)
  {
    NormalizeTrimmed(Trim(value))
  }

  /** The body of `normalizeTime` after `value.trim()`. */
  function NormalizeTrimmed(v: string): (r: string)
    ensures r == v || StrictClock(r)
  {
    if v == "" then ""
    else if FourDigits(v) then
      var hh, mm := FourDigitHour(v), FourDigitMinute(v);
      if hh >= 0 && hh <= 23 && mm >= 0 && mm <= 59 then CanonicalClock(hh, mm); Clock(hh, mm) else v
    else if ColonShape(v) then
      var hh, mm := ColonHour(v), ColonMinute(v);
      if hh >= 0 && hh <= 23 && mm >= 0 && mm <= 59 then CanonicalClock(hh, mm); Clock(hh, mm) else v
    else if HourOnly(v) then
      var hh := BareHour(v);
      if hh >= 1 && hh <= 23 then CanonicalClock(hh, 0); Clock(hh, 0) else v
    else v
  }

  /** `isValidTimeOrEmpty` of `src/utils/timeInput.ts`. */
  predicate IsValidTimeOrEmpty(value: string)
  {
    var v := NormalizeTime(value);
    v == "" || StrictClock(v)
  }

  /** An hour and a minute in range are written as a strict `HH:MM`, which
      `parseTimeToMinutes` reads back. */
  lemma CanonicalClock(hh: int, mm: int)
    requires 0 <= hh <= 23 && 0 <= mm <= 59
    ensures StrictClock(Clock(hh, mm))
    ensures ParseTimeToMinutes(Some(Clock(hh, mm))) == Some(hh * 60 + mm)
  {
    Pad2Small(hh);
    Pad2Small(mm);
    var c := Clock(hh, mm);
    assert c[..2] == Pad2(hh) && c[3..] == Pad2(mm);
    assert hh / 10 == 2 ==> hh % 10 <= 3;
    DigitsValue2(c[..2]);
    DigitsValue2(c[3..]);
  }

  /** The texts `normalizeTime` turns into a canonical `HH:MM`. */
  predicate Accepted(v: string)
  {
    if FourDigits(v) then FourDigitHour(v) <= 23 && FourDigitMinute(v) <= 59
    else if ColonShape(v) then ColonHour(v) <= 23 && ColonMinute(v) <= 59
    else HourOnly(v) && 1 <= BareHour(v) <= 23
  }

  /** The minute of the day an accepted text stands for. */
  function AcceptedMinutes(v: string): int
    requires Accepted(v)
  {
    if FourDigits(v) then FourDigitHour(v) * 60 + FourDigitMinute(v)
    else if ColonShape(v) then ColonHour(v) * 60 + ColonMinute(v)
    else BareHour(v) * 60
  }

  /** The canonical text an accepted text becomes. */
  function AcceptedClock(v: string): string
    requires Accepted(v)
  {
    if FourDigits(v) then Clock(FourDigitHour(v), FourDigitMinute(v))
    else if ColonShape(v) then Clock(ColonHour(v), ColonMinute(v))
    else Clock(BareHour(v), 0)
  }

  lemma AcceptedClockParses(v: string)
    requires Accepted(v)
    ensures StrictClock(AcceptedClock(v))
    ensures ParseTimeToMinutes(Some(AcceptedClock(v))) == Some(AcceptedMinutes(v))
  {
    var hh, mm := if FourDigits(v) then FourDigitHour(v) else if ColonShape(v) then ColonHour(v) else BareHour(v),
                  if FourDigits(v) then FourDigitMinute(v) else if ColonShape(v) then ColonMinute(v) else 0;
    assert AcceptedClock(v) == Clock(hh, mm) && AcceptedMinutes(v) == hh * 60 + mm;
    CanonicalClock(hh, mm);
  }

  /** The shape matching: accepted text becomes its canonical clock, other
      non-blank text stays as it is. */
  lemma NormalizeTrimmedShapes(v: string)
    requires v != ""
    ensures NormalizeTrimmed(v) == if Accepted(v) then AcceptedClock(v) else v
  {
  }

  /** A strict `HH:MM` is accepted as an `HH:MM` text and written back unchanged. */
  lemma StrictClockAccepted(v: string)
    requires StrictClock(v)
    ensures Accepted(v) && AcceptedClock(v) == v
    ensures Trimmed(v)
  {
    assert !FourDigits(v) && ColonShape(v);
    assert ColonHour(v) == Num2(v[0], v[1]) && ColonMinute(v) == Num2(v[3], v[4]);
    Pad2OfNum2(v[0], v[1]);
    Pad2OfNum2(v[3], v[4]);
    assert v == [v[0], v[1]] + ":" + [v[3], v[4]];
    StrictClockTrimmed(v);
  }

  lemma StrictClockTrimmed(v: string)
    requires StrictClock(v)
    ensures Trimmed(v)
  {
    assert v[0] !in SpaceChars && v[4] !in SpaceChars;
  }

  /** Two digits padded back from their value are those digits. */
  lemma Pad2OfNum2(a: char, b: char)
    requires IsDigit(a) && IsDigit(b)
    ensures Pad2(Num2(a, b)) == [a, b]
  {
    Pad2OfDigits([a, b]);
    DigitsValue2([a, b]);
  }

  /** Blank input, and only blank input, normalises to `""`; it is valid. */
  lemma NormalizeBlank(value: string)
    ensures NormalizeTime(value) == "" <==> AllSpace(value)
    ensures AllSpace(value) ==> IsValidTimeOrEmpty(value)
  {
    TrimEmptyIffAllSpace(value);
  }

  /** Each accepted shape becomes the canonical `HH:MM` of the hour and
      minute read from its digits; any other text is returned trimmed. */
  lemma NormalizeAccepted(value: string)
    ensures var v := Trim(value);
      v != "" && Accepted(v) ==>
        StrictClock(NormalizeTime(value)) && ParseTimeToMinutes(Some(NormalizeTime(value))) == Some(AcceptedMinutes(v))
    ensures !Accepted(Trim(value)) ==> NormalizeTime(value) == Trim(value)
  {
    var v := Trim(value);
    if v != "" {
      NormalizeTrimmedShapes(v);
      if Accepted(v) { AcceptedClockParses(v); }
    }
  }

  /** `isValidTimeOrEmpty` holds exactly for blank input and the accepted shapes. */
  lemma ValidIffAccepted(value: string)
    ensures IsValidTimeOrEmpty(value) <==> Trim(value) == "" || Accepted(Trim(value))
  {
    var v := Trim(value);
    assert NormalizeTime(value) == NormalizeTrimmed(v);
    if v != "" {
      NormalizeTrimmedShapes(v);
      if Accepted(v) {
        AcceptedClockParses(v);
      } else if StrictClock(v) {
        StrictClockAccepted(v);
        assert false;
      }
    }
  }

  /** Every non-empty valid value is a time `parseTimeToMinutes` reads. */
  lemma ValidTimesParse(value: string)
    requires IsValidTimeOrEmpty(value) && NormalizeTime(value) != ""
    ensures ParseTimeToMinutes(Some(NormalizeTime(value))).Some?
  {
    var r := NormalizeTime(value);
    StrictClockAccepted(r);
    AcceptedClockParses(r);
  }

  /** Normalising twice is normalising once. */
  lemma NormalizeIdempotent(value: string)
    ensures NormalizeTime(NormalizeTime(value)) == NormalizeTime(value)
  {
    var v := Trim(value);
    var r := NormalizeTrimmed(v);
    assert NormalizeTime(value) == r;
    if r == v {
      NormalizeOfTrimmed(v);
    } else {
      NormalizeOfClock(r);
    }
  }

  /** Trimmed text normalises as it did before trimming. */
  lemma NormalizeOfTrimmed(v: string)
    requires Trimmed(v)
    ensures NormalizeTime(v) == NormalizeTrimmed(v)
  {
    TrimOfTrimmed(v);
  }

  /** A strict `HH:MM` normalises to itself. */
  lemma NormalizeOfClock(c: string)
    requires StrictClock(c)
    ensures NormalizeTime(c) == c
  {
    StrictClockAccepted(c);
    NormalizeOfTrimmed(c);
    NormalizeTrimmedShapes(c);
  }

  // ------------------------------------------------------------ examples

  /** `"1000"` becomes `"10:00"`. */
  lemma Example1000(s: string)
    requires s == "1000"
    ensures NormalizeTime(s) == "10:00"
  {
    assert NormalizeTrimmed(s) == "10:00" by {
      assert FourDigits(s) && FourDigitHour(s) == 10 && FourDigitMinute(s) == 0;
      assert Clock(10, 0) == "10:00";
    }
    NormalizeOfTrimmed(s);
  }

  /** Trimmed text the normaliser keeps, and that is not a strict clock,
      is what `normalizeTime` returns and what the gate refuses. */
  lemma KeptAndRejected(s: string)
    requires s != "" && Trimmed(s) && NormalizeTrimmed(s) == s && !StrictClock(s)
    ensures NormalizeTime(s) == s && !IsValidTimeOrEmpty(s)
  {
    NormalizeOfTrimmed(s);
  }

  /** `"2460"` is kept and rejected. */
  lemma Example2460(s: string)
    requires s == "2460"
    ensures NormalizeTime(s) == s && !IsValidTimeOrEmpty(s)
  {
    assert NormalizeTrimmed(s) == s by {
      assert FourDigits(s) && FourDigitHour(s) == 24;
    }
    KeptAndRejected(s);
  }

  /** `"9:05"` becomes `"09:05"`. */
  lemma Example905(s: string)
    requires s == "9:05"
    ensures NormalizeTime(s) == "09:05"
  {
    assert NormalizeTrimmed(s) == "09:05" by {
      assert !FourDigits(s) && ColonShape(s) && ColonHour(s) == 9 && ColonMinute(s) == 5;
      assert Clock(9, 5) == "09:05";
    }
    NormalizeOfTrimmed(s);
  }

  /** `"9:5"` is kept and rejected. */
  lemma Example95(s: string)
    requires s == "9:5"
    ensures NormalizeTime(s) == s && !IsValidTimeOrEmpty(s)
  {
    assert NormalizeTrimmed(s) == s by {
      assert !FourDigits(s) && !ColonShape(s) && !HourOnly(s);
    }
    KeptAndRejected(s);
  }

  /** `"7"` becomes `"07:00"`. */
  lemma Example7(s: string)
    requires s == "7"
    ensures NormalizeTime(s) == "07:00"
  {
    assert NormalizeTrimmed(s) == "07:00" by {
      assert !FourDigits(s) && !ColonShape(s) && HourOnly(s) && BareHour(s) == 7;
      assert Clock(7, 0) == "07:00";
    }
    NormalizeOfTrimmed(s);
  }

  /** A bare hour outside `1..23` (`"0"`, `"00"`, `"24"`) is kept and rejected. */
  lemma ExampleBareHourRejected(s: string)
    requires s == "0" || s == "00" || s == "24"
    ensures NormalizeTime(s) == s && !IsValidTimeOrEmpty(s)
  {
    assert NormalizeTrimmed(s) == s by {
      assert HourOnly(s) && (BareHour(s) == 0 || BareHour(s) == 24);
    }
    KeptAndRejected(s);
  }

  // ------------------------------------------------------- page copies

  /** The copy of `normalizeTime` in the employee and attendance-sheet
      pages: the same steps, with `v.slice(2)` for the minutes of the
      `HHMM` shape and the pages' own `pad2`. */
  function PageNormalizeTime(value: string): string
  {
    PageNormalizeTrimmed(Trim(value))
  }

  function PageNormalizeTrimmed(v: string): string
  {
    if v == "" then ""
    else if FourDigits(v) then
      var hh, mm := Num2(v[0], v[1]), Num2(v[2..][0], v[2..][1]);
      if hh >= 0 && hh <= 23 && mm >= 0 && mm <= 59 then Pad2(hh) + ":" + Pad2(mm) else v
    else if ColonShape(v) then
      var hh, mm := ColonHour(v), ColonMinute(v);
      if hh >= 0 && hh <= 23 && mm >= 0 && mm <= 59 then Pad2(hh) + ":" + Pad2(mm) else v
    else if HourOnly(v) then
      var hh := BareHour(v);
      if hh >= 1 && hh <= 23 then Pad2(hh) + ":00" else v
    else v
  }

  predicate PageIsValidTimeOrEmpty(value: string)
  {
    var v := PageNormalizeTime(value);
    v == "" || StrictClock(v)
  }

  /** The page copies agree with `src/utils/timeInput.ts` on every input. */
  lemma PageCopiesAgree(value: string)
    ensures PageNormalizeTime(value) == NormalizeTime(value)
    ensures PageIsValidTimeOrEmpty(value) == IsValidTimeOrEmpty(value)
  {
    PageCopyAgreesTrimmed(Trim(value));
  }

  lemma PageCopyAgreesTrimmed(v: string)
    ensures PageNormalizeTrimmed(v) == NormalizeTrimmed(v)
  {
  }
}
