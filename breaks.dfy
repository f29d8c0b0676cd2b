/**
 * The break rules and the splitting of worked time of
 * `src/utils/attendanceCalc.ts`: the automatic HPP breaks, the worked
 * segments left between them, the overlap helper behind the afternoon
 * bucket, and the break label and tooltip texts.
 */
module Breaks {
  import opened JsString
  import opened TimeOfDay

  datatype BreakWindow = BreakWindow(start: int, end: int)

  /** A worked segment `[from, to)` in minutes. */
  datatype Segment = Segment(from: int, to: int)

  function Max(a: int, b: int): int { if a >= b then a else b }
  function Min(a: int, b: int): int { if a <= b then a else b }

  // ----------------------------------------------------------- breaks

  /** `computeHppBreaks`: a 30-minute break six hours in once the shift
      lasts 6h30, and another twelve hours in once it lasts 12h30. */
  function ComputeHppBreaks(startMin: int, endMin: int): (breaks: seq<BreakWindow>)
    ensures |breaks| == (if endMin - startMin < 390 then 0 else if endMin - startMin < 750 then 1 else 2)
    ensures |breaks| >= 1 ==> breaks[0] == BreakWindow(startMin + 360, startMin + 390)
    ensures |breaks| == 2 ==> breaks[1] == BreakWindow(startMin + 720, startMin + 750)
    ensures startMin <= endMin ==> WellFormedBreaks(startMin, breaks, endMin)
    ensures forall w :: w in breaks ==> w.end - w.start == 30
  {
    var dur := endMin - startMin;
    var first := if dur >= 6 * 60 + 30 then [BreakWindow(startMin + 6 * 60, startMin + 6 * 60 + 30)] else [];
    var second := if dur >= 12 * 60 + 30 then [BreakWindow(startMin + 12 * 60, startMin + 12 * 60 + 30)] else [];
    first + second
  }

  /** Breaks that lie, in order and without overlapping, inside `[cur, d]`. */
  predicate WellFormedBreaks(cur: int, breaks: seq<BreakWindow>, d: int)
  {
    cur <= d
    && (forall i :: 0 <= i < |breaks| ==> cur <= breaks[i].start <= breaks[i].end <= d)
    && (forall i, j :: 0 <= i < j < |breaks| ==> breaks[i].end <= breaks[j].start)
  }

  function BreakMinutes(breaks: seq<BreakWindow>): int
  {
    if breaks == [] then 0 else (breaks[0].end - breaks[0].start) + BreakMinutes(breaks[1..])
  }

  // --------------------------------------------------------- segments

  /** The segments the loop of `segmentsMinusBreaks` pushes from `cur` on. */
  function SegmentsFrom(cur: int, breaks: seq<BreakWindow>, d: int): seq<Segment>
    decreases |breaks|
  {
    if breaks == [] then (if cur < d then [Segment(cur, d)] else [])
    else
      var b := breaks[0];
      (if b.start > cur then [Segment(cur, b.start)] else []) + SegmentsFrom(Max(cur, b.end), breaks[1..], d)
  }

  /** `.filter(([a, b]) => b > a)`. */
  function NonEmptySegments(segs: seq<Segment>): (r: seq<Segment>)
    ensures forall k :: 0 <= k < |r| ==> r[k].from < r[k].to
  {
    if segs == [] then []
    else (if segs[0].to > segs[0].from then [segs[0]] else []) + NonEmptySegments(segs[1..])
  }

  /** What `segmentsMinusBreaks(a, d, breaks)` returns. */
  function SegmentsMinusBreaksSpec(a: int, d: int, breaks: seq<BreakWindow>): seq<Segment>
  {
    if breaks == [] then [Segment(a, d)] else NonEmptySegments(SegmentsFrom(a, breaks, d))
  }

  /** `segmentsMinusBreaks`: walk the breaks with a cursor, pushing the gap
      before each break, then the tail, and drop empty segments. */
  method SegmentsMinusBreaks(startMin: int, endMin: int, breaks: seq<BreakWindow>) returns (segs: seq<Segment>)
    ensures segs == SegmentsMinusBreaksSpec(startMin, endMin, breaks)
  {
    if |breaks| == 0 {
      return [Segment(startMin, endMin)];
    }
    var out: seq<Segment> := [];
    var cur := startMin;
    var i := 0;
    while i < |breaks|
      invariant 0 <= i <= |breaks|
      invariant out + SegmentsFrom(cur, breaks[i..], endMin) == SegmentsFrom(startMin, breaks, endMin)
    {
      var b := breaks[i];
      ghost var gap := if b.start > cur then [Segment(cur, b.start)] else [];
      ghost var later := SegmentsFrom(Max(cur, b.end), breaks[i + 1..], endMin);
      assert breaks[i..][1..] == breaks[i + 1..];
      assert SegmentsFrom(cur, breaks[i..], endMin) == gap + later;
      assert (out + gap) + later == out + (gap + later);
      ghost var before := out;
      if b.start > cur {
        out := out + [Segment(cur, b.start)];
      } else {
        assert before + gap == before;
      }
      assert out == before + gap;
      cur := Max(cur, b.end);
      i := i + 1;
      assert later == SegmentsFrom(cur, breaks[i..], endMin);
    }
    assert breaks[i..] == [];
    if cur < endMin {
      out := out + [Segment(cur, endMin)];
    } else {
      assert out + [] == out;
    }
    assert out == SegmentsFrom(startMin, breaks, endMin);
    segs := NonEmptySegments(out);
  }

  /** Total length of the segments. */
  function Worked(segs: seq<Segment>): int
  {
    if segs == [] then 0 else (segs[0].to - segs[0].from) + Worked(segs[1..])
  }

  /** Segments in order, non-empty, apart from each other and inside `[a, d]`. */
  predicate OrderedWithin(segs: seq<Segment>, a: int, d: int)
  {
    (forall k :: 0 <= k < |segs| ==> a <= segs[k].from < segs[k].to <= d)
    && (forall k, l :: 0 <= k < l < |segs| ==> segs[k].to <= segs[l].from)
  }

  /** No segment overlaps a break. */
  predicate AvoidsBreaks(segs: seq<Segment>, breaks: seq<BreakWindow>)
  {
    forall k, i :: 0 <= k < |segs| && 0 <= i < |breaks| ==>
      segs[k].to <= breaks[i].start || breaks[i].end <= segs[k].from
  }

  /** Between well-formed breaks the loop leaves ordered, disjoint,
      non-empty segments that avoid every break and add up to the time not
      spent on a break. */
  lemma SegmentsFromProperties(cur: int, breaks: seq<BreakWindow>, d: int)
    requires WellFormedBreaks(cur, breaks, d)
    ensures OrderedWithin(SegmentsFrom(cur, breaks, d), cur, d)
    ensures AvoidsBreaks(SegmentsFrom(cur, breaks, d), breaks)
    ensures Worked(SegmentsFrom(cur, breaks, d)) == (d - cur) - BreakMinutes(breaks)
  {
    SegmentsFromOrdered(cur, breaks, d);
    SegmentsFromAvoids(cur, breaks, d);
    SegmentsFromWorked(cur, breaks, d);
  }

  /** The breaks after the first are well formed from the first one's end. */
  lemma RestWellFormed(cur: int, breaks: seq<BreakWindow>, d: int)
    requires WellFormedBreaks(cur, breaks, d) && breaks != []
    ensures WellFormedBreaks(breaks[0].end, breaks[1..], d)
    ensures Max(cur, breaks[0].end) == breaks[0].end
  {
    var rest := breaks[1..];
    forall i | 0 <= i < |rest|
      ensures breaks[0].end <= rest[i].start
    {
      assert rest[i] == breaks[i + 1];
    }
  }

  /** The first step of the loop: the gap before the first break, then the rest. */
  lemma SegmentsFromStep(cur: int, breaks: seq<BreakWindow>, d: int)
    requires breaks != []
    ensures SegmentsFrom(cur, breaks, d) ==
      (if breaks[0].start > cur then [Segment(cur, breaks[0].start)] else []) + SegmentsFrom(Max(cur, breaks[0].end), breaks[1..], d)
  {
  }

  lemma {:induction false} SegmentsFromOrdered(cur: int, breaks: seq<BreakWindow>, d: int)
    requires WellFormedBreaks(cur, breaks, d)
    ensures OrderedWithin(SegmentsFrom(cur, breaks, d), cur, d)
    decreases |breaks|
  {
    if breaks != [] {
      var b := breaks[0];
      RestWellFormed(cur, breaks, d);
      SegmentsFromOrdered(b.end, breaks[1..], d);
      SegmentsFromStep(cur, breaks, d);
      var head := if b.start > cur then [Segment(cur, b.start)] else [];
      var tail := SegmentsFrom(b.end, breaks[1..], d);
      assert OrderedWithin(head, cur, b.end);
      OrderedConcat(head, tail, cur, b.end, d);
    }
  }

  /** Ordered segments up to `m` followed by ordered segments from `m` on are ordered. */
  lemma OrderedConcat(s: seq<Segment>, t: seq<Segment>, a: int, m: int, d: int)
    requires OrderedWithin(s, a, m) && OrderedWithin(t, m, d)
    requires a <= m <= d
    ensures OrderedWithin(s + t, a, d)
  {
    var all := s + t;
    forall k | 0 <= k < |all|
      ensures a <= all[k].from < all[k].to <= d
    {
      if k >= |s| { assert all[k] == t[k - |s|]; } else { assert all[k] == s[k]; }
    }
    forall k, l | 0 <= k < l < |all|
      ensures all[k].to <= all[l].from
    {
      if l >= |s| {
        assert all[l] == t[l - |s|];
        if k >= |s| { assert all[k] == t[k - |s|]; } else { assert all[k] == s[k]; }
      } else {
        assert all[l] == s[l] && all[k] == s[k];
      }
    }
  }

  lemma {:induction false} SegmentsFromAvoids(cur: int, breaks: seq<BreakWindow>, d: int)
    requires WellFormedBreaks(cur, breaks, d)
    ensures AvoidsBreaks(SegmentsFrom(cur, breaks, d), breaks)
    decreases |breaks|
  {
    if breaks != [] {
      var b := breaks[0];
      var rest := breaks[1..];
      RestWellFormed(cur, breaks, d);
      SegmentsFromAvoids(b.end, rest, d);
      SegmentsFromOrdered(b.end, rest, d);
      SegmentsFromStep(cur, breaks, d);
      var head := if b.start > cur then [Segment(cur, b.start)] else [];
      var tail := SegmentsFrom(b.end, rest, d);
      var all := head + tail;
      forall k, i | 0 <= k < |all| && 0 <= i < |breaks|
        ensures all[k].to <= breaks[i].start || breaks[i].end <= all[k].from
      {
        if k >= |head| {
          assert all[k] == tail[k - |head|];
          if i > 0 { assert breaks[i] == rest[i - 1]; }
        } else if i > 0 {
          assert b.end <= breaks[i].start;
        }
      }
    }
  }

  lemma {:induction false} SegmentsFromWorked(cur: int, breaks: seq<BreakWindow>, d: int)
    requires WellFormedBreaks(cur, breaks, d)
    ensures Worked(SegmentsFrom(cur, breaks, d)) == (d - cur) - BreakMinutes(breaks)
    decreases |breaks|
  {
    if breaks != [] {
      var b := breaks[0];
      RestWellFormed(cur, breaks, d);
      SegmentsFromWorked(b.end, breaks[1..], d);
      SegmentsFromStep(cur, breaks, d);
      var head := if b.start > cur then [Segment(cur, b.start)] else [];
      WorkedConcat(head, SegmentsFrom(b.end, breaks[1..], d));
    }
  }

  lemma {:induction false} WorkedConcat(s: seq<Segment>, t: seq<Segment>)
    ensures Worked(s + t) == Worked(s) + Worked(t)
    decreases |s|
  {
    if s != [] {
      assert (s + t)[0] == s[0] && (s + t)[1..] == s[1..] + t;
      WorkedConcat(s[1..], t);
    } else {
      assert s + t == t;
    }
  }

  /** Dropping empty segments changes nothing when none is empty. */
  lemma {:induction false} NonEmptyKeeps(segs: seq<Segment>)
    requires forall k :: 0 <= k < |segs| ==> segs[k].from < segs[k].to
    ensures NonEmptySegments(segs) == segs
    decreases |segs|
  {
    if segs != [] {
      NonEmptyKeeps(segs[1..]);
    }
  }

  /** The HPP segments of a shift `a < d`: ordered, disjoint, non-empty,
      inside the shift, clear of the breaks, and worth the shift's length
      less 30 minutes per break. */
  lemma HppSegments(a: int, d: int)
    requires a < d
    ensures var breaks := ComputeHppBreaks(a, d);
      var segs := SegmentsMinusBreaksSpec(a, d, breaks);
      OrderedWithin(segs, a, d) && AvoidsBreaks(segs, breaks)
      && Worked(segs) == (d - a) - 30 * |breaks|
  {
    var breaks := ComputeHppBreaks(a, d);
    if breaks != [] {
      SegmentsFromProperties(a, breaks, d);
      NonEmptyKeeps(SegmentsFrom(a, breaks, d));
      assert BreakMinutes(breaks) == 30 * |breaks| by {
        assert BreakMinutes(breaks) == 30 + BreakMinutes(breaks[1..]);
        if |breaks| == 2 {
          assert BreakMinutes(breaks[1..]) == 30 + BreakMinutes(breaks[1..][1..]);
          assert breaks[1..][1..] == [];
        } else {
          assert breaks[1..] == [];
        }
      }
    }
  }

  /** 08:00–16:00 works 450 minutes and 08:00–14:00 works 360. */
  lemma WorkedExamples()
    ensures Worked(SegmentsMinusBreaksSpec(480, 960, ComputeHppBreaks(480, 960))) == 450
    ensures Worked(SegmentsMinusBreaksSpec(480, 840, ComputeHppBreaks(480, 840))) == 360
  {
    HppSegments(480, 960);
  }

  // ---------------------------------------------------------- overlap

  /** `overlapMinutes`: the length of the common part of `[a0, a1)` and `[b0, b1)`. */
  function OverlapMinutes(a0: int, a1: int, b0: int, b1: int): (r: int)
    ensures r >= 0
    ensures a0 <= a1 ==> r <= a1 - a0
    ensures r == 0 <==> Min(a1, b1) <= Max(a0, b0)
    ensures b0 <= a0 <= a1 <= b1 ==> r == a1 - a0
  {
    var s := Max(a0, b0);
    var e := Min(a1, b1);
    Max(0, e - s)
  }

  /** Cutting an interval in two cuts its overlap in two. */
  lemma OverlapSplit(a0: int, m: int, a1: int, b0: int, b1: int)
    requires a0 <= m <= a1 && b0 <= b1
    ensures OverlapMinutes(a0, m, b0, b1) + OverlapMinutes(m, a1, b0, b1) == OverlapMinutes(a0, a1, b0, b1)
  {
  }

  // ------------------------------------------------------------ texts

  /** `breakLabelFromMinutes`: U+2212 MINUS SIGN, hours, padded minutes. */
  function BreakLabelFromMinutes(mins: int): string
  {
    "−" + IntToString(mins / 60) + ":" + Pad2(JsRem(mins, 60)) + " pauza"
  }

  lemma BreakLabelExamples()
    ensures BreakLabelFromMinutes(30) == "−0:30 pauza"
    ensures BreakLabelFromMinutes(60) == "−1:00 pauza"
  {
    BreakLabel30();
    BreakLabel60();
  }

  lemma BreakLabel30()
    ensures BreakLabelFromMinutes(30) == "−0:30 pauza"
  {
    assert 30 / 60 == 0 && JsRem(30, 60) == 30;
    assert Pad2(30) == "30" by { assert NatToString(3) == "3"; }
  }

  lemma BreakLabel60()
    ensures BreakLabelFromMinutes(60) == "−1:00 pauza"
  {
    assert 60 / 60 == 1 && JsRem(60, 60) == 0;
  }

  /** `HH:MM–HH:MM` (U+2013 EN DASH) for one window. */
  function WindowText(w: BreakWindow): string
  {
    MinutesToHHMM(w.start) + "–" + MinutesToHHMM(w.end)
  }

  function WindowTexts(windows: seq<BreakWindow>): (parts: seq<string>)
    ensures |parts| == |windows|
    ensures forall k :: 0 <= k < |parts| ==> parts[k] == WindowText(windows[k])
  {
    if windows == [] then [] else [WindowText(windows[0])] + WindowTexts(windows[1..])
  }

  /** `breakTooltipFromWindows`: "Pauza"/"Pauzy", the total break time
      without the minus sign, and the windows in parentheses. */
  function BreakTooltipFromWindows(windows: seq<BreakWindow>): string
  {
    if |windows| == 0 then ""
    else
      var total := |windows| * 30;
      var prefix := if |windows| == 1 then "Pauza" else "Pauzy";
      prefix + " " + RemoveFirst(BreakLabelFromMinutes(total), '−') + " (" + Join(WindowTexts(windows), ", ") + ")"
  }

  /** The label minus its sign, as the tooltip shows it. */
  lemma TooltipLabel(windows: seq<BreakWindow>)
    requires 1 <= |windows|
    ensures BreakTooltipFromWindows(windows) ==
      (if |windows| == 1 then "Pauza" else "Pauzy") + " " + BreakLabelFromMinutes(|windows| * 30)[1..]
      + " (" + Join(WindowTexts(windows), ", ") + ")"
  {
    LabelWithoutSign(|windows| * 30);
  }

  /** Removing the first minus sign from a label drops its first character. */
  lemma LabelWithoutSign(mins: int)
    ensures RemoveFirst(BreakLabelFromMinutes(mins), '−') == BreakLabelFromMinutes(mins)[1..]
  {
    var text := BreakLabelFromMinutes(mins);
    assert text[0] == '−';
  }
}
