/**
 * The attendance logic of the employee portal, `src/pages/EmployeePage.tsx`:
 * the month sheet filled from the server's days, the edit of one time with
 * its optimistic row update and its payload, the "punch now" button, the
 * in-memory offline queue (`enqueue`, `flushQueueIfPossible`) and the
 * month's working fund. The network is a parameter: whether each
 * `putAttendance` call succeeds.
 */
module EmployeePage {
  import opened Options
  import opened JsString
  import opened Calendar
  import opened Holidays
  import opened TimeInput
  import opened DayCalc
  import opened DayRows

  /** The body of a `putAttendance` call. */
  datatype Payload = Payload(date: string, arrivalTime: Option<string>, departureTime: Option<string>)

  function PayloadField(p: Payload, field: TimeField): Option<string>
  {
    if field == ArrivalTime then p.arrivalTime else p.departureTime
  }

  /** `QueueItem`: a payload waiting to be sent, with its enqueue time. */
  datatype QueueItem = QueueItem(payload: Payload, enqueuedAt: int)

  // ---------------------------------------------------------- month fill

  /** `byDate.get(date)` after `byDate.set(d.date, d)` for every server day
      in order: the last server day with that date. */
  function LastWithDate(days: seq<DayRow>, date: string): (r: Option<DayRow>)
    ensures r.Some? ==> r.value.date == date
  {
    if days == [] then None
    else if days[|days| - 1].date == date then Some(days[|days| - 1])
    else LastWithDate(days[..|days| - 1], date)
  }

  /** The row found is the last server day with that date, and none is
      found exactly when no server day has it. */
  lemma {:induction false} LastWithDateIsLast(days: seq<DayRow>, date: string)
    ensures var r := LastWithDate(days, date);
      r.Some? ==> exists k :: 0 <= k < |days| && days[k] == r.value && forall j :: k < j < |days| ==> days[j].date != date
    ensures LastWithDate(days, date).None? <==> forall k :: 0 <= k < |days| ==> days[k].date != date
    decreases |days|
  {
    if days != [] && days[|days| - 1].date != date {
      var init := days[..|days| - 1];
      LastWithDateIsLast(init, date);
      assert forall k :: 0 <= k < |days| - 1 ==> init[k] == days[k];
      var r := LastWithDate(init, date);
      if r.Some? {
        var k :| 0 <= k < |init| && init[k] == r.value && forall j :: k < j < |init| ==> init[j].date != date;
        assert days[k] == r.value;
      }
    }
  }

  /** The row the sheet shows for `date`. */
  function RowFor(days: seq<DayRow>, date: string): (r: DayRow)
    ensures r.date == date
  {
    match LastWithDate(days, date)
    case Some(d) => d
    case None => AttendanceRow(date, None, None)
  }

  /** The map `load` builds, one `set` per server day. */
  function ByDate(days: seq<DayRow>): map<string, DayRow>
  {
    if days == [] then map[] else ByDate(days[..|days| - 1])[days[|days| - 1].date := days[|days| - 1]]
  }

  lemma {:induction false} ByDateIsLast(days: seq<DayRow>, date: string)
    ensures date in ByDate(days) <==> LastWithDate(days, date).Some?
    ensures date in ByDate(days) ==> ByDate(days)[date] == LastWithDate(days, date).value
    decreases |days|
  {
    if days != [] {
      ByDateIsLast(days[..|days| - 1], date);
    }
  }

  /** The month fill of `load`: day `1..daysInMonth(y, m)` of the month in
      order, each the server's row for its date or an empty one. */
  method FillMonth(y: int, m: int, serverDays: seq<DayRow>) returns (out: seq<DayRow>)
    ensures |out| == JsDaysInMonth(y, m)
    ensures forall i :: 0 <= i < |out| ==> out[i].date == IsoText(y, m, i + 1)
    ensures forall i :: 0 <= i < |out| ==> out[i] == RowFor(serverDays, IsoText(y, m, i + 1))
  {
    var dim := JsDaysInMonth(y, m);
    var byDate: map<string, DayRow> := map[];
    var k := 0;
    while k < |serverDays|
      invariant 0 <= k <= |serverDays|
      invariant byDate == ByDate(serverDays[..k])
    {
      assert serverDays[..k + 1][..k] == serverDays[..k];
      byDate := byDate[serverDays[k].date := serverDays[k]];
      k := k + 1;
    }
    assert serverDays[..k] == serverDays;
    out := [];
    var day := 1;
    while day <= dim
      invariant 1 <= day <= dim + 1
      invariant out == MonthSheet(serverDays, y, m, day - 1)
    {
      var date := IsoText(y, m, day);
      ByDateIsLast(serverDays, date);
      var row := if date in byDate then byDate[date] else AttendanceRow(date, None, None);
      out := out + [row];
      day := day + 1;
    }
  }

  /** The first `n` rows of the month sheet. */
  function MonthSheet(serverDays: seq<DayRow>, y: int, m: int, n: nat): (rows: seq<DayRow>)
    ensures |rows| == n
    ensures forall i :: 0 <= i < n ==> rows[i] == RowFor(serverDays, IsoText(y, m, i + 1))
  {
    if n == 0 then []
    else
      var prev := MonthSheet(serverDays, y, m, n - 1);
      var rows := prev + [RowFor(serverDays, IsoText(y, m, n))];
      assert forall i :: 0 <= i < n - 1 ==> rows[i] == prev[i];
      rows
  }

  /** For a real month of a four-digit year the sheet has one row per day
      of the month, each dated with that day. */
  lemma FillMonthDates(y: int, m: int, i: int)
    requires 1000 <= y <= 9999 && 1 <= m <= 12 && 0 <= i < DaysInMonth(y, m)
    ensures JsDaysInMonth(y, m) == DaysInMonth(y, m)
    ensures IsoText(y, m, i + 1) == ToIso(Date(y, m, i + 1))
    ensures IsoParts(IsoText(y, m, i + 1)) == Some(Date(y, m, i + 1))
  {
    assert (m - 1) / 12 == 0 && (m - 1) % 12 == m - 1;
    IsoRoundTrip(Date(y, m, i + 1));
  }

  // ------------------------------------------------------ editing a time

  /** What `onChangeTime` does with the rows before it talks to the network. */
  datatype Change = Ignored | Applied(rows: seq<DayRow>, payload: Payload)

  /** `onChangeTime` up to the send: refused when the month is locked or the
      normalised text is invalid; otherwise the updated rows and the
      payload, whose other field comes from the row as it was. */
  function ChangeTime(rows: seq<DayRow>, monthLocked: bool, date: string, field: TimeField, value: string): Change
  {
    if monthLocked then Ignored
    else
      var trimmed := PageNormalizeTime(value);
      if !PageIsValidTimeOrEmpty(trimmed) then Ignored
      else
        var v := StoredValue(trimmed);
        var row := FindRow(rows, date);
        var current := if row.Some? then FieldOf(row.value, OtherField(field)) else None;
        Applied(SetTime(rows, date, field, v),
                if field == ArrivalTime then Payload(date, v, current) else Payload(date, current, v))
  }

  /** A locked month or an invalid entry changes nothing. */
  lemma ChangeTimeRefused(rows: seq<DayRow>, monthLocked: bool, date: string, field: TimeField, value: string)
    ensures ChangeTime(rows, monthLocked, date, field, value).Ignored? <==> monthLocked || !IsValidTimeOrEmpty(value)
  {
    var trimmed := PageNormalizeTime(value);
    PageCopiesAgree(value);
    PageCopiesAgree(trimmed);
    NormalizeIdempotent(value);
  }

  /** An accepted edit changes only the edited field of the rows of that
      date, to the normalised value (`null` for `""`), and the payload
      carries that value and the row's current other field. */
  lemma ChangeTimeApplied(rows: seq<DayRow>, date: string, field: TimeField, value: string)
    requires IsValidTimeOrEmpty(value)
    ensures var c := ChangeTime(rows, false, date, field, value);
      var v := StoredValue(NormalizeTime(value));
      c.Applied? && c.rows == SetTime(rows, date, field, v)
      && c.payload.date == date && PayloadField(c.payload, field) == v
      && PayloadField(c.payload, OtherField(field))
         == (if FindRow(rows, date).Some? then FieldOf(FindRow(rows, date).value, OtherField(field)) else None)
  {
    ChangeTimeRefused(rows, false, date, field, value);
    PageCopiesAgree(value);
  }

  // ----------------------------------------------------------- punch now

  datatype Punch = MonthLocked | NoTodayRow | Write(field: TimeField) | DayFull

  /** `handlePunchNow`: the first empty field of today's row, if any.
      Punching writes the arrival when it is empty, else the departure when
      that is empty, never a filled field, and nothing in a locked month. */
  function PunchTarget(rows: seq<DayRow>, monthLocked: bool, today: string): (p: Punch)
    ensures p == MonthLocked <==> monthLocked
    ensures p == NoTodayRow <==> !monthLocked && FindRow(rows, today).None?
    ensures p.Write? ==>
      !monthLocked && FindRow(rows, today).Some?
      && !Filled(FieldOf(FindRow(rows, today).value, p.field))
      && (p.field == DepartureTime ==> Filled(FindRow(rows, today).value.arrivalTime))
    ensures !monthLocked && FindRow(rows, today).Some? && !Filled(FindRow(rows, today).value.arrivalTime) ==>
      p == Write(ArrivalTime)
    ensures (!monthLocked && FindRow(rows, today).Some? && Filled(FindRow(rows, today).value.arrivalTime)
             && !Filled(FindRow(rows, today).value.departureTime)) ==> p == Write(DepartureTime)
    ensures p == DayFull <==>
      !monthLocked && FindRow(rows, today).Some?
      && Filled(FindRow(rows, today).value.arrivalTime) && Filled(FindRow(rows, today).value.departureTime)
  {
    if monthLocked then MonthLocked
    else match FindRow(rows, today)
      case None => NoTodayRow
      case Some(r) =>
        if !Filled(r.arrivalTime) then Write(ArrivalTime)
        else if !Filled(r.departureTime) then Write(DepartureTime)
        else DayFull
  }

  /** The clock text `handlePunchNow` writes is always accepted: it is
      stored as it is. */
  lemma PunchTimeAccepted(rows: seq<DayRow>, today: string, field: TimeField, hour: int, minute: int)
    requires 0 <= hour <= 23 && 0 <= minute <= 59
    ensures ChangeTime(rows, false, today, field, Clock(hour, minute)).Applied?
    ensures ChangeTime(rows, false, today, field, Clock(hour, minute)).rows == SetTime(rows, today, field, Some(Clock(hour, minute)))
  {
    var c := Clock(hour, minute);
    CanonicalClock(hour, minute);
    NormalizeOfClock(c);
    PageCopiesAgree(c);
    StrictClockAccepted(c);
    assert c != "";
  }

  // --------------------------------------------------------- the queue

  /** `q.findIndex((x) => x.date === date)`. */
  function FindDate(q: seq<QueueItem>, date: string): (idx: Option<nat>)
    ensures idx.Some? ==> idx.value < |q| && q[idx.value].payload.date == date
    ensures idx.Some? ==> forall j :: 0 <= j < idx.value ==> q[j].payload.date != date
    ensures idx.None? <==> forall j :: 0 <= j < |q| ==> q[j].payload.date != date
  {
    if q == [] then None
    else if q[0].payload.date == date then Some(0)
    else match FindDate(q[1..], date)
      case None => None
      case Some(k) => Some(k + 1)
  }

  /** The queue after `enqueue(item)`: the earlier item of the same date,
      if any, spliced out, and the new item pushed. */
  function Enqueued(q: seq<QueueItem>, item: QueueItem): seq<QueueItem>
  {
    match FindDate(q, item.payload.date)
    case None => q + [item]
    case Some(idx) => q[..idx] + q[idx + 1..] + [item]
  }

  predicate DatesUnique(q: seq<QueueItem>)
  {
    forall i, j :: 0 <= i < j < |q| ==> q[i].payload.date != q[j].payload.date
  }

  /** The items of another date, in their order. */
  function OtherDates(q: seq<QueueItem>, date: string): (r: seq<QueueItem>)
    ensures |r| <= |q|
    ensures forall k :: 0 <= k < |r| ==> r[k].payload.date != date
  {
    if q == [] then []
    else (if q[0].payload.date != date then [q[0]] else []) + OtherDates(q[1..], date)
  }

  lemma {:induction false} OtherDatesConcat(a: seq<QueueItem>, b: seq<QueueItem>, date: string)
    ensures OtherDates(a + b, date) == OtherDates(a, date) + OtherDates(b, date)
    decreases |a|
  {
    if a == [] {
      assert a + b == b;
    } else {
      OtherDatesConcat(a[1..], b, date);
      assert (a + b)[0] == a[0];
      assert (a + b)[1..] == a[1..] + b;
    }
  }

  lemma {:induction false} OtherDatesKeepsAll(q: seq<QueueItem>, date: string)
    requires forall j :: 0 <= j < |q| ==> q[j].payload.date != date
    ensures OtherDates(q, date) == q
    decreases |q|
  {
    if q != [] {
      assert q[0].payload.date != date;
      assert forall j :: 0 <= j < |q| - 1 ==> q[1..][j] == q[j + 1];
      OtherDatesKeepsAll(q[1..], date);
      assert [q[0]] + q[1..] == q;
    }
  }

  /** Under unique dates, splicing out the one item of a date is
      filtering that date out. */
  lemma SpliceIsFilter(q: seq<QueueItem>, idx: nat, date: string)
    requires DatesUnique(q) && idx < |q| && q[idx].payload.date == date
    ensures OtherDates(q, date) == q[..idx] + q[idx + 1..]
  {
    var a, x, b := q[..idx], [q[idx]], q[idx + 1..];
    assert q == (a + x) + b;
    forall j | 0 <= j < |a| ensures a[j].payload.date != date {
      assert a[j] == q[j];
    }
    forall j | 0 <= j < |b| ensures b[j].payload.date != date {
      assert b[j] == q[idx + 1 + j];
    }
    OtherDatesKeepsAll(a, date);
    OtherDatesKeepsAll(b, date);
    assert OtherDates(x, date) == [] by {
      assert x[1..] == [];
    }
    OtherDatesConcat(a, x, date);
    assert OtherDates(a + x, date) == a;
    OtherDatesConcat(a + x, b, date);
  }

  /** Appending an item of a date no queued item has keeps dates unique. */
  lemma AppendKeepsUnique(m: seq<QueueItem>, item: QueueItem)
    requires DatesUnique(m)
    requires forall j :: 0 <= j < |m| ==> m[j].payload.date != item.payload.date
    ensures DatesUnique(m + [item])
  {
    var r := m + [item];
    forall i, j | 0 <= i < j < |r| ensures r[i].payload.date != r[j].payload.date {
      assert r[i] == m[i];
      if j < |m| { assert r[j] == m[j]; }
    }
  }

  /** Filtering a date out keeps dates unique. */
  lemma {:induction false} OtherDatesUnique(q: seq<QueueItem>, date: string)
    requires DatesUnique(q)
    ensures DatesUnique(OtherDates(q, date))
    ensures forall k :: 0 <= k < |OtherDates(q, date)| ==>
      exists j :: 0 <= j < |q| && q[j] == OtherDates(q, date)[k]
    decreases |q|
  {
    if q != [] {
      var rest := q[1..];
      assert forall j :: 0 <= j < |rest| ==> rest[j] == q[j + 1];
      OtherDatesUnique(rest, date);
      var tail := OtherDates(rest, date);
      if q[0].payload.date != date {
        assert OtherDates(q, date) == [q[0]] + tail;
        forall k | 0 <= k < |tail| ensures tail[k].payload.date != q[0].payload.date {
          var j :| 0 <= j < |rest| && rest[j] == tail[k];
          assert q[j + 1] == tail[k];
        }
        var r := [q[0]] + tail;
        forall i, j | 0 <= i < j < |r| ensures r[i].payload.date != r[j].payload.date {
          assert r[j] == tail[j - 1];
          if i > 0 { assert r[i] == tail[i - 1]; }
        }
        forall k | 0 <= k < |r| ensures exists j :: 0 <= j < |q| && q[j] == r[k] {
          if k == 0 { assert q[0] == r[0]; }
          else {
            assert r[k] == tail[k - 1];
            var j :| 0 <= j < |rest| && rest[j] == tail[k - 1];
            assert q[j + 1] == r[k];
          }
        }
      } else {
        assert OtherDates(q, date) == tail;
        forall k | 0 <= k < |tail| ensures exists j :: 0 <= j < |q| && q[j] == tail[k] {
          var j :| 0 <= j < |rest| && rest[j] == tail[k];
          assert q[j + 1] == tail[k];
        }
      }
    }
  }

  /** With dates kept unique, `enqueue` is "latest wins": the other items
      keep their order, the new item is last, dates stay unique, and the
      queue grows by one exactly when the date was not queued yet. */
  lemma EnqueueReplaces(q: seq<QueueItem>, item: QueueItem)
    requires DatesUnique(q)
    ensures var r := Enqueued(q, item);
      r == OtherDates(q, item.payload.date) + [item]
      && DatesUnique(r)
      && |r| == |q| + (if FindDate(q, item.payload.date).Some? then 0 else 1)
  {
    var date := item.payload.date;
    match FindDate(q, date) {
      case None =>
        OtherDatesKeepsAll(q, date);
      case Some(idx) =>
        SpliceIsFilter(q, idx, date);
    }
    OtherDatesUnique(q, date);
    AppendKeepsUnique(OtherDates(q, date), item);
  }

  /** The state the offline queue lives in. */
  datatype QueueState = QueueState(queue: seq<QueueItem>, sending: bool, delivered: seq<Payload>)

  /** Whether the `i`-th `putAttendance` call succeeds; a call with no
      recorded outcome fails. */
  predicate SendOk(outcomes: seq<bool>, i: nat)
  {
    i < |outcomes| && outcomes[i]
  }

  /** How many of the first `n` sends succeed before the first failure. */
  function LeadingSuccesses(outcomes: seq<bool>, n: nat): (k: nat)
    ensures k <= n
    ensures forall j :: 0 <= j < k ==> SendOk(outcomes, j)
    ensures k < n ==> !SendOk(outcomes, k)
  {
    if n == 0 then 0
    else
      var k := LeadingSuccesses(outcomes, n - 1);
      if k == n - 1 && SendOk(outcomes, n - 1) then n else k
  }

  function PayloadsOf(q: seq<QueueItem>): (ps: seq<Payload>)
    ensures |ps| == |q|
    ensures forall k :: 0 <= k < |q| ==> ps[k] == q[k].payload
  {
    if q == [] then [] else [q[0].payload] + PayloadsOf(q[1..])
  }

  /** `flushQueueIfPossible` with a usable connection: items go out front
      first, each removed only after its send succeeded, until the queue is
      empty or a send fails. */
  function Flushed(s: QueueState, online: bool, token: Option<string>, outcomes: seq<bool>): QueueState
  {
    if !online || s.sending || !Filled(token) || s.queue == [] then s
    else
      var k := LeadingSuccesses(outcomes, |s.queue|);
      QueueState(s.queue[k..], false, s.delivered + PayloadsOf(s.queue[..k]))
  }

  /** Flushing loses nothing and reorders nothing: what was delivered,
      followed by what is still queued, is what was queued; the queue is
      emptied exactly when every send succeeded. */
  lemma FlushKeepsOrder(s: QueueState, online: bool, token: Option<string>, outcomes: seq<bool>)
    ensures var t := Flushed(s, online, token, outcomes);
      |t.delivered| >= |s.delivered| && t.delivered[..|s.delivered|] == s.delivered
      && PayloadsOf(s.queue) == t.delivered[|s.delivered|..] + PayloadsOf(t.queue)
      && (online && !s.sending && Filled(token) ==>
            (t.queue == [] <==> forall j :: 0 <= j < |s.queue| ==> SendOk(outcomes, j)))
  {
    var t := Flushed(s, online, token, outcomes);
    if online && !s.sending && Filled(token) && s.queue != [] {
      var k := LeadingSuccesses(outcomes, |s.queue|);
      PayloadsSplit(s.queue, k);
      assert t.delivered[|s.delivered|..] == PayloadsOf(s.queue[..k]);
    } else {
      assert t.delivered[|s.delivered|..] == [];
    }
  }

  lemma PayloadsSplit(q: seq<QueueItem>, k: nat)
    requires k <= |q|
    ensures PayloadsOf(q) == PayloadsOf(q[..k]) + PayloadsOf(q[k..])
  {
    var whole, front, back := PayloadsOf(q), PayloadsOf(q[..k]), PayloadsOf(q[k..]);
    forall i | 0 <= i < |q| ensures whole[i] == (front + back)[i] {
      if i < k {
        assert q[..k][i] == q[i];
      } else {
        assert q[k..][i - k] == q[i];
      }
    }
  }

  /** Delivering the next queued item extends the delivered payloads by it. */
  lemma DeliveredGrows(d0: seq<Payload>, q0: seq<QueueItem>, i: nat)
    requires i < |q0|
    ensures d0 + PayloadsOf(q0[..i + 1]) == d0 + PayloadsOf(q0[..i]) + [q0[i].payload]
  {
    var before, after := PayloadsOf(q0[..i]), PayloadsOf(q0[..i + 1]);
    assert after == before + [q0[i].payload] by {
      forall j | 0 <= j <= i ensures after[j] == (before + [q0[i].payload])[j] {
        assert q0[..i + 1][j] == q0[j];
        if j < i {
          assert q0[..i][j] == q0[j];
        }
      }
    }
    assert d0 + (before + [q0[i].payload]) == d0 + before + [q0[i].payload];
  }

  /** The rest of `onChangeTime`: offline or without a token the payload is
      queued; otherwise it is sent, queued if the send fails, and the queue
      is flushed. */
  function AfterSend(s: QueueState, p: Payload, online: bool, token: Option<string>, putOk: bool,
                     now: int, outcomes: seq<bool>): QueueState
  {
    if !online || !Filled(token) then s.(queue := Enqueued(s.queue, QueueItem(p, now)))
    else
      var s1 := if putOk then s.(delivered := s.delivered + [p]) else s.(queue := Enqueued(s.queue, QueueItem(p, now)));
      Flushed(s1, online, token, outcomes)
  }

  /** A payload is never dropped: after `onChangeTime` it has either been
      delivered or it is the last item of the queue. */
  lemma PayloadNotLost(s: QueueState, p: Payload, online: bool, token: Option<string>, putOk: bool,
                       now: int, outcomes: seq<bool>)
    requires !s.sending
    ensures var t := AfterSend(s, p, online, token, putOk, now, outcomes);
      p in t.delivered || (t.queue != [] && t.queue[|t.queue| - 1] == QueueItem(p, now))
  {
    if online && Filled(token) {
      var item := QueueItem(p, now);
      if putOk {
        var s1 := s.(delivered := s.delivered + [p]);
        FlushKeepsOrder(s1, online, token, outcomes);
        assert p == s1.delivered[|s1.delivered| - 1];
      } else {
        var s1 := s.(queue := Enqueued(s.queue, item));
        EnqueuedLast(s.queue, item);
        FlushedKeepsLast(s1, online, token, outcomes, item);
      }
    }
  }

  lemma EnqueuedLast(q: seq<QueueItem>, item: QueueItem)
    ensures var r := Enqueued(q, item); r != [] && r[|r| - 1] == item
  {
  }

  /** The last queued item is, after a flush, delivered or still last. */
  lemma FlushedKeepsLast(s: QueueState, online: bool, token: Option<string>, outcomes: seq<bool>, item: QueueItem)
    requires online && !s.sending && Filled(token)
    requires s.queue != [] && s.queue[|s.queue| - 1] == item
    ensures var t := Flushed(s, online, token, outcomes);
      item.payload in t.delivered || (t.queue != [] && t.queue[|t.queue| - 1] == item)
  {
    var q := s.queue;
    var k := LeadingSuccesses(outcomes, |q|);
    var t := Flushed(s, online, token, outcomes);
    assert t.queue == q[k..];
    if k == |q| {
      assert q[..k] == q;
      assert PayloadsOf(q)[|q| - 1] == item.payload;
      assert t.delivered[|s.delivered| + |q| - 1] == item.payload;
    } else {
      assert t.queue[|t.queue| - 1] == q[|q| - 1];
    }
  }

  // --------------------------------------------------------- page state

  /** The employee page: the month's rows, the lock flag, the in-memory
      queue, the `sending` flag, and every payload the server accepted. */
  class EmployeeSheet {
    var rows: seq<DayRow>
    var monthLocked: bool
    var queue: seq<QueueItem>
    var sending: bool
    var delivered: seq<Payload>

    constructor ()
      ensures rows == [] && !monthLocked && queue == [] && !sending && delivered == []
    {
      rows, monthLocked, queue, sending, delivered := [], false, [], false, [];
    }

    function State(): QueueState
      reads this
    {
      QueueState(queue, sending, delivered)
    }

    /** `enqueue`: splice out the queued item of the same date, push the new one. */
    method Enqueue(item: QueueItem)
      modifies this`queue
      ensures queue == Enqueued(old(queue), item)
    {
      var idx := FindDate(queue, item.payload.date);
      if idx.Some? {
        queue := queue[..idx.value] + queue[idx.value + 1..];
      }
      queue := queue + [item];
    }

    /** `flushQueueIfPossible`: while the queue is not empty send its front
      item and shift it off; a failed send keeps it and everything behind it. */
    method FlushQueueIfPossible(online: bool, token: Option<string>, outcomes: seq<bool>)
      modifies this`queue, this`sending, this`delivered
      ensures State() == Flushed(old(State()), online, token, outcomes)
    {
      if !online || sending || !Filled(token) || |queue| == 0 {
        return;
      }
      sending := true;
      ghost var q0 := queue;
      ghost var d0 := delivered;
      var i := 0;
      while |queue| > 0
        invariant 0 <= i <= |q0| && queue == q0[i..]
        invariant delivered == d0 + PayloadsOf(q0[..i])
        invariant forall j :: 0 <= j < i ==> SendOk(outcomes, j)
        decreases |queue|
      {
        var item := queue[0];
        if !SendOk(outcomes, i) {
          // `putAttendance` threw: keep the remaining items
          break;
        }
        assert item == q0[i];
        DeliveredGrows(d0, q0, i);
        delivered := delivered + [item.payload];
        queue := queue[1..];
        i := i + 1;
      }
      LeadingSuccessesIs(outcomes, |q0|, i);
      sending := false;
    }

    /** `onChangeTime`: the optimistic row update, then the send or the queue. */
    method OnChangeTime(date: string, field: TimeField, value: string, online: bool, token: Option<string>,
                        putOk: bool, now: int, outcomes: seq<bool>)
      modifies this`rows, this`queue, this`sending, this`delivered
      ensures monthLocked == old(monthLocked)
      ensures match ChangeTime(old(rows), old(monthLocked), date, field, value)
        case Ignored => rows == old(rows) && State() == old(State())
        case Applied(newRows, payload) =>
          rows == newRows && State() == AfterSend(old(State()), payload, online, token, putOk, now, outcomes)
    {
      var change := ChangeTime(rows, monthLocked, date, field, value);
      if change.Ignored? {
        return;
      }
      rows := change.rows;
      Send(change.payload, online, token, putOk, now, outcomes);
    }

    /** The network half of `onChangeTime`. */
    method Send(payload: Payload, online: bool, token: Option<string>, putOk: bool, now: int, outcomes: seq<bool>)
      modifies this`queue, this`sending, this`delivered
      ensures State() == AfterSend(old(State()), payload, online, token, putOk, now, outcomes)
    {
      if !online || !Filled(token) {
        Enqueue(QueueItem(payload, now));
        return;
      }
      if putOk {
        delivered := delivered + [payload];
      } else {
        Enqueue(QueueItem(payload, now));
      }
      FlushQueueIfPossible(online, token, outcomes);
    }

    /** `handlePunchNow` at clock time `hour:minute`. */
    method HandlePunchNow(today: string, hour: int, minute: int, online: bool, token: Option<string>,
                          putOk: bool, now: int, outcomes: seq<bool>)
      requires 0 <= hour <= 23 && 0 <= minute <= 59
      modifies this
      ensures monthLocked == old(monthLocked)
      ensures match PunchTarget(old(rows), old(monthLocked), today)
        case Write(field) =>
          var change := ChangeTime(old(rows), false, today, field, Clock(hour, minute));
          rows == SetTime(old(rows), today, field, Some(Clock(hour, minute)))
          && change.Applied? && State() == AfterSend(old(State()), change.payload, online, token, putOk, now, outcomes)
        case _ => rows == old(rows) && State() == old(State())
    {
      var target := PunchTarget(rows, monthLocked, today);
      if target.Write? {
        var clock := Clock(hour, minute);
        PunchTimeAccepted(rows, today, target.field, hour, minute);
        ghost var change := ChangeTime(rows, false, today, target.field, clock);
        assert !monthLocked && change.Applied?;
        OnChangeTime(today, target.field, clock, online, token, putOk, now, outcomes);
      }
    }
  }

  /** The loop's stopping point is the count of leading successes. */
  lemma LeadingSuccessesIs(outcomes: seq<bool>, n: nat, i: nat)
    requires i <= n
    requires forall j :: 0 <= j < i ==> SendOk(outcomes, j)
    requires i < n ==> !SendOk(outcomes, i)
    ensures LeadingSuccesses(outcomes, n) == i
  {
  }

  // -------------------------------------------------------- working fund

  /** `workingFundHours`: the month text split at `-`, both halves read
      with `parseInt`, 0 unless both are numbers, else 8 hours per
      working day. */
  function WorkingFundHours(month: string): (h: int)
    ensures h >= 0
  {
    var parts := SplitOn(month, '-');
    var y := ParseIntText(parts[0]);
    var m := if |parts| >= 2 then ParseIntText(parts[1]) else None;
    if y.None? || m.None? then 0 else WorkingDaysOf(y.value, m.value) * 8
  }

  /** On a `YYYY-MM` text the fund is 8 hours per working day of that month. */
  lemma WorkingFundOfMonthText(month: string)
    requires |month| == 7 && AllDigits(month[..4]) && month[4] == '-' && AllDigits(month[5..])
    ensures WorkingFundHours(month) == 8 * WorkingDaysOf(DigitsValue(month[..4]), DigitsValue(month[5..]))
  {
    var head, tail := month[..4], month[5..];
    assert month == head + ['-'] + tail;
    assert '-' !in head && '-' !in tail by {
      assert forall k :: 0 <= k < |head| ==> IsDigit(head[k]);
      assert forall k :: 0 <= k < |tail| ==> IsDigit(tail[k]);
    }
    SplitOnTwo(head, '-', tail);
    ParseIntOfDigits(head);
    ParseIntOfDigits(tail);
  }

  /** A text with no `-` has no month part: the fund is 0. */
  lemma WorkingFundWithoutMonth(month: string)
    requires '-' !in month
    ensures WorkingFundHours(month) == 0
  {
  }
}
