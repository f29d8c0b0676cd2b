/**
 * The day rows both attendance pages edit (`DayRow` in
 * `src/pages/EmployeePage.tsx`, `AdminAttendanceDay` in
 * `src/api/adminAttendance.ts`): the row lookup and the optimistic update
 * of one time field.
 */
module DayRows {
  import opened Options
  import opened DayCalc

  /** One day of a sheet, the shape the attendance engine reads. */
  type DayRow = AttendanceRow

  datatype TimeField = ArrivalTime | DepartureTime

  function FieldOf(r: DayRow, field: TimeField): Option<string>
  {
    if field == ArrivalTime then r.arrivalTime else r.departureTime
  }

  function OtherField(field: TimeField): TimeField
  {
    if field == ArrivalTime then DepartureTime else ArrivalTime
  }

  /** `rows.find((r) => r.date === date)`: the first row of that date. */
  function FindRow(rows: seq<DayRow>, date: string): (r: Option<DayRow>)
    ensures r.Some? ==> r.value.date == date && r.value in rows
    ensures r.Some? ==> exists k :: 0 <= k < |rows| && rows[k] == r.value && forall j :: 0 <= j < k ==> rows[j].date != date
    ensures r.None? <==> forall k :: 0 <= k < |rows| ==> rows[k].date != date
  {
    if rows == [] then None
    else if rows[0].date == date then Some(rows[0])
    else
      var r := FindRow(rows[1..], date);
      assert forall k :: 0 < k < |rows| ==> rows[1..][k - 1] == rows[k];
      if r.Some? then
        var k :| 0 <= k < |rows| - 1 && rows[1..][k] == r.value && forall j :: 0 <= j < k ==> rows[1..][j].date != date;
        assert rows[k + 1] == r.value;
        r
      else r
  }

  /** `{ ...r, [field]: v }`. */
  function WithField(r: DayRow, field: TimeField, v: Option<string>): (n: DayRow)
    ensures n.date == r.date && FieldOf(n, field) == v && FieldOf(n, OtherField(field)) == FieldOf(r, OtherField(field))
  {
    if field == ArrivalTime then r.(arrivalTime := v) else r.(departureTime := v)
  }

  /** The optimistic update `rows.map(...)`: the rows of `date` get `v` in
      `field` and keep their other field; every other row is unchanged. */
  function SetTime(rows: seq<DayRow>, date: string, field: TimeField, v: Option<string>): (r: seq<DayRow>)
    ensures |r| == |rows|
    ensures forall i :: 0 <= i < |rows| && rows[i].date != date ==> r[i] == rows[i]
    ensures forall i :: 0 <= i < |rows| && rows[i].date == date ==>
      r[i].date == date && FieldOf(r[i], field) == v && FieldOf(r[i], OtherField(field)) == FieldOf(rows[i], OtherField(field))
  {
    seq(|rows|, i requires 0 <= i < |rows| => if rows[i].date != date then rows[i] else WithField(rows[i], field, v))
  }

  /** `normalized === "" ? null : normalized`. */
  function StoredValue(normalized: string): (v: Option<string>)
    ensures v.None? <==> normalized == ""
    ensures v.Some? ==> v.value == normalized
  {
    if normalized == "" then None else Some(normalized)
  }
}
