/** The dashboard controller's date-range construction. The controller's
    chart and DOM wiring is not part of this model. */
module Dashboard {
  import opened Dates
  import opened DateRange

  class DashboardController {
    /** The controller's `array` field (a reserved word in Dafny), which createDateRange fills. */
    var dateArray: seq<Date>

    /** createDateRange(start, end): resets `array`, walks a copy of `start`
        forward one calendar day at a time while it is `<= end`, pushing a
        fresh copy of it each time, and returns `array`. */
    method CreateDateRange(start: Date, end: Date) returns (r: seq<Date>)
      modifies this
      ensures dateArray == r
      ensures |r| == |Range(old(start.value), old(end.value))|
      ensures forall i :: 0 <= i < |r| ==> r[i].value == Range(old(start.value), old(end.value))[i]
      ensures forall i :: 0 <= i < |r| ==> fresh(r[i])
      ensures forall i, j :: 0 <= i < j < |r| ==> r[i] != r[j]
      ensures unchanged(start, end)
    {
      ghost var whole := Range(start.value, end.value);
      dateArray := [];
      var date := new Date.Copy(start);
      ghost var done: seq<DateValue> := [];
      while LessEq(date.value, end.value)
        invariant fresh(date)
        invariant unchanged(start, end)
        invariant |dateArray| == |done|
        invariant forall i :: 0 <= i < |dateArray| ==> fresh(dateArray[i]) && dateArray[i] != date
        invariant forall i, j :: 0 <= i < j < |dateArray| ==> dateArray[i] != dateArray[j]
        invariant forall i :: 0 <= i < |dateArray| ==> dateArray[i].value == done[i]
        invariant done + Range(date.value, end.value) == whole
        decreases Gap(date.value, end.value)
      {
        ghost var v := date.value;
        AdvanceDayIsLater(v);
        assert Range(v, end.value) == [v] + Range(AdvanceDay(v), end.value);
        var copy := new Date.Copy(date);
        dateArray := dateArray + [copy];
        done := done + [v];
        date.AdvanceToNextDay();
        assert done + Range(date.value, end.value) == whole;
      }
      assert done == whole;
      r := dateArray;
    }
  }
}
