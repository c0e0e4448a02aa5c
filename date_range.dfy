/** The sequence of values that createDateRange collects, as a function of
    its two bounds, and what is known about it. */
module DateRange {
  import opened Calendar
  import opened Dates

  /** Termination measure of the range: the milliseconds the cursor still has
      to cover before passing `end`. */
  function Gap(cursor: DateValue, end: DateValue): nat {
    if LessEq(cursor, end) then TimeValue(end.t) - TimeValue(cursor.t) + 1 else 0
  }

  /** The values pushed, in order, by the loop started with `cursor`:
      while `cursor <= end`, a copy of the cursor, then the next day. */
  function Range(cursor: DateValue, end: DateValue): seq<DateValue>
    decreases Gap(cursor, end)
  {
    if LessEq(cursor, end) then
      AdvanceDayIsLater(cursor);
      [cursor] + Range(AdvanceDay(cursor), end)
    else
      []
  }

  /** Whole days from `start` to `end`, rounded down. */
  function DaysBetween(start: LocalDateTime, end: LocalDateTime): int {
    (TimeValue(end) - TimeValue(start)) / MsPerDay
  }

  /** The range is empty exactly when `start <= end` fails (reversed bounds or
      an Invalid Date); otherwise it has one element per whole day from
      `start` to `end`, plus one. */
  lemma {:induction false} RangeLength(start: DateValue, end: DateValue)
    ensures Range(start, end) == [] <==> !LessEq(start, end)
    ensures LessEq(start, end) ==> |Range(start, end)| == DaysBetween(start.t, end.t) + 1
    decreases Gap(start, end)
  {
    if LessEq(start, end) {
      var next := AdvanceDay(start);
      AdvanceDayIsLater(start);
      RangeLength(next, end);
      var d := TimeValue(end.t) - TimeValue(start.t);
      if LessEq(next, end) {
        assert DaysBetween(next.t, end.t) == (d - MsPerDay) / MsPerDay;
        assert (d - MsPerDay) / MsPerDay + 1 == d / MsPerDay;
      } else {
        assert 0 <= d < MsPerDay;
      }
    }
  }

  /** Element i of the range is `start` moved i whole days forward: a valid
      date at the same time of day, i * msPerDay after `start`. */
  lemma {:induction false} RangeElement(start: DateValue, end: DateValue, i: nat)
    requires i < |Range(start, end)|
    ensures start.At? && Range(start, end)[i].At?
    ensures TimeValue(Range(start, end)[i].t) == TimeValue(start.t) + i * MsPerDay
    ensures Range(start, end)[i].t.msOfDay == start.t.msOfDay
    decreases Gap(start, end)
  {
    var next := AdvanceDay(start);
    AdvanceDayIsLater(start);
    if i > 0 {
      RangeElement(next, end, i - 1);
      assert Range(start, end)[i] == Range(next, end)[i - 1];
    }
  }

  /** The range starts at `start` itself, time of day included. */
  lemma RangeFirst(start: DateValue, end: DateValue)
    requires LessEq(start, end)
    ensures Range(start, end) != [] && Range(start, end)[0] == start
  {
  }

  /** Each element after the first is the calendar day after its
      predecessor. */
  lemma {:induction false} RangeSteps(start: DateValue, end: DateValue, i: nat)
    requires 0 < i < |Range(start, end)|
    ensures Range(start, end)[i] == AdvanceDay(Range(start, end)[i - 1])
    decreases Gap(start, end)
  {
    var next := AdvanceDay(start);
    AdvanceDayIsLater(start);
    if i > 1 {
      RangeSteps(next, end, i - 1);
    }
  }

  /** The range is strictly increasing, so it holds no date twice. */
  lemma RangeIncreasing(start: DateValue, end: DateValue, i: nat, j: nat)
    requires i < j < |Range(start, end)|
    ensures LessEq(Range(start, end)[i], Range(start, end)[j])
    ensures !LessEq(Range(start, end)[j], Range(start, end)[i])
    ensures Range(start, end)[i] != Range(start, end)[j]
  {
    RangeElement(start, end, i);
    RangeElement(start, end, j);
  }

  /** Every element lies between `start` and `end`, inclusive. */
  lemma {:induction false} RangeWithinBounds(start: DateValue, end: DateValue, i: nat)
    requires i < |Range(start, end)|
    ensures LessEq(start, Range(start, end)[i]) && LessEq(Range(start, end)[i], end)
    decreases Gap(start, end)
  {
    var next := AdvanceDay(start);
    AdvanceDayIsLater(start);
    if i > 0 {
      RangeWithinBounds(next, end, i - 1);
    }
  }

  /** The range is maximal: the day after its last element is past `end`. */
  lemma {:induction false} RangeMaximal(start: DateValue, end: DateValue)
    requires Range(start, end) != []
    ensures !LessEq(AdvanceDay(Range(start, end)[|Range(start, end)| - 1]), end)
    decreases Gap(start, end)
  {
    var next := AdvanceDay(start);
    AdvanceDayIsLater(start);
    if Range(next, end) != [] {
      RangeMaximal(next, end);
    }
  }

  /** A range from a valid date to itself is that one date. */
  lemma RangeSingleton(d: DateValue)
    requires d.At?
    ensures Range(d, d) == [d]
  {
    AdvanceDayIsLater(d);
  }

  /** The properties above pin the range down: a sequence that is empty
      exactly when `start <= end` fails, begins at `start`, steps one calendar
      day at a time, stays at or before `end` and cannot be extended is the
      range. */
  lemma {:induction false} RangeUnique(start: DateValue, end: DateValue, s: seq<DateValue>)
    requires s == [] <==> !LessEq(start, end)
    requires s != [] ==> s[0] == start
    requires forall i :: 0 < i < |s| ==> s[i] == AdvanceDay(s[i - 1])
    requires forall i :: 0 <= i < |s| ==> LessEq(s[i], end)
    requires s != [] ==> !LessEq(AdvanceDay(s[|s| - 1]), end)
    ensures s == Range(start, end)
    decreases |s|
  {
    if s != [] {
      var next := AdvanceDay(start);
      AdvanceDayIsLater(start);
      var tail := s[1..];
      assert s == [start] + tail;
      forall i | 0 < i < |tail|
        ensures tail[i] == AdvanceDay(tail[i - 1])
      {
        assert tail[i] == s[i + 1] && tail[i - 1] == s[i];
      }
      forall i | 0 <= i < |tail|
        ensures LessEq(tail[i], end)
      {
        assert tail[i] == s[i + 1];
      }
      if tail == [] {
        assert !LessEq(next, end);
      } else {
        assert tail[0] == next by { assert s[1] == AdvanceDay(s[0]); }
        assert tail[|tail| - 1] == s[|s| - 1];
      }
      RangeUnique(next, end, tail);
      assert s == [start] + tail;
    }
  }
}
