/** ECMAScript Date objects, as far as createDateRange uses them: a mutable
    object holding a time value, which is either NaN (an "Invalid Date", what
    `new Date(text)` produces for text the host cannot parse) or a local
    date-time. */
module Dates {
  import opened Calendar

  /** The [[DateValue]] internal slot of a Date. */
  datatype DateValue = InvalidDate | At(t: LocalDateTime)

  /** `a <= b` on two Dates: both are converted to their time values and
      compared as numbers; a comparison involving NaN is false. */
  predicate LessEq(a: DateValue, b: DateValue) {
    a.At? && b.At? && TimeValue(a.t) <= TimeValue(b.t)
  }

  /** The value `d.setDate(d.getDate() + 1)` leaves in a Date d: for a valid
      date the next calendar day at the same local time; for an invalid one
      getDate() is NaN and so is the result. */
  function AdvanceDay(v: DateValue): (w: DateValue)
    ensures w.At? <==> v.At?
    ensures v.At? ==> w.t.msOfDay == v.t.msOfDay
  {
    match v
    case InvalidDate => InvalidDate
    case At(t) => At(NextDay(t))
  }

  /** Advancing a valid date by one calendar day raises its time value by
      exactly msPerDay, so it is later, and never at or before itself. */
  lemma AdvanceDayIsLater(v: DateValue)
    requires v.At?
    ensures AdvanceDay(v).At?
    ensures TimeValue(AdvanceDay(v).t) == TimeValue(v.t) + MsPerDay
    ensures !LessEq(AdvanceDay(v), v) && LessEq(v, AdvanceDay(v))
  {
    NextDayIsOneDayLater(v.t);
  }

  class Date {
    var value: DateValue

    /** `new Date(other)`: a fresh Date holding the same time value. */
    constructor Copy(other: Date)
      ensures value == other.value
    {
      value := other.value;
    }

    /** `this.setDate(this.getDate() + 1)`. */
    method AdvanceToNextDay()
      modifies this
      ensures value == AdvanceDay(old(value))
    {
      value := AdvanceDay(value);
    }
  }
}
