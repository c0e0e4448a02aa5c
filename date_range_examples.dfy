/** Concrete ranges: month, year and leap-day rollover, reversed bounds, and
    a bound whose time of day cuts the range short. */
module DateRangeExamples {
  import opened Calendar
  import opened Dates
  import opened DateRange

  /** 2023-01-30 .. 2023-02-02 at midnight: four days across a month end. */
  lemma MonthRollover()
    ensures Range(At(Fields(2023, 0, 30, 0)), At(Fields(2023, 1, 2, 0))) ==
      [At(Fields(2023, 0, 30, 0)), At(Fields(2023, 0, 31, 0)),
       At(Fields(2023, 1, 1, 0)), At(Fields(2023, 1, 2, 0))]
  {
  }

  /** 2024 is a leap year: February 29 lies between February 28 and March 1,
      here at noon. */
  lemma LeapDay()
    ensures Range(At(Fields(2024, 1, 28, 43200000)), At(Fields(2024, 2, 1, 43200000))) ==
      [At(Fields(2024, 1, 28, 43200000)), At(Fields(2024, 1, 29, 43200000)),
       At(Fields(2024, 2, 1, 43200000))]
  {
  }

  /** 2100 is not a leap year: March 1 follows February 28. */
  lemma CenturyNotLeap()
    ensures Range(At(Fields(2100, 1, 28, 0)), At(Fields(2100, 2, 1, 0))) ==
      [At(Fields(2100, 1, 28, 0)), At(Fields(2100, 2, 1, 0))]
  {
  }

  /** December 31 rolls over to January 1 of the next year. */
  lemma YearRollover()
    ensures Range(At(Fields(2023, 11, 31, 0)), At(Fields(2024, 0, 1, 0))) ==
      [At(Fields(2023, 11, 31, 0)), At(Fields(2024, 0, 1, 0))]
  {
  }

  /** Reversed bounds give an empty range. */
  lemma ReversedBounds()
    ensures Range(At(Fields(2023, 4, 10, 0)), At(Fields(2023, 4, 1, 0))) == []
  {
  }

  /** The time of day is kept: with `start` at 10:00 and `end` at 09:00 two
      days later, the last day is not reached. */
  lemma TimeOfDayCutoff()
    ensures Range(At(Fields(2023, 0, 30, 36000000)), At(Fields(2023, 1, 1, 32400000))) ==
      [At(Fields(2023, 0, 30, 36000000)), At(Fields(2023, 0, 31, 36000000))]
  {
  }
}
