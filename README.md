# Dashboard date range

A model of `createDateRange` from the dashboard's Stimulus controller. The controller is given two JavaScript `Date` objects, `start` and `end`, and it:

- resets its `array` field to an empty list,
- copies `start` into a cursor,
- while `cursor <= end`, pushes a fresh copy of the cursor and moves the cursor one calendar day forward with `setDate(getDate() + 1)`,
- returns the field.

The project has five modules:

- `Calendar` (`calendar.dfy`) models ECMAScript's Gregorian date arithmetic, as ECMA-262 (ES2022) section 21.4.1 defines it:
  - `DaysInYear` and `DayFromYear` (section 21.4.1.3),
  - the month table of MonthFromTime (section 21.4.1.4),
  - the day number of MakeDay (section 21.4.1.12),
  - the time value of MakeDate.

  A date-time is held as its local fields (year, month 0-11, day of month, milliseconds since midnight). `NextDay` is the effect of `setDate(getDate() + 1)` (section 21.4.4.20): a day that overflows rolls into the next month or year.
- `Dates` (`dates.dfy`) holds the `Date` object. It is a class whose `value` field is either an invalid date (NaN) or a local date-time. The module also defines `<=` on date values and the in-place `setDate(getDate() + 1)`.
- `DateRange` (`date_range.dfy`) defines `Range`, the sequence the loop collects, as a recursive function, and proves the range's properties about it.
- `Dashboard` (`dashboard_controller.dfy`) holds the controller class. Its field `dateArray` stands for `this.array`, because `array` is a reserved word in Dafny. `CreateDateRange` is the imperative loop, proved against `Range`.
- `DateRangeExamples` (`date_range_examples.dfy`) holds concrete ranges.

Two behaviours of the code are worth stating:

- **Unparseable input.** `createDateRange` raises no error. `new Date(text)` gives an Invalid Date (NaN), and `NaN <= end` is false, so the loop body never runs and the result is empty. The model says the same: the result is empty whenever either bound is `InvalidDate` (`RangeLength`).
- **Time of day.** The code does not move the bounds to midnight, so the model keeps the time of day:
  - every element has `start`'s time of day;
  - the last element is the last day that is still at or before `end` (`RangeMaximal`, `TimeOfDayCutoff`);
  - the length is the whole number of days from `start` to `end`, rounded down, plus one (`RangeLength`).

## Model

| member | source | states |
|---|---|---|
| `Calendar.DaysInYear` | assets/src/controllers/dashboard_controller.js:46 | A year has 365 or 366 days, and 366 exactly when it is divisible by 4 and either not by 100 or by 400 (the Gregorian rule that `setDate` rolls over with) |
| `Calendar.DaysInMonth` | assets/src/controllers/dashboard_controller.js:46 | A month has 28 to 31 days, and February has 29 exactly in a leap year |
| `Calendar.MonthStart` | assets/src/controllers/dashboard_controller.js:46 | ECMAScript's table of the day within the year on which each month begins. No contract of its own; `MonthLengthsMatchTable` ties it to the month lengths, and `DayWithinYear` and `NextDayIsOneDayLater` use it |
| `Calendar.MonthLengthsMatchTable` | assets/src/controllers/dashboard_controller.js:46 | Each month begins where the previous one ends (`DaysInMonth` agrees with the MonthFromTime table), and the twelve months make up `DaysInYear` |
| `Calendar.DayFromYear` | assets/src/controllers/dashboard_controller.js:44-46 | ECMAScript's closed form for the day number of January 1. No contract of its own; specified by `DayFromYearStep` and `DayFromYearMonotone` |
| `Calendar.Day` | assets/src/controllers/dashboard_controller.js:44-46 | The day number MakeDay computes from year, month and date. No contract of its own; specified by `DayWithinYear` and `NextDayIsOneDayLater` |
| `Calendar.TimeValue` | assets/src/controllers/dashboard_controller.js:44 | The time value that `<=` compares, as MakeDate computes it. No contract of its own; specified by `NextDayIsOneDayLater`, `TimeOrderIsLexicographic` and `TimeValueInjective` |
| `Calendar.NextDay` | assets/src/controllers/dashboard_controller.js:46 | The next calendar day is a well-formed date at the same time of day |
| `Calendar.DayFromYearStep` | assets/src/controllers/dashboard_controller.js:46 | ECMAScript's closed form for the first day of a year advances by exactly the length of each year, so December 31 rolls over to January 1 |
| `Calendar.DayFromYearMonotone` | assets/src/controllers/dashboard_controller.js:44 | Later years start later; a year starts no earlier than the end of every earlier year |
| `Calendar.DayWithinYear` | assets/src/controllers/dashboard_controller.js:44 | A date's day number lies inside its year and before the start of its next month |
| `Calendar.NextDayIsOneDayLater` | assets/src/controllers/dashboard_controller.js:46 | `setDate(getDate() + 1)` raises the day number by one and the time value by exactly msPerDay, including across month and year ends |
| `Calendar.EarlierFieldsEarlierTime` | assets/src/controllers/dashboard_controller.js:44 | A lexicographically earlier date-time has a strictly smaller time value |
| `Calendar.TimeOrderIsLexicographic` | assets/src/controllers/dashboard_controller.js:44 | Comparing two date-times by time value, as `date <= end` does, is the same as comparing year, month, day and time of day lexicographically |
| `Calendar.TimeValueInjective` | assets/src/controllers/dashboard_controller.js:44 | Two date-times with the same time value are equal |
| `Dates.LessEq` | assets/src/controllers/dashboard_controller.js:44 | `date <= end`: false when either value is NaN, otherwise a comparison of time values. No contract of its own; `TimeOrderIsLexicographic` ties it to the order of the calendar fields |
| `Dates.AdvanceDay` | assets/src/controllers/dashboard_controller.js:46 | `setDate(getDate() + 1)` keeps a valid date valid with the same time of day, and keeps an invalid date invalid |
| `Dates.AdvanceDayIsLater` | assets/src/controllers/dashboard_controller.js:44-46 | The advanced cursor is strictly later by one day, so it is never `<=` its old value: the loop makes progress |
| `Dates.Date.Copy` | assets/src/controllers/dashboard_controller.js:42-45 | `new Date(d)` is a new object holding the same time value as `d` |
| `Dates.Date.AdvanceToNextDay` | assets/src/controllers/dashboard_controller.js:46 | The cursor's value becomes the next calendar day, changing only that object |
| `DateRange.Range` | assets/src/controllers/dashboard_controller.js:44-47 | The loop written as a recursive function: while the cursor is `<= end`, the cursor, then the range from the next day. No contract of its own; specified by `RangeLength`, `RangeElement`, `RangeSteps`, `RangeWithinBounds`, `RangeMaximal` and, completely, `RangeUnique` |
| `DateRange.RangeLength` | assets/src/controllers/dashboard_controller.js:41-47 | The range is empty exactly when `start <= end` fails (reversed bounds or an invalid date); otherwise its length is the number of whole days from `start` to `end` plus one |
| `DateRange.RangeElement` | assets/src/controllers/dashboard_controller.js:42-46 | Element i is a valid date exactly i days after `start`, at `start`'s time of day |
| `DateRange.RangeFirst` | assets/src/controllers/dashboard_controller.js:42-45 | If `start <= end`, the first element is `start` itself |
| `DateRange.RangeSteps` | assets/src/controllers/dashboard_controller.js:44-46 | Each element after the first is the calendar day after its predecessor |
| `DateRange.RangeIncreasing` | assets/src/controllers/dashboard_controller.js:44-46 | The range is strictly increasing, so no date occurs twice |
| `DateRange.RangeWithinBounds` | assets/src/controllers/dashboard_controller.js:44 | Every element is at or after `start` and at or before `end` |
| `DateRange.RangeMaximal` | assets/src/controllers/dashboard_controller.js:44 | The calendar day after the last element is not `<= end`, so the range cannot be extended |
| `DateRange.RangeSingleton` | assets/src/controllers/dashboard_controller.js:42-46 | From a valid date to itself the range is exactly that one date |
| `DateRange.RangeUnique` | assets/src/controllers/dashboard_controller.js:40-50 | Any sequence that is empty exactly when `start <= end` fails, begins at `start`, steps one day at a time, stays `<= end` and is maximal is the range: together these properties determine it |
| `Dashboard.DashboardController.CreateDateRange` | assets/src/controllers/dashboard_controller.js:40-50 | The returned list and the `array` field are the same list. The list's values are the range from `start` to `end`, element by element, with no trace of earlier calls. Every element is a fresh, distinct `Date`, so later `setDate` calls do not change it. `start` and `end` are unchanged |
| `DateRangeExamples.MonthRollover` | assets/src/controllers/dashboard_controller.js:40-50 | 2023-01-30 to 2023-02-02 gives the four days Jan 30, Jan 31, Feb 1, Feb 2 |
| `DateRangeExamples.LeapDay` | assets/src/controllers/dashboard_controller.js:40-50 | 2024-02-28 to 2024-03-01 includes February 29, at the bounds' time of day |
| `DateRangeExamples.CenturyNotLeap` | assets/src/controllers/dashboard_controller.js:40-50 | 2100-02-28 is followed directly by 2100-03-01 |
| `DateRangeExamples.YearRollover` | assets/src/controllers/dashboard_controller.js:40-50 | 2023-12-31 to 2024-01-01 gives those two days |
| `DateRangeExamples.ReversedBounds` | assets/src/controllers/dashboard_controller.js:40-50 | 2023-05-10 to 2023-05-01 gives no days |
| `DateRangeExamples.TimeOfDayCutoff` | assets/src/controllers/dashboard_controller.js:40-50 | With `start` at 10:00 and `end` two days later at 09:00, the range stops one day short of `end`'s date |

## Left out

- `connect` (assets/src/controllers/dashboard_controller.js:17-33) is left out. It reads the controller's targets and data attributes from the page, logs to the console, and parses `innerHTML` with `new Date(text)`. That parsing depends on the host. The model takes the resulting `Date` objects as parameters; a text that fails to parse becomes `InvalidDate`.
- `strToDate` (lines 35-38) is left out. It is a call into the moment library.
- `loadTrafficImpressionsChart` and `loadTrafficClicksChart` (lines 52-127) are left out. They build Chart.js charts from hard-coded data through lodash.
- The static `targets` list (lines 7-15) is left out. It is configuration for the Stimulus framework.
- Time zones and daylight saving (LocalTZA) are left out. The model assumes a local time zone with a fixed offset. There, `setDate` keeps the time of day and moves the time value by exactly one day (`NextDayIsOneDayLater`). Across a daylight-saving change the real time value moves by 23 or 25 hours; that is not modelled.
- TimeClip, the limit of ±8.64e15 ms on time values, is left out. The model's integers are unbounded. Past the last representable day, JavaScript's cursor becomes NaN, while the model's cursor becomes a date after `end`. Either way the loop stops with the same elements.
- `setDate` with an arbitrary day number is left out. It needs the inverse of MakeDay (YearFromTime, MonthFromTime). Only the form `setDate(getDate() + 1)` from line 46 is modelled (`Dates.AdvanceDay`, `Dates.Date.AdvanceToNextDay`).
- Calling `createDateRange` with arguments that are not `Date` objects is left out. `connect` always passes `Date` objects.
- `Dashboard.DashboardController.CreateDateRange`: the `array` field is modelled as a sequence value. In JavaScript the field and the returned array are one array object, so a later `push` through either would show in both; that aliasing is not captured. Here the result is only equal in value to the field.
- Idempotence is not stated as a separate lemma: `CreateDateRange`'s result is fixed by the values of `start` and `end`. Two calls with the same inputs therefore give lists with the same values, element by element.
