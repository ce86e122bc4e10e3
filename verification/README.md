# Loan interest calculator: a Dafny model

The calculator is an interactive command-line program. It asks for a loan: start and end dates, an amount, a base rate and a margin. It then prints one simple-interest record per calendar day and keeps every result in a session history. That history can be viewed and overwritten by id.

This project models the program's core as pure Dafny functions and methods, and proves what that core promises. The core has four parts:

- **The accrual schedule** (`LoanInterest`). This covers `simpleDailyInterest` and `generateLoanOutput`. Record `i` carries:
  - the day index `i`;
  - the `YYYY-MM-DD` text of day `start + i`;
  - the daily interest with and without the margin;
  - the cumulative interest `interest * (i + 1)`.

  The loop is `BuildSchedule`. It takes the date formatter as a parameter, so that its `throw` branch is modelled as a real error path. `GenerateLoanOutput` instantiates it with the `toISOString` date text and proves that the error branch is dead.
- **Dates** (`Calendar`, `DateText`, `Decimal`).
  - A date is a whole-day number. Day 0 is 1970-01-01, the UTC midnight that JavaScript time value 0 falls on.
  - The calendar is the proleptic Gregorian one (`DaysFromCivil` / `CivilFromDays`).
  - `FormatDay` is the date part of `toISOString`, i.e. the ISO 8601-1 calendar-date extended format of section 5.2.2.1. Years outside 0..9999 use the expanded `±YYYYYY` form.
  - `ParseDate` is `parseDate`: the `^\d{4}-\d{2}-\d{2}$` test, `new Date`, and the check that the string formats back to itself.
- **Input validation** (`LoanInput`). This is the check sequence inside `getLoanDetails`, returning either the loan or the first check that failed.
- **The history store** (`History`). It covers three things:
  - append under the sequential id `(length + 1).toString()`;
  - `find` / `findIndex` by id;
  - the in-place replacement of a found entry's output.

Money and rates are `real`. `DaysInYear` stands for `DAYS_IN_YEAR`, which the program imports from `src/constants.ts`. That file is not part of this model, so `DaysInYear` is an unspecified positive constant (365 by convention), and no property depends on its value.

Two behaviours of the program shape the model:

- **Accrual dates.** The program calls `setDate` on a local-time `Date` and formats the result in UTC. The model adds day numbers, which gives the same dates whenever the host time zone is UTC (see "Left out").
- **Invalid numbers.** `getLoanDetails` rejects `NaN` amounts, rates and margins and asks again. `GetLoanDetails` models that rejection.

## Model

| member | source | states |
|---|---|---|
| Calendar.CivilFromDays | src/loanInterestCalculator.ts:29 | the calendar date of any day number is a valid Gregorian date (month 1..12, day within the month, leap years included) whose day number is that day |
| Calendar.DaysFromCivil | src/userInputHandler.ts:25 | the time value `new Date` gives a `YYYY-MM-DD` string, counted in days: the days before the year, before the month in that year (one more after February in a leap year) and before the day, less the days from 0000-01-01 to 1970-01-01; a day beyond its month's length runs on into the following months |
| Calendar.DaysFromCivilInjective | src/userInputHandler.ts:25-26 | two valid calendar dates with the same day number are the same date, so a time value names exactly one date |
| Calendar.CivilRoundTrip | src/userInputHandler.ts:25-26 | turning a valid date into its day number and back gives the same date |
| Calendar.NextDay | src/loanInterestCalculator.ts:27-29 | the date of day `n + 1` is the next day of day `n`'s month, or the first of the next month after a month's last day, or 1 January of the next year after 31 December, so consecutive day numbers are consecutive calendar days |
| Calendar.FourDigitYearOfDate | src/userInputHandler.ts:22 | a valid date's day number lies in the four-digit-year range exactly when its year is 0..9999 |
| Calendar.FourDigitDayYear | src/loanInterestCalculator.ts:29 | a day number is in the four-digit-year range exactly when its calendar year is 0..9999, the years `toISOString` writes with four digits |
| Decimal.Numeral | src/userInputHandler.ts:54 | the numeral of `n` is a non-empty digit string, at least `width` long, exactly `width` long when `n` fits, one digit for `n < 10` at width 1, and with no leading zero once it is longer than `width`, so at width 1 it is the `toString` form |
| Decimal.NumeralValueOfNumeral | src/loanInterestCalculator.ts:29 | reading a written numeral back gives the number it was written from |
| Decimal.NumeralOfNumeralValue | src/userInputHandler.ts:22-26 | any digit string, written back at its own width, is the same string (zero padding included) |
| Decimal.NumeralInjective | src/userInputHandler.ts:54-58 | different numbers get different numerals, so different history positions get different ids |
| DateText.FormatYear | src/loanInterestCalculator.ts:29 | years 0..9999 are written as four digits; other years as seven or more characters: a `-` (negative years) or `+` (years after 9999) followed by digits only |
| DateText.FormatDay | src/loanInterestCalculator.ts:29-34 | the formatted date text is never empty, so the `throw` on an empty text cannot fire |
| DateText.MatchesDatePattern | src/userInputHandler.ts:21-22 | the test `^\d{4}-\d{2}-\d{2}$`: exactly ten characters, dashes at positions 4 and 7, and ASCII digits everywhere else |
| DateText.FormatDayFields | src/loanInterestCalculator.ts:29 | a day of a four-digit year is written as a pattern-matching `YYYY-MM-DD` string whose fields spell that day's calendar date |
| DateText.FormatDayLength | src/loanInterestCalculator.ts:29 | the date text has ten characters exactly when the day's year has four digits |
| DateText.ParseDate | src/userInputHandler.ts:21-29 | an accepted string is exactly the formatted text of the day it returns |
| DateText.ParsedDayIsFourDigit | src/userInputHandler.ts:22-26 | every accepted string names a day of a four-digit year |
| DateText.ParseDateSound | src/userInputHandler.ts:21-29 | an accepted string matches the pattern, spells a valid date with a year 0..9999, and the result is that date's day number |
| DateText.ParseDateComplete | src/userInputHandler.ts:25-28 | every pattern-matching string that spells a valid date is accepted, returning that date's day number |
| DateText.ParseDateAcceptsValidDates | src/userInputHandler.ts:21-29 | `parseDate` accepts a string if and only if it is a real calendar date written `YYYY-MM-DD` |
| DateText.FormatParseRoundTrip | src/userInputHandler.ts:26 | parsing the formatted text of any four-digit-year day gives that day back |
| DateText.FourDigitDaysRoundTrip | src/userInputHandler.ts:26 | the same round trip and pattern match, for every four-digit-year day at once |
| DateText.RejectedExamples | src/userInputHandler.ts:22-26 | `"2024-13-40"` and `"not-a-date"` are rejected |
| DateText.LeapDayExamples | src/userInputHandler.ts:25-28 | `"2024-02-29"` is accepted as that leap day; `"2023-02-29"` is rejected |
| LoanInterest.SimpleDailyInterest | src/loanInterestCalculator.ts:4-7 | a day's interest, times the day-count basis `DaysInYear`, is the annual rate times the amount |
| LoanInterest.SimpleDailyInterestIsShareOfYear | src/loanInterestCalculator.ts:4-7 | a day's interest is amount times rate divided by the day-count basis |
| LoanInterest.AccruedInterestStep | src/loanInterestCalculator.ts:42 | each further day adds exactly one day's interest to the accrued total, and one day accrues one day's interest |
| LoanInterest.AccruedInterest | src/loanInterestCalculator.ts:42 | the cumulative interest after `days` days, the daily interest times the number of days (`interest * (elapsedDays + 1)` for record `elapsedDays`) |
| LoanInterest.ScheduleLength | src/loanInterestCalculator.ts:20-26 | the number of loop rounds: `numberOfDaysLoaned` is the whole days from start to end, both UTC midnights, so the day numbers' difference; the loop runs it plus one time, and not at all when the end is before the start |
| LoanInterest.BuildSchedule | src/loanInterestCalculator.ts:20-50 | fails, with the program's message, exactly when some day of the loan has an empty date text; otherwise returns one record per day (none when the end precedes the start), record `i` holding index `i`, both daily interests, cumulative interest for `i + 1` days and the text of day `start + i` |
| LoanInterest.GenerateLoanOutput | src/loanInterestCalculator.ts:9-52 | never fails, and returns a complete schedule for the loan: the right length, each day's figures, each day's date text |
| LoanInterest.SingleDaySchedule | src/loanInterestCalculator.ts:20-42 | a loan starting and ending on the same day has one record, index 0, whose cumulative interest is its daily interest |
| LoanInterest.DailyInterestConstant | src/loanInterestCalculator.ts:35-40 | every record carries the same interest and the same interest excluding margin |
| LoanInterest.MarginSpread | src/loanInterestCalculator.ts:35-40 | when the total rate is base plus margin, every record's interest exceeds its base interest by amount times margin over the day-count basis |
| LoanInterest.CumulativeIsRunningTotal | src/loanInterestCalculator.ts:42 | cumulative interest at record `i` is the sum of the daily interest of records 0..i, and consecutive cumulative values differ by one day's interest |
| LoanInterest.FirstAccrualDate | src/loanInterestCalculator.ts:27-29 | the first record is dated with the start date's text |
| LoanInterest.LastAccrualDate | src/loanInterestCalculator.ts:20-29 | a loan whose end is not before its start has `end - start + 1` records, the last dated with the end date's text |
| LoanInterest.AccrualDateOfRecord | src/loanInterestCalculator.ts:27-29 | for four-digit-year loans, record `i`'s date is a `YYYY-MM-DD` string that parses back to day `start + i` |
| LoanInterest.AccrualDatesAreConsecutiveDays | src/loanInterestCalculator.ts:26-34 | for loans between four-digit-year dates, every accrual date is a `YYYY-MM-DD` text that parses to day `start + i`, and consecutive records fall on consecutive day numbers, which `Calendar.NextDay` shows are consecutive calendar days |
| LoanInterest.ThreeDayExample | src/loanInterestCalculator.ts:35-42 | 100000 at 5% base plus 2% margin over 2024-01-01..2024-01-03 gives three records of 7000/DaysInYear a day and 21000/DaysInYear in total |
| LoanInput.PercentToFraction | src/userInputHandler.ts:124-125 | the rate used is the entered percentage divided by 100 |
| LoanInput.GetLoanDetails | src/userInputHandler.ts:99-144 | rejects an unparsable start date first; then an unparsable end date or one before the start; then a `NaN` amount, rate or margin. It succeeds exactly when all checks pass, and the accepted loan has the parsed days, start not after end, the amount as entered, rates equal to percent/100, and total rate = base + margin |
| LoanInput.AcceptedDatesAreFourDigitDays | src/userInputHandler.ts:101-115 | the days of an accepted loan are days of four-digit years |
| LoanInput.AcceptedLoanScheduleDates | src/userInputHandler.ts:50-53 | the schedule of an accepted loan is non-empty, is dated from exactly the entered start text to exactly the entered end text, and every date is `YYYY-MM-DD` |
| History.FindIndexById | src/userInputHandler.ts:80-82 | returns -1 exactly when no entry has the id, otherwise the first index whose entry has it |
| History.FindById | src/userInputHandler.ts:35 | finds nothing exactly when no entry has the id, otherwise the first entry with that id |
| History.SaveCalculation | src/userInputHandler.ts:54-60 | the history grows by one, the old entries stay in place, the new entry is last with id `length + 1`, and sequential numbering is kept |
| History.IdFor | src/userInputHandler.ts:54-58 | the id given to the `n`-th saved calculation, `n.toString()`: the decimal numeral of `n` with no leading zeros |
| History.NextIdIsFresh | src/userInputHandler.ts:54-60 | in a sequentially numbered history no entry already has the next id |
| History.ViewAfterSave | src/userInputHandler.ts:54-67 | a just-saved calculation is found under the id it was given |
| History.ModifyCalculation | src/userInputHandler.ts:69-86 | length and all ids are unchanged. An unknown id leaves the history as it was. A known id replaces the output of the first entry with that id and leaves every other entry as it was |
| History.IdsUnique | src/userInputHandler.ts:54-60 | in a sequentially numbered history no two entries share an id |
| History.ViewAfterModify | src/userInputHandler.ts:80-85 | after a modify the numbering is intact and viewing the id shows the new output |
| History.SaveThenModifyScenario | src/userInputHandler.ts:48-86 | saving into an empty history gives id `"1"`; modifying `"1"` keeps one entry with id `"1"` whose view shows the new output |

## Left out

- Prompts, `console` output, `process.exit` and the menu dispatch of `promptUserMenu` are interactive I/O. Each menu branch is modelled as a function on the history, and the user's answers are parameters.
- The re-prompting recursion in `getLoanDetails` is also interactive I/O. `GetLoanDetails` models one round of answers and names the first failed check; asking again is the caller's loop.
- `async`/`Promise` wrappers add no behaviour and are left out.
- `parseFloat` is foreign library code. The amount, rate and margin arrive already parsed, with `None` standing for `NaN`.
- Infinite values that `parseFloat` can return are not representable as `real`.
- GetLoanDetails: does not model IEEE 754 rounding of the division by 100 or of the sum of the rates; the equalities it states hold over the reals.
- SimpleDailyInterest: exact over the reals. IEEE 754 rounding of the division and multiplication is not modelled.
- The cumulative product `interest * (elapsedDays + 1)` is likewise exact over the reals.
- Time zones and daylight saving are not modelled:
  - `setDate` works in the host's local time, while `toISOString` writes UTC;
  - the model takes the host to be on UTC, so the accrual date of day `i` is the text of day `start + i`;
  - on a host that observes daylight saving, the program's dates can drift. For a loan that starts outside daylight saving time, every record for a day while it is in force is dated one day early. On a US-Eastern host, a loan starting 2024-03-09 dates records 1 and 2 both 2024-03-10, and the autumn shift skips a date to catch up. So a loan that starts outside daylight saving time and whose last day falls while it is in force has a last record that does not carry the end date. A loan that starts while daylight saving is in force keeps correct dates across both shifts;
  - that behaviour is not part of this model. `LoanInterest.LastAccrualDate`, `LoanInterest.AccrualDateOfRecord`, `LoanInterest.AccrualDatesAreConsecutiveDays` and `LoanInput.AcceptedLoanScheduleDates` hold for a host on UTC or another zone without daylight saving, and only there.
- Time values beyond ±8.64e15 ms (about ±273,790 years) are left out. JavaScript's `Date` rejects them and `toISOString` throws; the model's day numbers are unbounded.
- `new Date` on an out-of-range day such as `"2024-02-30"` is left to each engine. Some engines roll it into the next month and some reject it. `ParseDate` takes the rollover reading, but the final round-trip check rejects such a string either way, so the result is the same.
- `loanCurrency` is asked for and stored but never used in any computation, so it is left out of `LoanDetails`.
- `src/constants.ts` is not part of this model. `DAYS_IN_YEAR` is taken as an unspecified positive constant.
