/**
 * The accrual engine: one simple-interest record per calendar day from the
 * loan's start date through its end date.
 */
module LoanInterest {
  import opened Wrappers
  import opened Calendar
  import opened DateText

  type PositiveReal = r: real | r > 0.0 witness 1.0

  /**
   * The day-count basis of the annual rates (DAYS_IN_YEAR): a positive
   * constant, 365 by convention; nothing below depends on its value.
   */
  const DaysInYear: PositiveReal

  /** A validated loan; dates are day numbers, rates annual fractions (0.05 for 5%). */
  datatype LoanDetails = LoanDetails(
    startDate: int,
    endDate: int,
    loanAmount: real,
    baseInterestRate: real,
    margin: real,
    totalInterestRate: real)

  datatype DailyInterestRecord = DailyInterestRecord(
    interestExcludingMargin: real,
    interest: real,
    accrualDate: string,
    daysSinceLoanStart: nat,
    cumulativeInterestToDate: real)

  const UndefinedDateMessage: string :=
    "Formatted accural date cannot be undefined. Something went wrong."

  /** One day's interest on `loanAmount` at an annual rate: a `DaysInYear`-th of a year's interest. */
  function SimpleDailyInterest(loanAmount: real, annualInterestRate: real): (r: real)
    ensures r * DaysInYear == annualInterestRate * loanAmount
  {
    annualInterestRate / DaysInYear * loanAmount
  }

  /** Daily interest is additive in the rate. */
  lemma SimpleDailyInterestAdditive(loanAmount: real, rate1: real, rate2: real)
    ensures SimpleDailyInterest(loanAmount, rate1 + rate2)
         == SimpleDailyInterest(loanAmount, rate1) + SimpleDailyInterest(loanAmount, rate2)
  {
  }

  /** Daily interest is the principal times the rate, spread over the year. */
  lemma SimpleDailyInterestIsShareOfYear(loanAmount: real, rate: real)
    ensures SimpleDailyInterest(loanAmount, rate) == loanAmount * rate / DaysInYear
  {
  }

  /** Simple interest accrued over `days` days at a constant daily amount. */
  function AccruedInterest(dailyInterest: real, days: nat): real {
    dailyInterest * days as real
  }

  /** One more day adds one more day's interest; one day's worth is the daily amount. */
  lemma AccruedInterestStep(dailyInterest: real, days: nat)
    ensures AccruedInterest(dailyInterest, days + 1) == AccruedInterest(dailyInterest, days) + dailyInterest
    ensures AccruedInterest(dailyInterest, 1) == dailyInterest
  {
  }

  /**
   * Number of records a schedule has: the whole days from start to end plus
   * one (both UTC midnights, so the millisecond difference is an exact number
   * of days), and none when the end precedes the start.
   */
  function ScheduleLength(loan: LoanDetails): nat {
    if loan.endDate < loan.startDate then 0 else loan.endDate - loan.startDate + 1
  }

  /** The day index and interest figures the record for day `i` of the loan holds. */
  predicate HasFiguresFor(loan: LoanDetails, i: nat, rec: DailyInterestRecord) {
    && rec.daysSinceLoanStart == i
    && rec.interestExcludingMargin == SimpleDailyInterest(loan.loanAmount, loan.baseInterestRate)
    && rec.interest == SimpleDailyInterest(loan.loanAmount, loan.totalInterestRate)
    && rec.cumulativeInterestToDate == AccruedInterest(rec.interest, i + 1)
  }

  /** Record `i` holds the figures for day `i` after the start. */
  predicate HasDailyFigures(loan: LoanDetails, records: seq<DailyInterestRecord>) {
    forall i :: 0 <= i < |records| ==> HasFiguresFor(loan, i, records[i])
  }

  /** Record `i` is dated with the text of day `i` after the start. */
  predicate HasAccrualDates(loan: LoanDetails, records: seq<DailyInterestRecord>) {
    forall i :: 0 <= i < |records| ==> records[i].accrualDate == FormatDay(loan.startDate + i)
  }

  /** A complete schedule: one record per day of the loan, record `i` describing day `i` after the start. */
  predicate IsScheduleFor(loan: LoanDetails, records: seq<DailyInterestRecord>) {
    && |records| == ScheduleLength(loan)
    && HasDailyFigures(loan, records)
    && HasAccrualDates(loan, records)
  }

  /** Record `i` is dated with `dateText` of day `i` after `start`. */
  predicate DatedBy(dateText: int -> string, start: int, records: seq<DailyInterestRecord>) {
    forall i :: 0 <= i < |records| ==> records[i].accrualDate == dateText(start + i)
  }

  /**
   * The loop of `generateLoanOutput`, with the date formatting it calls
   * (`toISOString` cut at the `T`) as the parameter `dateText`. It throws, here
   * returns the failure message, on the first day whose text is empty.
   */
  method BuildSchedule(loan: LoanDetails, dateText: int -> string)
    returns (result: Result<seq<DailyInterestRecord>, string>)
    ensures result.Success? <==> forall d :: loan.startDate <= d <= loan.endDate ==> dateText(d) != []
    ensures result.Failure? ==> result.error == UndefinedDateMessage
    ensures result.Success? ==>
      && |result.value| == ScheduleLength(loan)
      && HasDailyFigures(loan, result.value)
      && DatedBy(dateText, loan.startDate, result.value)
  {
    var numberOfDaysLoaned := loan.endDate - loan.startDate;
    var records: seq<DailyInterestRecord> := [];
    var elapsedDays: nat := 0;
    while elapsedDays <= numberOfDaysLoaned
      invariant elapsedDays == 0 || elapsedDays <= numberOfDaysLoaned + 1
      invariant |records| == elapsedDays
      invariant forall d :: loan.startDate <= d < loan.startDate + elapsedDays ==> dateText(d) != []
      invariant HasDailyFigures(loan, records)
      invariant DatedBy(dateText, loan.startDate, records)
      decreases numberOfDaysLoaned - elapsedDays
    {
      var formattedAccrualDate := dateText(loan.startDate + elapsedDays);
      if formattedAccrualDate == [] {
        return Failure(UndefinedDateMessage);
      }
      var interestExcludingMargin := SimpleDailyInterest(loan.loanAmount, loan.baseInterestRate);
      var interest := SimpleDailyInterest(loan.loanAmount, loan.totalInterestRate);
      var cumulativeInterestToDate := AccruedInterest(interest, elapsedDays + 1);
      var record := DailyInterestRecord(
        interestExcludingMargin, interest, formattedAccrualDate, elapsedDays, cumulativeInterestToDate);
      assert HasFiguresFor(loan, elapsedDays, record);
      records := records + [record];
      elapsedDays := elapsedDays + 1;
    }
    return Success(records);
  }

  /**
   * `generateLoanOutput`: the schedule with `toISOString` dates. That text is
   * never empty, so the error branch is never taken.
   */
  method GenerateLoanOutput(loan: LoanDetails) returns (result: Result<seq<DailyInterestRecord>, string>)
    ensures result.Success?
    ensures IsScheduleFor(loan, result.value)
  {
    result := BuildSchedule(loan, FormatDay);
    assert result.Success?;
  }

  /** A loan that starts and ends on the same day has one record, day 0, whose cumulative interest is that day's interest. */
  lemma SingleDaySchedule(loan: LoanDetails, records: seq<DailyInterestRecord>)
    requires |records| == ScheduleLength(loan) && HasDailyFigures(loan, records)
    requires loan.startDate == loan.endDate
    ensures |records| == 1
    ensures records[0].daysSinceLoanStart == 0
    ensures records[0].cumulativeInterestToDate == records[0].interest
  {
    assert HasFiguresFor(loan, 0, records[0]);
    AccruedInterestStep(records[0].interest, 0);
  }

  /** Every record carries the same daily interest, with and without margin. */
  lemma DailyInterestConstant(loan: LoanDetails, records: seq<DailyInterestRecord>)
    requires HasDailyFigures(loan, records)
    ensures forall i, j :: 0 <= i < |records| && 0 <= j < |records| ==>
      records[i].interest == records[j].interest
      && records[i].interestExcludingMargin == records[j].interestExcludingMargin
  {
    forall i, j | 0 <= i < |records| && 0 <= j < |records|
      ensures records[i].interest == records[j].interest
      ensures records[i].interestExcludingMargin == records[j].interestExcludingMargin
    {
      assert HasFiguresFor(loan, i, records[i]) && HasFiguresFor(loan, j, records[j]);
    }
  }

  /** When the total rate is base plus margin, every day's interest exceeds the base interest by the margin's daily interest. */
  lemma MarginSpread(loan: LoanDetails, records: seq<DailyInterestRecord>)
    requires HasDailyFigures(loan, records)
    requires loan.totalInterestRate == loan.baseInterestRate + loan.margin
    ensures forall i :: 0 <= i < |records| ==>
      records[i].interest - records[i].interestExcludingMargin == loan.loanAmount * loan.margin / DaysInYear
  {
    SimpleDailyInterestAdditive(loan.loanAmount, loan.baseInterestRate, loan.margin);
    SimpleDailyInterestIsShareOfYear(loan.loanAmount, loan.margin);
    var spread := SimpleDailyInterest(loan.loanAmount, loan.totalInterestRate)
                - SimpleDailyInterest(loan.loanAmount, loan.baseInterestRate);
    assert spread == loan.loanAmount * loan.margin / DaysInYear;
    forall i | 0 <= i < |records|
      ensures records[i].interest - records[i].interestExcludingMargin == spread
    {
      assert HasFiguresFor(loan, i, records[i]);
    }
  }

  /** The sum of the daily interest of a run of records. */
  function InterestSum(records: seq<DailyInterestRecord>): real {
    if records == [] then 0.0 else InterestSum(records[..|records| - 1]) + records[|records| - 1].interest
  }

  /** Cumulative interest is the running total of daily interest, and grows by one day's interest per record. */
  lemma {:induction false} CumulativeIsRunningTotal(loan: LoanDetails, records: seq<DailyInterestRecord>, i: nat)
    requires HasDailyFigures(loan, records)
    requires i < |records|
    ensures records[i].cumulativeInterestToDate == InterestSum(records[..i + 1])
    ensures 0 < i ==> records[i].cumulativeInterestToDate - records[i - 1].cumulativeInterestToDate == records[i].interest
  {
    assert HasFiguresFor(loan, i, records[i]);
    assert records[..i + 1][..i] == records[..i];
    if i == 0 {
      assert records[..0] == [];
      AccruedInterestStep(records[0].interest, 0);
    } else {
      CumulativeIsRunningTotal(loan, records, i - 1);
      assert HasFiguresFor(loan, i - 1, records[i - 1]);
      AccruedInterestStep(records[i].interest, i);
    }
  }

  /** The first record of a non-empty schedule is dated with the loan's start date. */
  lemma FirstAccrualDate(loan: LoanDetails, records: seq<DailyInterestRecord>)
    requires HasAccrualDates(loan, records) && |records| > 0
    ensures records[0].accrualDate == FormatDay(loan.startDate)
  {
    assert records[0].accrualDate == FormatDay(loan.startDate + 0);
  }

  /** The last record of a schedule whose end is not before its start is dated with the loan's end date. */
  lemma LastAccrualDate(loan: LoanDetails, records: seq<DailyInterestRecord>)
    requires |records| == ScheduleLength(loan) && HasAccrualDates(loan, records)
    requires loan.startDate <= loan.endDate
    ensures |records| == loan.endDate - loan.startDate + 1
    ensures records[|records| - 1].accrualDate == FormatDay(loan.endDate)
  {
    assert records[loan.endDate - loan.startDate].accrualDate == FormatDay(loan.startDate + (loan.endDate - loan.startDate));
  }

  /** Record `i` of a loan between four-digit-year dates is a `YYYY-MM-DD` string that parses back to day `start + i`. */
  lemma AccrualDateOfRecord(loan: LoanDetails, records: seq<DailyInterestRecord>, i: nat)
    requires |records| == ScheduleLength(loan) && HasAccrualDates(loan, records)
    requires IsFourDigitDay(loan.startDate) && IsFourDigitDay(loan.endDate)
    requires i < |records|
    ensures MatchesDatePattern(records[i].accrualDate)
    ensures ParseDate(records[i].accrualDate) == Some(loan.startDate + i)
  {
    assert records[i].accrualDate == FormatDay(loan.startDate + i);
    FourDigitDaysRoundTrip();
  }

  /**
   * For a loan between two four-digit-year dates, each accrual date is a
   * `YYYY-MM-DD` string (so never empty) naming day `start + i`; consecutive
   * records fall on consecutive day numbers, which `Calendar.NextDay` shows
   * are consecutive calendar days.
   */
  lemma AccrualDatesAreConsecutiveDays(loan: LoanDetails, records: seq<DailyInterestRecord>)
    requires |records| == ScheduleLength(loan) && HasAccrualDates(loan, records)
    requires IsFourDigitDay(loan.startDate) && IsFourDigitDay(loan.endDate)
    ensures forall i :: 0 <= i < |records| ==>
      MatchesDatePattern(records[i].accrualDate) && ParseDate(records[i].accrualDate) == Some(loan.startDate + i)
    ensures forall i :: 0 < i < |records| ==>
      ParseDate(records[i].accrualDate).value == ParseDate(records[i - 1].accrualDate).value + 1
  {
    forall i | 0 <= i < |records|
      ensures MatchesDatePattern(records[i].accrualDate) && ParseDate(records[i].accrualDate) == Some(loan.startDate + i)
    {
      AccrualDateOfRecord(loan, records, i);
    }
  }

  /**
   * 100000 at 5% base plus 2% margin from 2024-01-01 to 2024-01-03: three
   * records, 7000/DaysInYear a day (about 19.178 on the 365-day basis) and
   * 21000/DaysInYear in total (about 57.534).
   */
  lemma ThreeDayExample(records: seq<DailyInterestRecord>)
    requires |records| == ScheduleLength(ExampleLoan()) && HasDailyFigures(ExampleLoan(), records)
    ensures |records| == 3
    ensures records[0].interest == 7000.0 / DaysInYear
    ensures records[2].cumulativeInterestToDate == 21000.0 / DaysInYear
  {
    assert HasFiguresFor(ExampleLoan(), 0, records[0]);
    assert HasFiguresFor(ExampleLoan(), 2, records[2]);
  }

  function ExampleLoan(): LoanDetails {
    var start := DaysFromCivil(CivilDate(2024, 1, 1));
    LoanDetails(start, start + 2, 100000.0, 0.05, 0.02, 0.07)
  }
}
