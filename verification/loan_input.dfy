/**
 * The checks `getLoanDetails` applies to one round of answers before it
 * builds a `LoanDetails`; a failure is what makes it ask again from the
 * start date.
 */
module LoanInput {
  import opened Wrappers
  import opened Calendar
  import opened DateText
  import opened LoanInterest

  /**
   * One round of answers. Dates are the typed text; amount, base rate and
   * margin are what `parseFloat` made of the typed text, `None` standing for
   * `NaN`; rates are percentages.
   */
  datatype LoanForm = LoanForm(
    startDateText: string,
    endDateText: string,
    loanAmount: Option<real>,
    baseRatePercent: Option<real>,
    marginPercent: Option<real>)

  /** Which check rejected the answers, in the order they are made. */
  datatype InputError = InvalidStartDate | InvalidEndDate | InvalidNumber

  function PercentToFraction(percent: real): (fraction: real)
    ensures fraction * 100.0 == percent
  {
    percent / 100.0
  }

  /** The validated loan, or the first check the answers fail. */
  function GetLoanDetails(form: LoanForm): (r: Result<LoanDetails, InputError>)
    ensures r == Failure(InvalidStartDate) <==> ParseDate(form.startDateText).None?
    ensures r == Failure(InvalidEndDate) <==>
      ParseDate(form.startDateText).Some?
      && (ParseDate(form.endDateText).None?
          || ParseDate(form.endDateText).value < ParseDate(form.startDateText).value)
    ensures r.Success? <==>
      && ParseDate(form.startDateText).Some? && ParseDate(form.endDateText).Some?
      && ParseDate(form.startDateText).value <= ParseDate(form.endDateText).value
      && form.loanAmount.Some? && form.baseRatePercent.Some? && form.marginPercent.Some?
    ensures r.Success? ==>
      && r.value.startDate == ParseDate(form.startDateText).value
      && r.value.endDate == ParseDate(form.endDateText).value
      && FormatDay(r.value.startDate) == form.startDateText
      && FormatDay(r.value.endDate) == form.endDateText
      && r.value.startDate <= r.value.endDate
      && r.value.loanAmount == form.loanAmount.value
      && r.value.baseInterestRate * 100.0 == form.baseRatePercent.value
      && r.value.margin * 100.0 == form.marginPercent.value
      && r.value.totalInterestRate == r.value.baseInterestRate + r.value.margin
  {
    var startDate := ParseDate(form.startDateText);
    if startDate.None? then Failure(InvalidStartDate)
    else
      var endDate := ParseDate(form.endDateText);
      if endDate.None? || endDate.value < startDate.value then Failure(InvalidEndDate)
      else if form.loanAmount.None? || form.baseRatePercent.None? || form.marginPercent.None? then
        Failure(InvalidNumber)
      else
        var baseInterestRate := PercentToFraction(form.baseRatePercent.value);
        var margin := PercentToFraction(form.marginPercent.value);
        Success(LoanDetails(
          startDate.value, endDate.value, form.loanAmount.value,
          baseInterestRate, margin, baseInterestRate + margin))
  }

  /** Accepted dates are real calendar dates with four-digit years. */
  lemma AcceptedDatesAreFourDigitDays(form: LoanForm)
    requires GetLoanDetails(form).Success?
    ensures IsFourDigitDay(GetLoanDetails(form).value.startDate)
    ensures IsFourDigitDay(GetLoanDetails(form).value.endDate)
  {
    ParsedDayIsFourDigit(form.startDateText);
    ParsedDayIsFourDigit(form.endDateText);
  }

  /**
   * The schedule of an accepted loan is never empty and its dates are
   * `YYYY-MM-DD` texts running from the entered start date to the entered
   * end date.
   */
  lemma AcceptedLoanScheduleDates(form: LoanForm, records: seq<DailyInterestRecord>)
    requires GetLoanDetails(form).Success?
    requires IsScheduleFor(GetLoanDetails(form).value, records)
    ensures |records| >= 1
    ensures records[0].accrualDate == form.startDateText
    ensures records[|records| - 1].accrualDate == form.endDateText
    ensures forall i :: 0 <= i < |records| ==> MatchesDatePattern(records[i].accrualDate)
  {
    var loan := GetLoanDetails(form).value;
    FirstAccrualDate(loan, records);
    LastAccrualDate(loan, records);
    AcceptedDatesAreFourDigitDays(form);
    AccrualDatesAreConsecutiveDays(loan, records);
  }
}
