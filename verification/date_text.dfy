/**
 * Calendar dates as text: the `YYYY-MM-DD` calendar-date extended format of
 * ISO 8601-1 (section 5.2.2.1) that `Date.prototype.toISOString` writes before
 * its `T`, and the input parser that accepts exactly the strings it writes.
 */
module DateText {
  import opened Wrappers
  import opened Decimal
  import opened Calendar

  /**
   * The year field as `toISOString` writes it: four digits for years 0..9999,
   * otherwise a sign and at least six digits (the expanded representation).
   */
  function FormatYear(y: int): (s: string)
    ensures 0 <= y <= 9999 ==> |s| == 4 && AllDigits(s)
    ensures (y < 0 || 9999 < y) ==> |s| >= 7
    ensures y < 0 ==> s[0] == '-' && AllDigits(s[1..])
    ensures 9999 < y ==> s[0] == '+' && AllDigits(s[1..])
  {
    if 0 <= y <= 9999 then Numeral(y, 4)
    else if y < 0 then "-" + Numeral(-y, 6)
    else "+" + Numeral(y, 6)
  }

  /** The date part of `toISOString` for the UTC midnight of day `n`. */
  function FormatDay(n: int): (s: string)
    ensures |s| > 0
  {
    var c := CivilFromDays(n);
    FormatYear(c.year) + "-" + Numeral(c.month, 2) + "-" + Numeral(c.day, 2)
  }

  /** The regular expression `^\d{4}-\d{2}-\d{2}$`. */
  predicate MatchesDatePattern(s: string) {
    && |s| == 10
    && s[4] == '-' && s[7] == '-'
    && AllDigits(s[0..4]) && AllDigits(s[5..7]) && AllDigits(s[8..10])
  }

  /** The year, month and day a pattern-matching string spells out. */
  function DateFields(s: string): CivilDate
    requires MatchesDatePattern(s)
  {
    CivilDate(NumeralValue(s[0..4]), NumeralValue(s[5..7]), NumeralValue(s[8..10]))
  }

  /**
   * `parseDate`: a string is accepted when it matches the pattern, `new Date`
   * gives a time value for it (month 01..12, day 01..31; an overlong day rolls
   * into the next month), and formatting that time value gives the string back.
   */
  function ParseDate(s: string): (r: Option<int>)
    ensures r.Some? ==> FormatDay(r.value) == s
  {
    if !MatchesDatePattern(s) then None
    else
      var f := DateFields(s);
      if !(1 <= f.month <= 12 && 1 <= f.day <= 31) then None
      else
        var n := DaysFromCivil(f);
        if FormatDay(n) == s then Some(n) else None
  }

  /** The three fields of a date text joined by dashes sit at fixed positions. */
  lemma JoinedFields(ys: string, ms: string, ds: string)
    requires |ys| == 4 && |ms| == 2 && |ds| == 2
    ensures var s := ys + "-" + ms + "-" + ds;
      |s| == 10 && s[4] == '-' && s[7] == '-' && s[0..4] == ys && s[5..7] == ms && s[8..10] == ds
  {
  }

  /** Every day of a four-digit year is written as a pattern-matching string of its own date. */
  lemma FormatDayFields(n: int)
    requires IsFourDigitDay(n)
    ensures MatchesDatePattern(FormatDay(n))
    ensures DateFields(FormatDay(n)) == CivilFromDays(n)
  {
    var c := CivilFromDays(n);
    FourDigitDayYear(n);
    var ys, ms, ds := Numeral(c.year, 4), Numeral(c.month, 2), Numeral(c.day, 2);
    JoinedFields(ys, ms, ds);
    assert FormatDay(n) == ys + "-" + ms + "-" + ds;
    NumeralValueOfNumeral(c.year, 4);
    NumeralValueOfNumeral(c.month, 2);
    NumeralValueOfNumeral(c.day, 2);
  }

  /** Only a day of a four-digit year formats to ten characters. */
  lemma FormatDayLength(n: int)
    ensures |FormatDay(n)| == 10 <==> IsFourDigitDay(n)
  {
    var c := CivilFromDays(n);
    FourDigitDayYear(n);
    assert |Numeral(c.month, 2)| == 2 && |Numeral(c.day, 2)| == 2;
  }

  /** An accepted string matches the pattern and spells a valid date, whose day number is the result. */
  lemma ParseDateSound(s: string)
    requires ParseDate(s).Some?
    ensures MatchesDatePattern(s) && IsValidDate(DateFields(s))
    ensures 0 <= DateFields(s).year <= 9999
    ensures ParseDate(s).value == DaysFromCivil(DateFields(s))
  {
    var n := ParseDate(s).value;
    FormatDayLength(n);
    FormatDayFields(n);
    assert DateFields(s) == CivilFromDays(n);
    FourDigitDayYear(n);
  }

  /** An accepted string names a day of a four-digit year. */
  lemma ParsedDayIsFourDigit(s: string)
    requires ParseDate(s).Some?
    ensures IsFourDigitDay(ParseDate(s).value)
  {
    FormatDayLength(ParseDate(s).value);
  }

  /** A pattern-matching string spelling a valid date is accepted. */
  lemma ParseDateComplete(s: string)
    requires MatchesDatePattern(s) && IsValidDate(DateFields(s))
    ensures ParseDate(s) == Some(DaysFromCivil(DateFields(s)))
  {
    var f := DateFields(s);
    var n := DaysFromCivil(f);
    CivilRoundTrip(f);
    NumeralOfNumeralValue(s[0..4]);
    NumeralOfNumeralValue(s[5..7]);
    NumeralOfNumeralValue(s[8..10]);
    assert s == s[0..4] + "-" + s[5..7] + "-" + s[8..10];
  }

  /** `parseDate` accepts a string exactly when it is a real calendar date written `YYYY-MM-DD`. */
  lemma ParseDateAcceptsValidDates(s: string)
    ensures ParseDate(s).Some? <==> MatchesDatePattern(s) && IsValidDate(DateFields(s))
  {
    if ParseDate(s).Some? {
      ParseDateSound(s);
    } else if MatchesDatePattern(s) && IsValidDate(DateFields(s)) {
      ParseDateComplete(s);
    }
  }

  /** Formatting a day of a four-digit year and parsing the text gives the day back. */
  lemma FormatParseRoundTrip(n: int)
    requires IsFourDigitDay(n)
    ensures ParseDate(FormatDay(n)) == Some(n)
  {
    FormatDayFields(n);
    ParseDateComplete(FormatDay(n));
  }

  /**
   * The round trip and the pattern, for every four-digit-year day at once;
   * callers holding the text of a computed day (`start + i`) use this form.
   */
  lemma FourDigitDaysRoundTrip()
    ensures forall n :: IsFourDigitDay(n) ==>
      ParseDate(FormatDay(n)) == Some(n) && MatchesDatePattern(FormatDay(n))
  {
    forall n | IsFourDigitDay(n)
      ensures ParseDate(FormatDay(n)) == Some(n) && MatchesDatePattern(FormatDay(n))
    {
      FormatParseRoundTrip(n);
      FormatDayFields(n);
    }
  }

  /** `"2024-13-40"` (month 13) and `"not-a-date"` (no pattern match) are rejected. */
  lemma RejectedExamples()
    ensures ParseDate("2024-13-40") == None
    ensures ParseDate("not-a-date") == None
  {
    var bad := "2024-13-40";
    assert bad[5..7] == "13";
    assert NumeralValue("1") == 1;
    assert NumeralValue("13") == 13;
    assert !IsDigit("not-a-date"[0]);
  }

  /** The digits of the leap-day examples spell the values they read as. */
  lemma LeapDayNumerals()
    ensures NumeralValue("2024") == 2024 && NumeralValue("2023") == 2023
    ensures NumeralValue("02") == 2 && NumeralValue("29") == 29
  {
    assert "2024"[..3] == "202" && "2023"[..3] == "202";
    assert "202"[..2] == "20" && "20"[..1] == "2";
    assert "02"[..1] == "0" && "29"[..1] == "2";
  }

  lemma LeapDayFields()
    ensures MatchesDatePattern("2024-02-29") && DateFields("2024-02-29") == CivilDate(2024, 2, 29)
    ensures MatchesDatePattern("2023-02-29") && DateFields("2023-02-29") == CivilDate(2023, 2, 29)
  {
    LeapDayNumerals();
    assert "2024-02-29"[0..4] == "2024";
    assert "2024-02-29"[5..7] == "02";
    assert "2024-02-29"[8..10] == "29";
    assert "2023-02-29"[0..4] == "2023";
    assert "2023-02-29"[5..7] == "02";
    assert "2023-02-29"[8..10] == "29";
  }

  /** `"2024-02-29"` (a leap day) is accepted; `"2023-02-29"` is not. */
  lemma LeapDayExamples()
    ensures ParseDate("2024-02-29") == Some(DaysFromCivil(CivilDate(2024, 2, 29)))
    ensures ParseDate("2023-02-29") == None
  {
    LeapDayFields();
    ParseDateComplete("2024-02-29");
    ParseDateAcceptsValidDates("2023-02-29");
  }
}
