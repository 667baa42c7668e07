/**
 * Gregorian calendar dates as `compute_next_date` sees them: `strptime` with
 * the format "%Y-%m-%d", day arithmetic with `timedelta`, and `strftime` back
 * to "%Y-%m-%d".
 */
module Dates {
  import opened Wrappers

  datatype Date = Date(year: int, month: int, day: int)

  /** `ValueError` from `strptime`, `OverflowError` from date arithmetic. */
  datatype DateError = Unparsable | Overflow

  predicate IsLeapYear(y: int)
  {
    y % 4 == 0 && (y % 100 != 0 || y % 400 == 0)
  }

  function DaysInMonth(y: int, m: int): int
    requires 1 <= m <= 12
  {
    if m == 2 then (if IsLeapYear(y) then 29 else 28)
    else if m == 4 || m == 6 || m == 9 || m == 11 then 30
    else 31
  }

  function DaysInYear(y: int): int
  {
    if IsLeapYear(y) then 366 else 365
  }

  /** The dates Python's `datetime` can represent: years 1 to 9999. */
  predicate ValidDate(d: Date)
  {
    1 <= d.year <= 9999 && 1 <= d.month <= 12 && 1 <= d.day <= DaysInMonth(d.year, d.month)
  }

  const MaxDate := Date(9999, 12, 31)
  const MaxOrdinal := 3652059

  // ---------------------------------------------------------------------------
  // Proleptic Gregorian ordinal: day 1 is 0001-01-01 (Python's `toordinal`).
  // ---------------------------------------------------------------------------

  function DaysBeforeYear(y: int): int
    requires y >= 1
  {
    var p := y - 1;
    p * 365 + p / 4 - p / 100 + p / 400
  }

  function DaysBeforeMonth(y: int, m: int): int
    requires 1 <= m <= 12
  {
    var table := [0, 31, 59, 90, 120, 151, 181, 212, 243, 273, 304, 334];
    table[m - 1] + (if m > 2 && IsLeapYear(y) then 1 else 0)
  }

  function Ordinal(d: Date): int
    requires ValidDate(d)
  {
    DaysBeforeYear(d.year) + DaysBeforeMonth(d.year, d.month) + d.day
  }

  /** Chronological order on dates. */
  predicate Earlier(a: Date, b: Date)
  {
    a.year < b.year
    || (a.year == b.year && a.month < b.month)
    || (a.year == b.year && a.month == b.month && a.day < b.day)
  }

  lemma DaysBeforeNextYear(y: int)
    requires y >= 1
    ensures DaysBeforeYear(y + 1) == DaysBeforeYear(y) + DaysInYear(y)
  {
    var p := y - 1;
    QuotientStep4(p);
    QuotientStep100(p);
    QuotientStep400(p);
  }

  lemma QuotientStep4(p: int)
    requires p >= 0
    ensures (p + 1) / 4 == p / 4 + (if (p + 1) % 4 == 0 then 1 else 0)
  {
  }

  lemma QuotientStep100(p: int)
    requires p >= 0
    ensures (p + 1) / 100 == p / 100 + (if (p + 1) % 100 == 0 then 1 else 0)
  {
  }

  lemma QuotientStep400(p: int)
    requires p >= 0
    ensures (p + 1) / 400 == p / 400 + (if (p + 1) % 400 == 0 then 1 else 0)
  {
  }

  lemma {:induction false} DaysBeforeYearGrows(y1: int, y2: int)
    requires 1 <= y1 < y2
    ensures DaysBeforeYear(y1) + DaysInYear(y1) <= DaysBeforeYear(y2)
    decreases y2 - y1
  {
    DaysBeforeNextYear(y1);
    if y1 + 1 < y2 {
      DaysBeforeYearGrows(y1 + 1, y2);
    }
  }

  lemma DaysBeforeMonthGrows(y: int, m1: int, m2: int)
    requires 1 <= m1 < m2 <= 12
    ensures DaysBeforeMonth(y, m1) + DaysInMonth(y, m1) <= DaysBeforeMonth(y, m2)
  {
  }

  /** Ordinals increase with the calendar. */
  lemma OrdinalMonotone(a: Date, b: Date)
    requires ValidDate(a) && ValidDate(b) && Earlier(a, b)
    ensures Ordinal(a) < Ordinal(b)
  {
    if a.year < b.year {
      DaysBeforeYearGrows(a.year, b.year);
      assert DaysBeforeMonth(a.year, a.month) + a.day <= DaysInYear(a.year) by {
        if a.month < 12 {
          DaysBeforeMonthGrows(a.year, a.month, 12);
        }
      }
    } else if a.month < b.month {
      DaysBeforeMonthGrows(a.year, a.month, b.month);
    }
  }

  /** Distinct valid dates have distinct ordinals. */
  lemma OrdinalInjective(a: Date, b: Date)
    requires ValidDate(a) && ValidDate(b) && Ordinal(a) == Ordinal(b)
    ensures a == b
  {
    if Earlier(a, b) {
      OrdinalMonotone(a, b);
    } else if Earlier(b, a) {
      OrdinalMonotone(b, a);
    }
  }

  /** Every valid date lies between 0001-01-01 and 9999-12-31. */
  lemma OrdinalRange(d: Date)
    requires ValidDate(d)
    ensures 1 <= Ordinal(d) <= MaxOrdinal
    ensures Ordinal(d) == MaxOrdinal <==> d == MaxDate
  {
    assert Ordinal(MaxDate) == MaxOrdinal;
    if d != MaxDate {
      OrdinalMonotone(d, MaxDate);
    }
  }

  // ---------------------------------------------------------------------------
  // Day arithmetic (`datetime + timedelta(days=n)`)
  // ---------------------------------------------------------------------------

  /** The calendar day after `d`. */
  function NextDay(d: Date): (r: Date)
    requires ValidDate(d) && d != MaxDate
    ensures ValidDate(r) && Ordinal(r) == Ordinal(d) + 1
  {
    if d.day < DaysInMonth(d.year, d.month) then
      Date(d.year, d.month, d.day + 1)
    else if d.month < 12 then
      DaysBeforeMonthGrows(d.year, d.month, d.month + 1);
      Date(d.year, d.month + 1, 1)
    else
      DaysBeforeNextYear(d.year);
      Date(d.year + 1, 1, 1)
  }

  /**
   * `d` moved forward by `n` days; the result must still be a representable
   * date, otherwise the addition overflows.
   */
  function AddDays(d: Date, n: nat): (r: Result<Date, DateError>)
    requires ValidDate(d)
    ensures r.Ok? <==> Ordinal(d) + n <= MaxOrdinal
    ensures r.Ok? ==> ValidDate(r.value) && Ordinal(r.value) == Ordinal(d) + n
    ensures r.Err? ==> r.error == Overflow
    decreases n
  {
    OrdinalRange(d);
    if n == 0 then Ok(d)
    else if d == MaxDate then Err(Overflow)
    else AddDays(NextDay(d), n - 1)
  }

  // ---------------------------------------------------------------------------
  // Text form "%Y-%m-%d"
  // ---------------------------------------------------------------------------

  predicate IsDigit(c: char)
  {
    '0' <= c <= '9'
  }

  function DigitValue(c: char): int
  {
    c as int - '0' as int
  }

  function DigitChar(n: int): char
    requires 0 <= n <= 9
  {
    (n + '0' as int) as char
  }

  /**
   * The month field of `%m` followed by the literal '-': the regular
   * expression `1[0-2]|0[1-9]|[1-9]`, tried in that order. Yields the month
   * and the length of its field.
   */
  function MonthField(r: string): (f: Option<(int, nat)>)
    ensures f.Some? ==> 1 <= f.value.0 <= 12 && 1 <= f.value.1 <= 2
    ensures f.Some? ==> f.value.1 < |r| && r[f.value.1] == '-'
  {
    if |r| >= 3 && ((r[0] == '1' && '0' <= r[1] <= '2') || (r[0] == '0' && '1' <= r[1] <= '9')) && r[2] == '-' then
      Some((10 * DigitValue(r[0]) + DigitValue(r[1]), 2))
    else if |r| >= 2 && '1' <= r[0] <= '9' && r[1] == '-' then
      Some((DigitValue(r[0]), 1))
    else
      None
  }

  /**
   * The day field of `%d`, which must take up the rest of the string: the
   * regular expression `3[01]|[12]\d|0[1-9]|[1-9]| [1-9]`.
   */
  function DayField(r: string): (f: Option<int>)
    ensures f.Some? ==> 1 <= f.value <= 31
  {
    if |r| == 2 && ((r[0] == '3' && '0' <= r[1] <= '1') || ('1' <= r[0] <= '2' && IsDigit(r[1])) || (r[0] == '0' && '1' <= r[1] <= '9')) then
      Some(10 * DigitValue(r[0]) + DigitValue(r[1]))
    else if |r| == 2 && r[0] == ' ' && '1' <= r[1] <= '9' then
      Some(DigitValue(r[1]))
    else if |r| == 1 && '1' <= r[0] <= '9' then
      Some(DigitValue(r[0]))
    else
      None
  }

  /** `datetime.strptime(s, "%Y-%m-%d")`: four year digits, a month, a day, and nothing left over. */
  function ParseDate(s: string): (r: Result<Date, DateError>)
    ensures r.Ok? ==> ValidDate(r.value)
    ensures r.Err? ==> r.error == Unparsable
  {
    if |s| < 5 || !(IsDigit(s[0]) && IsDigit(s[1]) && IsDigit(s[2]) && IsDigit(s[3])) || s[4] != '-' then
      Err(Unparsable)
    else
      var year := 1000 * DigitValue(s[0]) + 100 * DigitValue(s[1]) + 10 * DigitValue(s[2]) + DigitValue(s[3]);
      match MonthField(s[5..])
      case None => Err(Unparsable)
      case Some((month, width)) =>
        match DayField(s[5 + width + 1..])
        case None => Err(Unparsable)
        case Some(day) =>
          var d := Date(year, month, day);
          if ValidDate(d) then Ok(d) else Err(Unparsable)
  }

  function Pad2(n: int): string
    requires 0 <= n <= 99
  {
    [DigitChar(n / 10), DigitChar(n % 10)]
  }

  function Pad4(n: int): string
    requires 0 <= n <= 9999
  {
    Pad2(n / 100) + Pad2(n % 100)
  }

  /** `strftime("%Y-%m-%d")`, the year zero-padded to four digits. */
  function FormatDate(d: Date): string
    requires ValidDate(d)
  {
    Pad4(d.year) + "-" + Pad2(d.month) + "-" + Pad2(d.day)
  }

  /** The zero-padded spelling "YYYY-MM-DD" that `strftime` produces. */
  predicate Canonical(s: string)
  {
    |s| == 10 && s[4] == '-' && s[7] == '-'
    && IsDigit(s[0]) && IsDigit(s[1]) && IsDigit(s[2]) && IsDigit(s[3])
    && IsDigit(s[5]) && IsDigit(s[6]) && IsDigit(s[8]) && IsDigit(s[9])
  }

  /** Parsing undoes formatting, and the formatted text is canonical. */
  lemma ParseFormat(d: Date)
    requires ValidDate(d)
    ensures Canonical(FormatDate(d))
    ensures ParseDate(FormatDate(d)) == Ok(d)
  {
    var s := FormatDate(d);
    var y := Pad4(d.year);
    Pad4Digits(d.year);
    assert s[..4] == y;
    var tail := Pad2(d.month) + "-" + Pad2(d.day);
    assert s[5..] == tail;
    MonthFieldOfPad2(d.month, Pad2(d.day));
    assert s[8..] == Pad2(d.day);
    DayFieldOfPad2(d.day);
  }

  lemma Pad4Digits(n: int)
    requires 0 <= n <= 9999
    ensures var p := Pad4(n);
      IsDigit(p[0]) && IsDigit(p[1]) && IsDigit(p[2]) && IsDigit(p[3])
      && 1000 * DigitValue(p[0]) + 100 * DigitValue(p[1]) + 10 * DigitValue(p[2]) + DigitValue(p[3]) == n
  {
    var hi, lo := n / 100, n % 100;
    assert n == 100 * hi + lo;
    assert hi == 10 * (hi / 10) + hi % 10;
    assert lo == 10 * (lo / 10) + lo % 10;
  }

  lemma MonthFieldOfPad2(m: int, rest: string)
    requires 1 <= m <= 12
    ensures MonthField(Pad2(m) + "-" + rest) == Some((m, 2))
  {
  }

  lemma DayFieldOfPad2(n: int)
    requires 1 <= n <= 31
    ensures DayField(Pad2(n)) == Some(n)
  {
  }

  /** Formatting a parsed date gives back the text exactly when the text was zero-padded. */
  lemma FormatParse(s: string, d: Date)
    requires ParseDate(s) == Ok(d)
    ensures FormatDate(d) == s <==> Canonical(s)
  {
    ParseFormat(d);
    if Canonical(s) {
      CanonicalFields(s);
      FormatOfFields(s, d);
    }
  }

  /** A zero-padded text is the formatting of the date its digits spell. */
  lemma FormatOfFields(s: string, d: Date)
    requires Canonical(s) && ValidDate(d)
    requires d.year == 100 * (10 * DigitValue(s[0]) + DigitValue(s[1])) + (10 * DigitValue(s[2]) + DigitValue(s[3]))
    requires d.month == 10 * DigitValue(s[5]) + DigitValue(s[6])
    requires d.day == 10 * DigitValue(s[8]) + DigitValue(s[9])
    ensures FormatDate(d) == s
  {
    var hi, lo := 10 * DigitValue(s[0]) + DigitValue(s[1]), 10 * DigitValue(s[2]) + DigitValue(s[3]);
    SplitHundreds(hi, lo);
    Pad2OfDigits(s[0], s[1]);
    Pad2OfDigits(s[2], s[3]);
    Pad2OfDigits(s[5], s[6]);
    Pad2OfDigits(s[8], s[9]);
    assert s == [s[0], s[1]] + [s[2], s[3]] + "-" + [s[5], s[6]] + "-" + [s[8], s[9]];
  }

  /** The fields a zero-padded text is read as. */
  lemma CanonicalFields(s: string)
    requires Canonical(s) && ParseDate(s).Ok?
    ensures var d := ParseDate(s).value;
      && d.year == 100 * (10 * DigitValue(s[0]) + DigitValue(s[1])) + (10 * DigitValue(s[2]) + DigitValue(s[3]))
      && d.month == 10 * DigitValue(s[5]) + DigitValue(s[6])
      && d.day == 10 * DigitValue(s[8]) + DigitValue(s[9])
  {
    assert MonthField(s[5..]).value.1 == 2;
    assert s[8..] == [s[8], s[9]];
  }

  lemma SplitHundreds(hi: int, lo: int)
    requires 0 <= lo < 100
    ensures (100 * hi + lo) / 100 == hi && (100 * hi + lo) % 100 == lo
  {
  }

  lemma Pad2OfDigits(a: char, b: char)
    requires IsDigit(a) && IsDigit(b)
    ensures Pad2(10 * DigitValue(a) + DigitValue(b)) == [a, b]
  {
    var n := 10 * DigitValue(a) + DigitValue(b);
    assert n / 10 == DigitValue(a) && n % 10 == DigitValue(b);
  }

  // ---------------------------------------------------------------------------
  // compute_next_date
  // ---------------------------------------------------------------------------

  /** Days added by a recurrence rule; zero for a rule the function does not know. */
  function RuleDays(rule: string): nat
  {
    if rule == "Daily" then 1
    else if rule == "Weekly" then 7
    else if rule == "Monthly" then 30
    else 0
  }

  /**
   * The next due date of a recurring task. The date is parsed first, whatever
   * the rule; "Daily", "Weekly" and "Monthly" move it by 1, 7 and 30 days and
   * reformat it; any other rule hands back the text it was given.
   */
  function ComputeNextDate(rule: string, dateText: string): (r: Result<string, DateError>)
    ensures ParseDate(dateText).Err? ==> r == Err(Unparsable)
    ensures ParseDate(dateText).Ok? && RuleDays(rule) == 0 ==> r == Ok(dateText)
    ensures ParseDate(dateText).Ok? && RuleDays(rule) > 0 ==>
      var d := ParseDate(dateText).value;
      (r.Ok? <==> Ordinal(d) + RuleDays(rule) <= MaxOrdinal)
      && (r.Ok? ==> Canonical(r.value) && ParseDate(r.value).Ok?
                    && Ordinal(ParseDate(r.value).value) == Ordinal(d) + RuleDays(rule))
      && (r.Err? ==> r.error == Overflow)
  {
    match ParseDate(dateText)
    case Err(e) => Err(e)
    case Ok(d) =>
      if RuleDays(rule) == 0 then Ok(dateText)
      else
        match AddDays(d, RuleDays(rule))
        case Err(e) => Err(e)
        case Ok(next) => ParseFormat(next); Ok(FormatDate(next))
  }

  /**
   * For a known rule, the result is the text of the one date lying exactly
   * `RuleDays(rule)` days after the parsed date.
   */
  lemma NextDateIs(rule: string, s: string, expected: Date, t: string)
    requires ParseDate(s).Ok? && RuleDays(rule) > 0
    requires ValidDate(expected) && Ordinal(expected) == Ordinal(ParseDate(s).value) + RuleDays(rule)
    requires FormatDate(expected) == t
    ensures ComputeNextDate(rule, s) == Ok(t)
  {
    OrdinalRange(expected);
    var r := ComputeNextDate(rule, s);
    var d' := ParseDate(r.value).value;
    OrdinalInjective(d', expected);
    FormatParse(r.value, d');
  }

  /** A zero-padded text parses to the date its digits spell, when that date exists. */
  lemma FieldsParse(s: string, d: Date)
    requires Canonical(s) && ValidDate(d)
    requires d.year == 100 * (10 * DigitValue(s[0]) + DigitValue(s[1])) + (10 * DigitValue(s[2]) + DigitValue(s[3]))
    requires d.month == 10 * DigitValue(s[5]) + DigitValue(s[6])
    requires d.day == 10 * DigitValue(s[8]) + DigitValue(s[9])
    ensures ParseDate(s) == Ok(d)
  {
    FormatOfFields(s, d);
    ParseFormat(d);
  }
}

module DateExamples {
  import opened Wrappers
  import opened Dates

  lemma DailyRollsOverYear()
    ensures ComputeNextDate("Daily", "2024-12-31") == Ok("2025-01-01")
  {
    FieldsParse("2024-12-31", Date(2024, 12, 31));
    FormatOfFields("2025-01-01", Date(2025, 1, 1));
    NextDateIs("Daily", "2024-12-31", Date(2025, 1, 1), "2025-01-01");
  }

  lemma DailyReachesLeapDay()
    ensures ComputeNextDate("Daily", "2024-02-28") == Ok("2024-02-29")
  {
    FieldsParse("2024-02-28", Date(2024, 2, 28));
    FormatOfFields("2024-02-29", Date(2024, 2, 29));
    NextDateIs("Daily", "2024-02-28", Date(2024, 2, 29), "2024-02-29");
  }

  lemma DailySkipsLeapDayInCommonYear()
    ensures ComputeNextDate("Daily", "2023-02-28") == Ok("2023-03-01")
  {
    FieldsParse("2023-02-28", Date(2023, 2, 28));
    FormatOfFields("2023-03-01", Date(2023, 3, 1));
    NextDateIs("Daily", "2023-02-28", Date(2023, 3, 1), "2023-03-01");
  }

  lemma WeeklyCrossesMonth()
    ensures ComputeNextDate("Weekly", "2025-01-28") == Ok("2025-02-04")
  {
    FieldsParse("2025-01-28", Date(2025, 1, 28));
    FormatOfFields("2025-02-04", Date(2025, 2, 4));
    NextDateIs("Weekly", "2025-01-28", Date(2025, 2, 4), "2025-02-04");
  }

  /** "Monthly" is a fixed 30 days, not the same day of the next month. */
  lemma MonthlyIsThirtyDays()
    ensures ComputeNextDate("Monthly", "2025-03-01") == Ok("2025-03-31")
  {
    FieldsParse("2025-03-01", Date(2025, 3, 1));
    FormatOfFields("2025-03-31", Date(2025, 3, 31));
    NextDateIs("Monthly", "2025-03-01", Date(2025, 3, 31), "2025-03-31");
  }

  lemma MonthlyFromMonthEnd()
    ensures ComputeNextDate("Monthly", "2025-01-31") == Ok("2025-03-02")
  {
    FieldsParse("2025-01-31", Date(2025, 1, 31));
    FormatOfFields("2025-03-02", Date(2025, 3, 2));
    NextDateIs("Monthly", "2025-01-31", Date(2025, 3, 2), "2025-03-02");
  }

  /** An unpadded date is accepted and the result comes back padded. */
  lemma UnpaddedDateIsNormalised()
    ensures ComputeNextDate("Daily", "2025-1-5") == Ok("2025-01-06")
  {
    FormatOfFields("2025-01-06", Date(2025, 1, 6));
    NextDateIs("Daily", "2025-1-5", Date(2025, 1, 6), "2025-01-06");
  }

  /** An unknown rule still needs a parsable date, and then changes nothing. */
  lemma UnknownRule()
    ensures ComputeNextDate("Yearly", "2025-1-5") == Ok("2025-1-5")
    ensures ComputeNextDate("Yearly", "2025-02-30") == Err(Unparsable)
  {
  }

  /** The last representable date cannot move forward. */
  lemma LastDateOverflows()
    ensures ComputeNextDate("Daily", "9999-12-31") == Err(Overflow)
  {
    FieldsParse("9999-12-31", MaxDate);
  }

  lemma MonthlyOverflowsNearTheEnd()
    ensures ComputeNextDate("Monthly", "9999-12-02") == Err(Overflow)
  {
    FieldsParse("9999-12-02", Date(9999, 12, 2));
  }

  lemma MonthlyReachesTheEnd()
    ensures ComputeNextDate("Monthly", "9999-12-01") == Ok("9999-12-31")
  {
    FieldsParse("9999-12-01", Date(9999, 12, 1));
    FormatOfFields("9999-12-31", Date(9999, 12, 31));
    NextDateIs("Monthly", "9999-12-01", Date(9999, 12, 31), "9999-12-31");
  }

  /** Year 0000, 29 February of a common year, month 13 and trailing text are rejected. */
  lemma RejectedDates()
    ensures ParseDate("0000-01-01") == Err(Unparsable)
    ensures ParseDate("2025-02-29") == Err(Unparsable)
    ensures ParseDate("2025-13-01") == Err(Unparsable)
    ensures ParseDate("2025-01-01 ") == Err(Unparsable)
  {
  }

  /** A leap day is accepted, and so is a day written with a leading blank. */
  lemma AcceptedDates()
    ensures ParseDate("2024-02-29") == Ok(Date(2024, 2, 29))
    ensures ParseDate("2025-01- 7") == Ok(Date(2025, 1, 7))
  {
  }
}
