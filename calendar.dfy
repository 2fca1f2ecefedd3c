/**
 * Proleptic Gregorian dates as Python's datetime handles them (years 1 to 9999), the one-day
 * step `date - timedelta(days=1)` the crawl takes, and the `YYYY-MM-DD` text form that
 * `strftime('%Y-%m-%d')` writes and `strptime(..., '%Y-%m-%d')` reads back (the full-date of
 * section 5.6 of RFC 3339).
 */
module Calendar {
  import opened Wrappers
  import opened Decimal

  datatype Date = Date(year: int, month: int, day: int)

  predicate IsLeap(y: int) {
    y % 4 == 0 && (y % 100 != 0 || y % 400 == 0)
  }

  function DaysInMonth(y: int, m: int): (n: int)
    requires 1 <= m <= 12
    ensures 28 <= n <= 31
  {
    if m == 2 then (if IsLeap(y) then 29 else 28)
    else if m == 4 || m == 6 || m == 9 || m == 11 then 30
    else 31
  }

  /** datetime.MINYEAR .. datetime.MAXYEAR, a month of the year, a day of that month. */
  predicate Valid(d: Date) {
    1 <= d.year <= 9999 && 1 <= d.month <= 12 && 1 <= d.day <= DaysInMonth(d.year, d.month)
  }

  /** A date Python's datetime can represent. */
  type Day = d: Date | Valid(d) witness Date(1, 1, 1)

  /** 0001-01-01, the earliest date; subtracting a day from it raises OverflowError. */
  const Epoch: Day := Date(1, 1, 1)

  /** The days of the years before year y. */
  function DaysBeforeYear(y: int): int
    requires y >= 1
  {
    if y == 1 then 0 else DaysBeforeYear(y - 1) + (if IsLeap(y - 1) then 366 else 365)
  }

  function DaysBeforeMonth(y: int, m: int): int
    requires 1 <= m <= 12
  {
    if m == 1 then 0 else DaysBeforeMonth(y, m - 1) + DaysInMonth(y, m - 1)
  }

  /** date.toordinal(): the number of the day counted from 0001-01-01, which is day 1. */
  function Ordinal(d: Day): int {
    DaysBeforeYear(d.year) + DaysBeforeMonth(d.year, d.month) + d.day
  }

  /**
   * `d - timedelta(days=1)`: the previous calendar day, across month, year and leap-year
   * boundaries; None where Python raises OverflowError (before 0001-01-01).
   */
  function PrevDay(d: Day): (r: Option<Day>)
    ensures r.None? <==> d == Epoch
  {
    if d.day > 1 then Some(Date(d.year, d.month, d.day - 1))
    else if d.month > 1 then Some(Date(d.year, d.month - 1, DaysInMonth(d.year, d.month - 1)))
    else if d.year > 1 then Some(Date(d.year - 1, 12, 31))
    else None
  }

  /** The previous day is the day numbered one less. */
  lemma PrevDayOrdinal(d: Day)
    ensures PrevDay(d).Some? ==> Ordinal(PrevDay(d).value) == Ordinal(d) - 1
  {
    if d.day == 1 && d.month == 1 && d.year > 1 {
      YearStep(d.year);
    }
  }

  /** A year holds 365 days, plus one when it is a leap year. */
  lemma YearStep(y: int)
    requires y >= 2
    ensures DaysBeforeYear(y) == DaysBeforeYear(y - 1) + DaysBeforeMonth(y - 1, 12) + 31
  {
    DaysBeforeDecember(y - 1);
  }

  /** The count is the closed form Python's datetime module computes (`_days_before_year`). */
  lemma {:induction false} DaysBeforeYearClosed(y: int)
    requires y >= 1
    ensures var p := y - 1; DaysBeforeYear(y) == 365 * p + p / 4 - p / 100 + p / 400
  {
    if y > 1 {
      DaysBeforeYearClosed(y - 1);
      var p := y - 1;
      DivStep(p, 4);
      DivStep(p, 100);
      DivStep(p, 400);
      if p % 100 == 0 {
        ModUnique(p, 4, 25 * (p / 100), 0);
      }
      if p % 400 == 0 {
        ModUnique(p, 100, 4 * (p / 400), 0);
      }
    }
  }

  lemma DaysBeforeDecember(y: int)
    ensures DaysBeforeMonth(y, 12) == 334 + (if IsLeap(y) then 1 else 0)
  {
    assert DaysBeforeMonth(y, 2) == 31;
    assert DaysBeforeMonth(y, 4) == 62 + DaysInMonth(y, 2);
    assert DaysBeforeMonth(y, 6) == DaysBeforeMonth(y, 4) + 61;
    assert DaysBeforeMonth(y, 8) == DaysBeforeMonth(y, 6) + 61;
    assert DaysBeforeMonth(y, 10) == DaysBeforeMonth(y, 8) + 61;
    assert DaysBeforeMonth(y, 12) == DaysBeforeMonth(y, 10) + 61;
  }

  /** Every day has a positive number, and 0001-01-01 is day 1. */
  lemma OrdinalPositive(d: Day)
    ensures Ordinal(d) >= 1 && Ordinal(Epoch) == 1
  {
    YearsBeforeNonNegative(d.year);
    MonthsBeforeNonNegative(d.year, d.month);
  }

  lemma {:induction false} YearsBeforeNonNegative(y: int)
    requires y >= 1
    ensures DaysBeforeYear(y) >= 0
  {
    if y > 1 {
      YearsBeforeNonNegative(y - 1);
    }
  }

  lemma {:induction false} MonthsBeforeNonNegative(y: int, m: int)
    requires 1 <= m <= 12
    ensures DaysBeforeMonth(y, m) >= 0
  {
    if m > 1 {
      MonthsBeforeNonNegative(y, m - 1);
    }
  }

  /** p / k grows by one exactly when k divides p. */
  lemma DivStep(p: nat, k: nat)
    requires p >= 1 && k >= 1
    ensures p / k == (p - 1) / k + (if p % k == 0 then 1 else 0)
  {
    var a, b := (p - 1) / k, (p - 1) % k;
    if b == k - 1 {
      ModUnique(p, k, a + 1, 0);
    } else {
      ModUnique(p, k, a, b + 1);
    }
  }

  /** strftime('%Y-%m-%d'): four-digit year, two-digit month and day. */
  function Format(d: Day): (s: string)
    ensures |s| == 10 && s[4] == '-' && s[7] == '-'
    ensures forall i :: 0 <= i < |s| ==> IsDigit(s[i]) || s[i] == '-'
  {
    Pad(d.year, 4) + "-" + Pad(d.month, 2) + "-" + Pad(d.day, 2)
  }

  function IndexOf(s: string, c: char): (r: Option<nat>)
    ensures r.Some? ==> r.value < |s| && s[r.value] == c && c !in s[..r.value]
    ensures r.None? ==> c !in s
  {
    if s == [] then None
    else if s[0] == c then Some(0)
    else match IndexOf(s[1..], c)
      case None => None
      case Some(k) => assert s[..k + 1] == [s[0]] + s[1..][..k]; Some(k + 1)
  }

  /** What `%m` accepts in strptime: `1[0-2]|0[1-9]|[1-9]`. */
  function MonthField(t: string): (r: Option<int>)
    ensures r.Some? ==> 1 <= r.value <= 12
  {
    if |t| == 1 && '1' <= t[0] <= '9' then Some(t[0] as int - '0' as int)
    else if |t| == 2 && AllDigits(t) && 1 <= Value(t) <= 12 then Some(Value(t))
    else None
  }

  /** What `%d` accepts in strptime: `3[01]|[12]\d|0[1-9]|[1-9]| [1-9]`. */
  function DayField(t: string): (r: Option<int>)
    ensures r.Some? ==> 1 <= r.value <= 31
  {
    if |t| == 1 && '1' <= t[0] <= '9' then Some(t[0] as int - '0' as int)
    else if |t| == 2 && AllDigits(t) && 1 <= Value(t) <= 31 then Some(Value(t))
    else if |t| == 2 && t[0] == ' ' && '1' <= t[1] <= '9' then Some(t[1] as int - '0' as int)
    else None
  }

  /**
   * datetime.strptime(s, '%Y-%m-%d'): exactly four year digits, a dash, the month, a dash and
   * the day, with nothing left over, naming a date that exists; None where Python raises ValueError.
   */
  function ParseYmd(s: string): (r: Option<Day>)
    ensures r.Some? ==> 8 <= |s| <= 10 && s[4] == '-' && '-' in s[5..]
    ensures r.Some? ==> AllDigits(s[..4]) && r.value.year == Value(s[..4])
  {
    if |s| < 5 || !AllDigits(s[..4]) || s[4] != '-' then None
    else
      var rest := s[5..];
      match IndexOf(rest, '-')
      case None => None
      case Some(k) =>
        var m := MonthField(rest[..k]);
        var d := DayField(rest[k + 1..]);
        if m.Some? && d.Some? && Valid(Date(Value(s[..4]), m.value, d.value))
        then Some(Date(Value(s[..4]), m.value, d.value))
        else None
  }

  lemma PadSmall(n: nat, width: nat)
    requires n < Pow10(width)
    ensures Value(Pad(n, width)) == n
  {
    ValuePad(n, width);
    ModUnique(n, Pow10(width), 0, n);
  }

  lemma Split(a: string, b: string)
    ensures (a + "-" + b)[..|a|] == a && (a + "-" + b)[|a|] == '-' && (a + "-" + b)[|a| + 1..] == b
  {
  }

  /** The resume round trip: what strftime writes, strptime reads back as the same date. */
  lemma ParseFormat(d: Day)
    ensures ParseYmd(Format(d)) == Some(d)
  {
    var y, m, dd := Pad(d.year, 4), Pad(d.month, 2), Pad(d.day, 2);
    var rest := m + "-" + dd;
    var s := y + "-" + rest;
    assert Format(d) == s;
    Split(y, rest);
    Split(m, dd);
    PadSmall(d.year, 4);
    PadSmall(d.month, 2);
    PadSmall(d.day, 2);
    assert s[5..] == rest;
    assert IndexOf(rest, '-') == Some(2) by {
      assert rest[0] != '-' && rest[1] != '-' && rest[2] == '-';
    }
    assert MonthField(rest[..2]) == Some(d.month);
    assert DayField(rest[3..]) == Some(d.day);
  }

  /**
   * strptime also accepts single-digit and blank-led month and day fields, so a date text it
   * reads need not be the strftime form of its date.
   */
  lemma ShortFieldsAccepted()
    ensures ParseYmd("2025-1-5") == ParseYmd("2025-01- 5") == Some(Date(2025, 1, 5))
    ensures forall d: Day :: Format(d) != "2025-1-5" && Format(d) != "2025-01- 5"
  {
    Year2025();
    SingleDigits();
    BlankLedDay();
    forall d: Day ensures Format(d) != "2025-01- 5" {
      assert !IsDigit("2025-01- 5"[8]);
    }
  }

  lemma Year2025()
    ensures AllDigits("2025") && Value("2025") == 2025 && Valid(Date(2025, 1, 5))
  {
    assert Value("2") == 2 && "20"[..1] == "2";
    assert Value("20") == 20 && "202"[..2] == "20";
    assert Value("202") == 202 && "2025"[..3] == "202";
  }

  lemma SingleDigits()
    requires Value("2025") == 2025 && Valid(Date(2025, 1, 5))
    ensures ParseYmd("2025-1-5") == Some(Date(2025, 1, 5))
  {
    var s := "2025-1-5";
    assert s[..4] == "2025" && s[5..] == "1-5";
    assert "1-5"[..1] == "1" && "1-5"[2..] == "5";
    assert MonthField("1") == Some(1) && DayField("5") == Some(5);
    ParseDashed(s, "1-5", 1, 1, 5);
  }

  lemma BlankLedDay()
    requires Value("2025") == 2025 && Valid(Date(2025, 1, 5))
    ensures ParseYmd("2025-01- 5") == Some(Date(2025, 1, 5))
  {
    var s := "2025-01- 5";
    assert s[..4] == "2025" && s[5..] == "01- 5";
    assert "01- 5"[..2] == "01" && "01- 5"[3..] == " 5";
    assert Value("01") == 1 && "01"[..1] == "0";
    assert MonthField("01") == Some(1) && DayField(" 5") == Some(5);
    ParseDashed(s, "01- 5", 2, 1, 5);
  }

  /** A dashed text with the year 2025 is read through the fields around its second dash. */
  lemma ParseDashed(s: string, rest: string, k: nat, m: int, d: int)
    requires |s| >= 5 && s[..4] == "2025" && s[4] == '-' && s[5..] == rest && Value("2025") == 2025
    requires k < |rest| && rest[k] == '-' && '-' !in rest[..k]
    requires MonthField(rest[..k]) == Some(m) && DayField(rest[k + 1..]) == Some(d)
    requires Valid(Date(2025, m, d))
    ensures ParseYmd(s) == Some(Date(2025, m, d))
  {
    IndexOfFirst(rest, '-', k);
  }

  lemma IndexOfFirst(s: string, c: char, k: nat)
    requires k < |s| && s[k] == c && c !in s[..k]
    ensures IndexOf(s, c) == Some(k)
  {
  }

  /**
   * The converse: a ten-character string without blanks that strptime accepts is exactly the
   * strftime form of the date it denotes, so the canonical spelling is the only one of its length.
   */
  lemma FormatParse(s: string)
    requires |s| == 10 && ' ' !in s && ParseYmd(s).Some?
    ensures Format(ParseYmd(s).value) == s
  {
    var d := ParseYmd(s).value;
    var rest := s[5..];
    var k := IndexOf(rest, '-').value;
    var yt, mt, dt := s[..4], rest[..k], rest[k + 1..];
    assert MonthField(mt) == Some(d.month) && DayField(dt) == Some(d.day);
    assert |dt| == 4 - k;
    assert k == 2 && |dt| == 2;
    assert dt[0] == s[8];
    assert AllDigits(mt) && AllDigits(dt);
    PadValue(yt);
    PadValue(mt);
    PadValue(dt);
    assert Pad(d.year, 4) == yt && Pad(d.month, 2) == mt && Pad(d.day, 2) == dt;
    assert rest == mt + "-" + dt;
    assert s == yt + "-" + rest;
  }
}
