/**
 * The calendar arithmetic behind the ledger: Python's `datetime.date`
 * (proleptic Gregorian, years 1 to 9999), its `toordinal()`, its
 * `isoformat()` and `datetime.strptime(s, "%Y-%m-%d").date()`.
 */
module Dates {
  import opened Wrappers
  import opened Text

  datatype Date = Date(year: int, month: int, day: int)

  const MinYear := 1
  const MaxYear := 9999

  predicate IsLeapYear(y: int)
  {
    y % 4 == 0 && (y % 100 != 0 || y % 400 == 0)
  }

  function DaysInMonth(y: int, m: int): int
    requires 1 <= m <= 12
  {
    if m == 2 then (if IsLeapYear(y) then 29 else 28)
    else if m == 4 || m == 6 || m == 9 || m == 11 then 30
    else 31
  }

  function DaysInYear(y: int): int
  {
    if IsLeapYear(y) then 366 else 365
  }

  /** The dates `datetime.date` can represent. */
  predicate ValidDate(d: Date)
  {
    MinYear <= d.year <= MaxYear && 1 <= d.month <= 12 && 1 <= d.day <= DaysInMonth(d.year, d.month)
  }

  /** Days in the years before `y`, counted from year 1. */
  function DaysBeforeYear(y: int): int
    requires y >= 1
  {
    var k := y - 1;
    k * 365 + k / 4 - k / 100 + k / 400
  }

  /** Days in the months of year `y` before month `m`. */
  function DaysBeforeMonth(y: int, m: int): int
    requires 1 <= m <= 12
  {
    var common := [0, 31, 59, 90, 120, 151, 181, 212, 243, 273, 304, 334][m - 1];
    if m > 2 && IsLeapYear(y) then common + 1 else common
  }

  /** `date.toordinal()`: 0001-01-01 is day 1. */
  function Ordinal(d: Date): int
    requires ValidDate(d)
  {
    DaysBeforeYear(d.year) + DaysBeforeMonth(d.year, d.month) + d.day
  }

  /** Chronological order: by year, then month, then day. */
  predicate DateLe(d: Date, e: Date)
  {
    d.year < e.year
    || (d.year == e.year && (d.month < e.month || (d.month == e.month && d.day <= e.day)))
  }

  lemma YearStep(y: int)
    requires y >= 1
    ensures DaysBeforeYear(y + 1) == DaysBeforeYear(y) + DaysInYear(y)
  {
    var k := y - 1;
    assert (k + 1) / 4 - k / 4 == (if y % 4 == 0 then 1 else 0);
    assert (k + 1) / 100 - k / 100 == (if y % 100 == 0 then 1 else 0);
    assert (k + 1) / 400 - k / 400 == (if y % 400 == 0 then 1 else 0);
  }

  lemma {:induction false} YearsApart(y1: int, y2: int)
    requires 1 <= y1 < y2
    ensures DaysBeforeYear(y1) + DaysInYear(y1) <= DaysBeforeYear(y2)
    decreases y2 - y1
  {
    YearStep(y1);
    if y1 + 1 < y2 {
      YearsApart(y1 + 1, y2);
    }
  }

  lemma MonthStep(y: int, m: int)
    requires 1 <= m < 12
    ensures DaysBeforeMonth(y, m + 1) == DaysBeforeMonth(y, m) + DaysInMonth(y, m)
  {
  }

  lemma {:induction false} MonthsApart(y: int, m1: int, m2: int)
    requires 1 <= m1 < m2 <= 12
    ensures DaysBeforeMonth(y, m1) + DaysInMonth(y, m1) <= DaysBeforeMonth(y, m2)
    decreases m2 - m1
  {
    MonthStep(y, m1);
    if m1 + 1 < m2 {
      MonthsApart(y, m1 + 1, m2);
    }
  }

  /** A date's ordinal lies within its year. */
  lemma OrdinalWithinYear(d: Date)
    requires ValidDate(d)
    ensures DaysBeforeYear(d.year) < Ordinal(d) <= DaysBeforeYear(d.year) + DaysInYear(d.year)
  {
    if d.month < 12 {
      MonthsApart(d.year, d.month, 12);
    }
  }

  lemma OrdinalStrictlyIncreasing(d: Date, e: Date)
    requires ValidDate(d) && ValidDate(e)
    requires DateLe(d, e) && d != e
    ensures Ordinal(d) < Ordinal(e)
  {
    if d.year < e.year {
      OrdinalWithinYear(d);
      OrdinalWithinYear(e);
      YearsApart(d.year, e.year);
    } else if d.month < e.month {
      MonthsApart(d.year, d.month, e.month);
    }
  }

  /** Ordinals order dates chronologically. */
  lemma OrdinalOrder(d: Date, e: Date)
    requires ValidDate(d) && ValidDate(e)
    ensures Ordinal(d) <= Ordinal(e) <==> DateLe(d, e)
  {
    if DateLe(d, e) && d != e {
      OrdinalStrictlyIncreasing(d, e);
    } else if !DateLe(d, e) {
      OrdinalStrictlyIncreasing(e, d);
    }
  }

  // ---------------------------------------------------------------------
  // isoformat and strptime
  // ---------------------------------------------------------------------

  /** `date.isoformat()`: `YYYY-MM-DD`, every field zero-padded. */
  function IsoFormat(d: Date): (s: string)
    requires ValidDate(d)
    ensures |s| == 10
  {
    Pad(d.year, 4) + ("-" + (Pad(d.month, 2) + ("-" + Pad(d.day, 2))))
  }

  /** The `%m` field of `strptime`: `1[0-2]|0[1-9]|[1-9]`. */
  function MonthField(t: string): (r: Option<int>)
    ensures r.Some? ==> 1 <= r.value <= 12
    ensures r.Some? ==> AllDigits(t) && r.value == DigitsValue(t)
  {
    ShortDigitsValue(t);
    if |t| == 1 && '1' <= t[0] <= '9' then Some(DigitValue(t[0]))
    else if |t| == 2 && t[0] == '1' && '0' <= t[1] <= '2' then Some(10 + DigitValue(t[1]))
    else if |t| == 2 && t[0] == '0' && '1' <= t[1] <= '9' then Some(DigitValue(t[1]))
    else None
  }

  /** The `%d` field of `strptime`: `3[01]|[12][0-9]|0[1-9]|[1-9]| [1-9]`. */
  function DayField(t: string): (r: Option<int>)
    ensures r.Some? ==> 1 <= r.value <= 31
    ensures r.Some? && AllDigits(t) ==> r.value == DigitsValue(t)
    ensures r.Some? && !AllDigits(t) ==> |t| == 2 && t[0] == ' ' && IsDigit(t[1]) && r.value == DigitValue(t[1])
  {
    ShortDigitsValue(t);
    if |t| == 1 && '1' <= t[0] <= '9' then Some(DigitValue(t[0]))
    else if |t| == 2 && t[0] == '3' && '0' <= t[1] <= '1' then Some(30 + DigitValue(t[1]))
    else if |t| == 2 && '1' <= t[0] <= '2' && IsDigit(t[1]) then Some(10 * DigitValue(t[0]) + DigitValue(t[1]))
    else if |t| == 2 && (t[0] == '0' || t[0] == ' ') && '1' <= t[1] <= '9' then Some(DigitValue(t[1]))
    else None
  }

  /**
   * `datetime.strptime(s, "%Y-%m-%d").date()`: four digits, a dash, the
   * month field, a dash and the day field must make up the whole string,
   * and the fields must name a real date; otherwise `strptime` raises
   * ValueError, which is `None` here.
   */
  function ParseIsoDate(s: string): (r: Option<Date>)
    ensures r.Some? ==> ValidDate(r.value)
    ensures r.Some? ==> forall i :: 0 <= i < |s| ==> IsDigit(s[i]) || s[i] == '-' || s[i] == ' '
  {
    if |s| < 8 || !AllDigits(s[..4]) || s[4] != '-' then None
    else
      var rest := s[5..];
      var cut := if rest[1] == '-' then 1 else if rest[2] == '-' then 2 else 0;
      if cut == 0 then None
      else
        match (MonthField(rest[..cut]), DayField(rest[cut + 1..]))
        case (Some(m), Some(d)) =>
          var year := DigitsValue(s[..4]);
          assert year < 10000 by {
            DigitsValueBound(s[..4]);
            assert Pow10(4) == 10000;
          }
          if year < MinYear || d > DaysInMonth(year, m) then None
          else
            assert s == s[..4] + ([s[4]] + (rest[..cut] + ([rest[cut]] + rest[cut + 1..])));
            Some(Date(year, m, d))
        case _ => None
  }

  /** Parsing what `isoformat` writes gives the date back. */
  lemma ParseIsoFormat(d: Date)
    requires ValidDate(d)
    ensures ParseIsoDate(IsoFormat(d)) == Some(d)
  {
    var s := IsoFormat(d);
    assert s[..4] == Pad(d.year, 4);
    PadValue(d.year, 4);
    var rest := s[5..];
    assert rest == Pad(d.month, 2) + ("-" + Pad(d.day, 2));
    assert rest[2] == '-';
    assert MonthField(rest[..2]) == Some(d.month) by {
      assert rest[..2] == Pad(d.month, 2);
      PadValue(d.month, 2);
      ShortDigitsValue(rest[..2]);
    }
    assert DayField(rest[3..]) == Some(d.day) by {
      assert rest[3..] == Pad(d.day, 2);
      PadValue(d.day, 2);
      ShortDigitsValue(rest[3..]);
    }
  }

  /** Everything after the year field of an ISO string. */
  function MonthAndDay(d: Date): string
    requires ValidDate(d)
  {
    "-" + (Pad(d.month, 2) + ("-" + Pad(d.day, 2)))
  }

  /** ISO strings of one year sort by their month and day. */
  lemma SameYearIsoOrder(d: Date, e: Date)
    requires ValidDate(d) && ValidDate(e) && d.year == e.year
    ensures LexLe(IsoFormat(d), IsoFormat(e)) <==> DateLe(d, e)
  {
    assert IsoFormat(d) == (Pad(d.year, 4) + "-") + (Pad(d.month, 2) + ("-" + Pad(d.day, 2)));
    assert IsoFormat(e) == (Pad(e.year, 4) + "-") + (Pad(e.month, 2) + ("-" + Pad(e.day, 2)));
    LexLeCommonPrefix(Pad(d.year, 4) + "-", Pad(d.month, 2) + ("-" + Pad(d.day, 2)), Pad(e.month, 2) + ("-" + Pad(e.day, 2)));
    if d.month != e.month {
      PadValue(d.month, 2);
      PadValue(e.month, 2);
      LexLeSameLength(Pad(d.month, 2), Pad(e.month, 2), "-" + Pad(d.day, 2), "-" + Pad(e.day, 2));
      PadOrder(d.month, e.month, 2);
    } else {
      assert Pad(d.month, 2) + ("-" + Pad(d.day, 2)) == (Pad(d.month, 2) + "-") + Pad(d.day, 2);
      assert Pad(e.month, 2) + ("-" + Pad(e.day, 2)) == (Pad(e.month, 2) + "-") + Pad(e.day, 2);
      LexLeCommonPrefix(Pad(d.month, 2) + "-", Pad(d.day, 2), Pad(e.day, 2));
      PadOrder(d.day, e.day, 2);
    }
  }

  /** For valid dates the ISO strings sort exactly as the dates do. */
  lemma IsoOrder(d: Date, e: Date)
    requires ValidDate(d) && ValidDate(e)
    ensures LexLe(IsoFormat(d), IsoFormat(e)) <==> Ordinal(d) <= Ordinal(e)
  {
    OrdinalOrder(d, e);
    if d.year != e.year {
      assert IsoFormat(d) == Pad(d.year, 4) + MonthAndDay(d);
      assert IsoFormat(e) == Pad(e.year, 4) + MonthAndDay(e);
      PadValue(d.year, 4);
      PadValue(e.year, 4);
      LexLeSameLength(Pad(d.year, 4), Pad(e.year, 4), MonthAndDay(d), MonthAndDay(e));
      PadOrder(d.year, e.year, 4);
    } else {
      SameYearIsoOrder(d, e);
    }
  }
}
