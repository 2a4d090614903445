/** The offset between two broken-down times, by a closed form and by counting days. */
module Calendar {

  /** The fields of a broken-down time that matter here; years count from 1900. */
  datatype Tm = Tm(year: int, mon: int, mday: int, hour: int, min: int, sec: int, yday: int, wday: int)

  /** Division as in C: toward zero. */
  function TruncDiv(n: int, d: int): int
    requires d > 0
  {
    if n >= 0 then n / d else -((-n) / d)
  }

  /** An arithmetic shift right by two: toward minus infinity. */
  function ShiftRight2(n: int): int {
    n / 4
  }

  function GmtOffset(local: Tm, gmt: Tm): int {
    var localYear := local.year + (1900 - 1);
    var gmtYear := gmt.year + (1900 - 1);
    var days := local.yday - gmt.yday
      + (ShiftRight2(localYear) - ShiftRight2(gmtYear))
      - (TruncDiv(localYear, 100) - TruncDiv(gmtYear, 100))
      + (ShiftRight2(TruncDiv(localYear, 100)) - ShiftRight2(TruncDiv(gmtYear, 100)))
      + (localYear - gmtYear) * 365;
    var hours := 24 * days + (local.hour - gmt.hour);
    var mins := 60 * hours + (local.min - gmt.min);
    60 * mins + (local.sec - gmt.sec)
  }

  // The same by counting.

  predicate IsLeap(y: int) {
    y % 4 == 0 && (y % 100 != 0 || y % 400 == 0)
  }

  function YearLength(y: int): nat {
    if IsLeap(y) then 366 else 365
  }

  /** Days from the first of January of year 1 to that of year y, one year at a time;
      negative for earlier years. */
  function DaysBefore(y: int): int
    decreases if y < 1 then 1 - y else y - 1
  {
    if y == 1 then 0
    else if y > 1 then DaysBefore(y - 1) + YearLength(y - 1)
    else DaysBefore(y + 1) - YearLength(y)
  }

  /** Seconds from the start of year 1. */
  function SecondsOf(t: Tm): int {
    (((DaysBefore(t.year + 1900) + t.yday) * 24 + t.hour) * 60 + t.min) * 60 + t.sec
  }

  /** Leap years among years 1 to n, by inclusion and exclusion. */
  function LeapDays(n: int): int {
    n / 4 - n / 100 + n / 400
  }

  lemma LeapDaysStep(n: int)
    ensures LeapDays(n) == LeapDays(n - 1) + (if IsLeap(n) then 1 else 0)
  {
    QuotientStep(n, 4);
    QuotientStep(n, 100);
    QuotientStep(n, 400);
    if n % 400 == 0 { MultipleOf100(n); }
    if n % 100 == 0 { MultipleOf4(n); }
    hide *;
    LeapDaysSum(n);
  }

  lemma LeapDaysSum(n: int)
    requires n / 4 == (n - 1) / 4 + (if n % 4 == 0 then 1 else 0)
    requires n / 100 == (n - 1) / 100 + (if n % 100 == 0 then 1 else 0)
    requires n / 400 == (n - 1) / 400 + (if n % 400 == 0 then 1 else 0)
    requires (n % 400 == 0 ==> n % 100 == 0) && (n % 100 == 0 ==> n % 4 == 0)
    ensures LeapDays(n) == LeapDays(n - 1) + (if IsLeap(n) then 1 else 0)
  {
  }

  lemma MultipleOf100(n: int)
    requires n % 400 == 0
    ensures n % 100 == 0
  {
    var k, q := n / 400, n / 100;
    assert n == 400 * k;
    assert 100 * q <= n < 100 * q + 100;
    assert q == 4 * k;
  }

  lemma MultipleOf4(n: int)
    requires n % 100 == 0
    ensures n % 4 == 0
  {
    var k, q := n / 100, n / 4;
    assert n == 100 * k;
    assert 4 * q <= n < 4 * q + 4;
    assert q == 25 * k;
  }

  lemma QuotientStep(n: int, d: int)
    requires d == 4 || d == 100 || d == 400
    ensures n / d == (n - 1) / d + (if n % d == 0 then 1 else 0)
  {
  }

  lemma {:induction false} DaysBeforeClosed(y: int)
    ensures DaysBefore(y) == 365 * (y - 1) + LeapDays(y - 1)
    decreases if y < 1 then 1 - y else y - 1
  {
    if y > 1 {
      DaysBeforeClosed(y - 1);
      LeapDaysStep(y - 1);
    } else if y < 1 {
      DaysBeforeClosed(y + 1);
      LeapDaysStep(y);
    }
  }

  /** A year, less one, whose century the code rounds the wrong way: before year 1, not
      a whole century, and in a century that is not the last of four. */
  predicate OffByADay(n: int) {
    n < 0 && n % 100 != 0 && TruncDiv(n, 100) % 4 != 0
  }

  /** The code's day count is that of the calendar, less a day for those years. */
  lemma CodeLeapDays(n: int)
    ensures ShiftRight2(n) - TruncDiv(n, 100) + ShiftRight2(TruncDiv(n, 100))
         == LeapDays(n) - (if OffByADay(n) then 1 else 0)
  {
    Centuries(n);
    if n < 0 {
      TruncatedCentury(n);
      QuotientStep(n / 100 + 1, 4);
    }
  }

  lemma Centuries(n: int)
    ensures n / 400 == n / 100 / 4
  {
  }

  lemma TruncatedCentury(n: int)
    requires n < 0
    ensures TruncDiv(n, 100) == n / 100 + (if n % 100 == 0 then 0 else 1)
  {
  }

  /** What the code counts for one of the two times. */
  function CodeSeconds(t: Tm): int {
    var n := t.year + 1899;
    var days := 365 * n + (ShiftRight2(n) - TruncDiv(n, 100) + ShiftRight2(TruncDiv(n, 100))) + t.yday;
    60 * (60 * (24 * days + t.hour) + t.min) + t.sec
  }

  lemma CodeSecondsCounted(t: Tm)
    ensures CodeSeconds(t) == SecondsOf(t) - 86400 * (if OffByADay(t.year + 1899) then 1 else 0)
  {
    DaysBeforeClosed(t.year + 1900);
    CodeLeapDays(t.year + 1899);
    hide DaysBefore;
    hide LeapDays;
    hide ShiftRight2;
    hide TruncDiv;
    hide OffByADay;
  }

  lemma OffsetSum(local: Tm, gmt: Tm)
    ensures GmtOffset(local, gmt) == CodeSeconds(local) - CodeSeconds(gmt)
  {
  }

  /** The closed form and the count, for all broken-down times. */
  lemma OffsetCounted(local: Tm, gmt: Tm)
    ensures GmtOffset(local, gmt)
         == SecondsOf(local) - SecondsOf(gmt)
            - 86400 * ((if OffByADay(local.year + 1899) then 1 else 0) - (if OffByADay(gmt.year + 1899) then 1 else 0))
  {
    CodeSecondsCounted(local);
    CodeSecondsCounted(gmt);
    OffsetSum(local, gmt);
    hide *;
  }

  /** The offset is the difference of the two times exactly when the code misjudges
      both years or neither; in particular for all years from 1 on. */
  lemma OffsetExact(local: Tm, gmt: Tm)
    ensures GmtOffset(local, gmt) == SecondsOf(local) - SecondsOf(gmt)
        <==> OffByADay(local.year + 1899) == OffByADay(gmt.year + 1899)
    ensures local.year >= -1899 && gmt.year >= -1899 ==>
              GmtOffset(local, gmt) == SecondsOf(local) - SecondsOf(gmt)
  {
    OffsetCounted(local, gmt);
    hide GmtOffset;
    hide SecondsOf;
  }

  /** An hour's difference across the new year of year -99: the code is a day off. */
  lemma OffsetWrongBeforeYearOne()
    ensures var gmt := Tm(-2000, 11, 31, 23, 0, 0, 364, 0);
            var local := Tm(-1999, 0, 1, 0, 0, 0, 0, 0);
            SecondsOf(local) - SecondsOf(gmt) == 3600 && GmtOffset(local, gmt) == 3600 + 86400
  {
    var gmt, local := Tm(-2000, 11, 31, 23, 0, 0, 364, 0), Tm(-1999, 0, 1, 0, 0, 0, 0, 0);
    Year100();
    hide DaysBefore, GmtOffset, OffByADay, TruncDiv, IsLeap, YearLength;
    OffsetCounted(local, gmt);
  }

  lemma Year100()
    ensures DaysBefore(-100) == DaysBefore(-99) - 365
    ensures OffByADay(-101) && !OffByADay(-100)
  {
  }
}
