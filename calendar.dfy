/** The proleptic Gregorian calendar the week helpers rely on.

    A day is an integer day number: day 0 is 1970-01-01, so adding n to a day
    number is what `Date.setDate(getDate() + n)` does with its month and year
    rollover. A `Date` triple is the value a 'YYYY-MM-DD' date string stands for.
 */
module Calendar {

  datatype Date = Date(year: int, month: int, day: int) {
    predicate Valid() {
      1 <= month <= 12 && 1 <= day <= DaysInMonth(year, month)
    }
  }

  /** A date that exists in the calendar. */
  type CivilDate = d: Date | d.Valid() witness Date(1970, 1, 1)

  predicate IsLeapYear(y: int) {
    y % 4 == 0 && (y % 100 != 0 || y % 400 == 0)
  }

  function DaysInYear(y: int): int {
    if IsLeapYear(y) then 366 else 365
  }

  function DaysInMonth(y: int, m: int): int
    requires 1 <= m <= 12
  {
    if m == 2 then (if IsLeapYear(y) then 29 else 28)
    else if m == 4 || m == 6 || m == 9 || m == 11 then 30
    else 31
  }

  /** Days of year y that come before month m. */
  function MonthStart(y: int, m: int): (r: int)
    requires 1 <= m <= 12
    ensures 0 <= r <= 335
  {
    [0, 31, 59, 90, 120, 151, 181, 212, 243, 273, 304, 334][m - 1]
      + (if m > 2 && IsLeapYear(y) then 1 else 0)
  }

  lemma MonthStartStep(y: int, m: int)
    requires 1 <= m <= 12
    ensures m < 12 ==> MonthStart(y, m + 1) == MonthStart(y, m) + DaysInMonth(y, m)
    ensures m == 12 ==> MonthStart(y, m) + DaysInMonth(y, m) == DaysInYear(y)
  {
  }

  /** The leap years among years 1 .. p (for p >= 0). */
  function LeapsThrough(p: int): int {
    p / 4 - p / 100 + p / 400
  }

  /** Day number of 1 January of year y. */
  function YearStart(y: int): int {
    365 * (y - 1970) + LeapsThrough(y - 1) - 477
  }

  /** Year y adds one to the leap count exactly when it is a leap year. */
  lemma LeapStep(y: int)
    ensures LeapsThrough(y) - LeapsThrough(y - 1) == if IsLeapYear(y) then 1 else 0
  {
    DivStep(y, 4);
    DivStep(y, 100);
    DivStep(y, 400);
    DivisorChain(y);
    if y % 4 != 0 {
      assert y % 100 != 0 && y % 400 != 0;
    } else if y % 100 != 0 {
      assert y % 400 != 0;
    }
  }

  /** A multiple of 400 is a multiple of 100, and a multiple of 100 one of 4. */
  lemma DivisorChain(y: int)
    ensures y % 400 == 0 ==> y % 100 == 0
    ensures y % 100 == 0 ==> y % 4 == 0
  {
    if y % 400 == 0 {
      MultipleOf(y, 400, 100);
    }
    if y % 100 == 0 {
      MultipleOf(y, 100, 4);
    }
  }

  /** A multiple of d is a multiple of every divisor e of d. */
  lemma MultipleOf(y: int, d: int, e: int)
    requires (d == 400 && e == 100) || (d == 100 && e == 4)
    requires y % d == 0
    ensures y % e == 0
  {
    var k := y / d;
    assert y == d * k;
    if d == 400 {
      assert y == 100 * (4 * k);
    } else {
      assert y == 4 * (25 * k);
    }
  }

  lemma YearStartStep(y: int)
    ensures YearStart(y + 1) == YearStart(y) + DaysInYear(y)
  {
    LeapStep(y);
    assert YearStart(y + 1) == 365 * (y + 1 - 1970) + LeapsThrough(y) - 477;
  }

  /** Going from y - 1 to y passes one more multiple of d exactly when d divides y. */
  lemma DivStep(y: int, d: int)
    requires d == 4 || d == 100 || d == 400
    ensures y / d - (y - 1) / d == if y % d == 0 then 1 else 0
  {
    if d == 4 {
      assert y / 4 - (y - 1) / 4 == if y % 4 == 0 then 1 else 0;
    } else if d == 100 {
      assert y / 100 - (y - 1) / 100 == if y % 100 == 0 then 1 else 0;
    } else {
      assert y / 400 - (y - 1) / 400 == if y % 400 == 0 then 1 else 0;
    }
  }

  lemma {:induction false} YearStartMonotone(a: int, b: int)
    requires a <= b
    ensures YearStart(a) + 365 * (b - a) <= YearStart(b)
    decreases b - a
  {
    if a < b {
      YearStartStep(a);
      YearStartMonotone(a + 1, b);
    }
  }

  /** Steps back from year y to a year that starts on or before day z. */
  function YearDown(z: int, y: int): (r: int)
    ensures YearStart(r) <= z
    decreases if YearStart(y) > z then YearStart(y) - z else 0
  {
    if YearStart(y) <= z then y
    else
      YearStartStep(y - 1);
      YearDown(z, y - 1)
  }

  /** Steps forward from a year starting on or before day z to the year holding z. */
  function YearUp(z: int, y: int): (r: int)
    requires YearStart(y) <= z
    ensures YearStart(r) <= z < YearStart(r + 1)
    decreases z - YearStart(y)
  {
    YearStartStep(y);
    if z < YearStart(y + 1) then y else YearUp(z, y + 1)
  }

  /** The year that day z falls in. */
  function YearOf(z: int): (y: int)
    ensures YearStart(y) <= z < YearStart(y + 1)
  {
    YearUp(z, YearDown(z, 1970))
  }

  lemma YearOfUnique(z: int, y: int)
    requires YearStart(y) <= z < YearStart(y + 1)
    ensures YearOf(z) == y
  {
    YearsDisjoint(YearOf(z), y, z);
  }

  /** No day lies in two different years. */
  lemma YearsDisjoint(x: int, y: int, z: int)
    requires YearStart(x) <= z < YearStart(x + 1)
    requires YearStart(y) <= z < YearStart(y + 1)
    ensures x == y
  {
    if x < y {
      YearStartMonotone(x + 1, y);
    } else if x > y {
      YearStartMonotone(y + 1, x);
    }
  }

  /** The month of year y that holds its day doy (counted from 0). */
  function MonthOfYear(y: int, doy: int): (m: int)
    requires 0 <= doy < DaysInYear(y)
    ensures 1 <= m <= 12
    ensures MonthStart(y, m) <= doy < MonthStart(y, m) + DaysInMonth(y, m)
  {
    if doy >= MonthStart(y, 12) then 12
    else if doy >= MonthStart(y, 11) then 11
    else if doy >= MonthStart(y, 10) then 10
    else if doy >= MonthStart(y, 9) then 9
    else if doy >= MonthStart(y, 8) then 8
    else if doy >= MonthStart(y, 7) then 7
    else if doy >= MonthStart(y, 6) then 6
    else if doy >= MonthStart(y, 5) then 5
    else if doy >= MonthStart(y, 4) then 4
    else if doy >= MonthStart(y, 3) then 3
    else if doy >= MonthStart(y, 2) then 2
    else 1
  }

  /** The day number of a date. */
  function DaysFromCivil(d: CivilDate): (z: int)
    ensures YearStart(d.year) <= z < YearStart(d.year + 1)
  {
    YearStartStep(d.year);
    YearStart(d.year) + MonthStart(d.year, d.month) + d.day - 1
  }

  /** The date of a day number. */
  function CivilFromDays(z: int): (d: CivilDate)
    ensures DaysFromCivil(d) == z
  {
    var y := YearOf(z);
    YearStartStep(y);
    var doy := z - YearStart(y);
    var m := MonthOfYear(y, doy);
    Date(y, m, doy - MonthStart(y, m) + 1)
  }

  lemma {:induction false} CivilRoundTrip(d: CivilDate)
    ensures CivilFromDays(DaysFromCivil(d)) == d
  {
    var z := DaysFromCivil(d);
    var e := CivilFromDays(z);
    YearOfUnique(z, d.year);
    assert e.year == d.year;
    MonthUnique(d.year, e.month, d.month, z - YearStart(d.year));
  }

  lemma {:induction false} MonthUnique(y: int, m1: int, m2: int, doy: int)
    requires 1 <= m1 <= 12 && 1 <= m2 <= 12
    requires MonthStart(y, m1) <= doy < MonthStart(y, m1) + DaysInMonth(y, m1)
    requires MonthStart(y, m2) <= doy < MonthStart(y, m2) + DaysInMonth(y, m2)
    ensures m1 == m2
  {
    if m1 != m2 {
      var lo, hi := if m1 < m2 then m1 else m2, if m1 < m2 then m2 else m1;
      MonthStartsIncrease(y, lo, hi);
    }
  }

  lemma {:induction false} MonthStartsIncrease(y: int, lo: int, hi: int)
    requires 1 <= lo < hi <= 12
    ensures MonthStart(y, lo) + DaysInMonth(y, lo) <= MonthStart(y, hi)
    decreases hi - lo
  {
    MonthStartStep(y, lo);
    if lo + 1 < hi {
      MonthStartsIncrease(y, lo + 1, hi);
      MonthStartStep(y, lo + 1);
    }
  }

  /** Day numbers and dates are in one-to-one correspondence, in the same order. */
  lemma DaysFromCivilInjective(a: CivilDate, b: CivilDate)
    ensures DaysFromCivil(a) == DaysFromCivil(b) <==> a == b
  {
    CivilRoundTrip(a);
    CivilRoundTrip(b);
  }

  /** Date order: year, then month, then day, the order in which 'YYYY-MM-DD' strings
      of four-digit years compare. */
  predicate Before(a: Date, b: Date) {
    a.year < b.year || (a.year == b.year && (a.month < b.month || (a.month == b.month && a.day < b.day)))
  }

  lemma {:induction false} BeforeMeansEarlier(a: CivilDate, b: CivilDate)
    requires Before(a, b)
    ensures DaysFromCivil(a) < DaysFromCivil(b)
  {
    if a.year < b.year {
      YearStartMonotone(a.year + 1, b.year);
    } else if a.month < b.month {
      MonthStartsIncrease(a.year, a.month, b.month);
    }
  }

  /** Day numbers order dates as the calendar does. */
  lemma DaysFromCivilOrder(a: CivilDate, b: CivilDate)
    ensures DaysFromCivil(a) < DaysFromCivil(b) <==> Before(a, b)
  {
    if Before(a, b) {
      BeforeMeansEarlier(a, b);
    } else if Before(b, a) {
      BeforeMeansEarlier(b, a);
    } else {
      assert a == b;
    }
  }

  /** Day of the week as `Date.getDay` numbers it: 0 is Sunday, 1 Monday, ... 6 Saturday. */
  function Weekday(z: int): (w: int)
    ensures 0 <= w < 7
  {
    (z + 4) % 7
  }

  /** The Monday of the week that holds day z; a Sunday belongs to the week before it. */
  function WeekStart(z: int): (m: int)
    ensures Weekday(m) == 1
    ensures m <= z <= m + 6
    ensures Weekday(z) == 0 <==> z == m + 6
  {
    var day := Weekday(z);
    z - day + (if day == 0 then -6 else 1)
  }

  /** A Monday m is the week start of exactly the days m .. m+6. */
  lemma WeekStartUnique(m: int, z: int)
    requires Weekday(m) == 1
    ensures WeekStart(z) == m <==> m <= z <= m + 6
  {
    var s := WeekStart(z);
    if m <= z <= m + 6 {
      assert (s - m) % 7 == 0;
    }
  }

  lemma WeekStartIdempotent(z: int)
    ensures WeekStart(WeekStart(z)) == WeekStart(z)
  {
    WeekStartUnique(WeekStart(z), WeekStart(z));
  }

  /** The Friday of the week that holds day z. */
  function WeekEnd(z: int): (f: int)
    ensures Weekday(f) == 5
    ensures WeekStart(f) == WeekStart(z)
    ensures f - WeekStart(z) == 4
  {
    var f := WeekStart(z) + 4;
    WeekStartUnique(WeekStart(z), f);
    f
  }

  /** The year of `new Date(y, 0, 1)`: the `Date` constructor reads the years 0 to 99 as
      1900 to 1999. */
  function ConstructorYear(y: int): (r: int)
    ensures !(0 <= r <= 99) && r % 100 == y % 100
    ensures r == y <==> !(0 <= y <= 99)
  {
    if 0 <= y <= 99 then 1900 + y else y
  }

  /** `getWeekNumber`, in a form without the weekday of the 1 January it counts from;
      `WeekNumberFormula` shows it is `getWeekNumber`'s formula. */
  function WeekNumber(z: int): (n: int)
    ensures YearOf(z) >= 100 ==> n >= 1
  {
    var y := YearOf(z);
    (z + 11) / 7 - (YearStart(ConstructorYear(y)) + 4) / 7 + y * 52
  }

  /** In the years 0 to 99 the week number counts from 1 January of 1900 + y, which lies
      after the day, and comes out negative. */
  lemma EarlyYearsNegative(z: int)
    requires 0 <= YearOf(z) <= 99
    ensures WeekNumber(z) < 0
  {
    var y := YearOf(z);
    YearStartMonotone(y + 1, 1900 + y);
  }

  /** `getWeekNumber`: ceil((days since 1 January + weekday of 1 January + 1) / 7) + 52 * year,
      where the 1 January is that of `new Date(year, 0, 1)`. For an integer x, ceil(x / 7)
      is the floor of (x + 6) / 7, negative x included. */
  lemma WeekNumberFormula(z: int)
    ensures var y := YearOf(z);
      var jan1 := YearStart(ConstructorYear(y));
      WeekNumber(z) == (z - jan1 + Weekday(jan1) + 1 + 6) / 7 + y * 52
  {
    var y := YearOf(z);
    var jan1 := YearStart(ConstructorYear(y));
    var q := (jan1 + 4) / 7;
    assert Weekday(jan1) == jan1 + 4 - 7 * q;
    assert z - jan1 + Weekday(jan1) + 1 + 6 == (z + 11) - 7 * q;
  }

  lemma CalendarAnchors()
    ensures DaysFromCivil(Date(1970, 1, 1)) == 0 && Weekday(0) == 4
    ensures DaysFromCivil(Date(2026, 1, 12)) == 20465 && Weekday(20465) == 1
  {
  }
}
