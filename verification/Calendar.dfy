/** The calendar arithmetic of src/runtime/lib/Date.c (section 15.9.1 of ECMA-262, edition 5.1), over
    mathematical integers: time values are milliseconds since the epoch. */
module Calendar {

  const HR_PER_DAY := 24
  const MIN_PER_HR := 60
  const SEC_PER_MIN := 60
  const MS_PER_SEC := 1000
  const MS_PER_MIN := 60000
  const MS_PER_HR := 3600000
  const MS_PER_DAY := 86400000

  /** C's fmod and % on integers: the result takes the sign of the dividend. */
  function FMod(a: int, b: int): int
    requires b > 0
  {
    if a >= 0 then a % b else -((-a) % b)
  }

  /** C's integer division by two: towards zero. */
  function Half(a: int): int {
    if a >= 0 then a / 2 else -((-a) / 2)
  }

  /** The remainder brought into 0..b-1, as the code does it after fmod. */
  function NonNegative(res: int, b: int): int {
    if res < 0 then res + b else res
  }

  lemma NonZeroMultiple(d: int, b: int)
    requires b > 0
    ensures d > 0 ==> d * b >= b
    ensures d < 0 ==> d * b <= -b
  {
  }

  lemma DivModUnique(a: int, b: int, q: int, r: int)
    requires b > 0 && a == q * b + r && 0 <= r < b
    ensures a / b == q && a % b == r
  {
    var d := a / b - q;
    assert a / b * b + a % b == a;
    assert d * b == r - a % b;
    NonZeroMultiple(d, b);
  }

  /** A quotient by `b` grows by one at the multiples of `b`. */
  lemma QuotientStep(x: int, b: int)
    requires b > 0
    ensures (x + 1) / b == x / b + if (x + 1) % b == 0 then 1 else 0
  {
    var q, r := x / b, x % b;
    assert x == q * b + r;
    if r == b - 1 {
      assert x + 1 == (q + 1) * b;
      DivModUnique(x + 1, b, q + 1, 0);
    } else {
      DivModUnique(x + 1, b, q, r + 1);
    }
  }

  lemma FModIsModulo(a: int, b: int)
    requires b > 0
    ensures NonNegative(FMod(a, b), b) == a % b
    ensures -b < FMod(a, b) < b
  {
    if a < 0 {
      var q, r := (-a) / b, (-a) % b;
      assert -a == q * b + r && a == (-q) * b - r;
      if r == 0 {
        DivModUnique(a, b, -q, 0);
      } else {
        assert a == (-q - 1) * b + (b - r);
        DivModUnique(a, b, -q - 1, b - r);
      }
    }
  }

  // ---- days and years (section 15.9.1.3) ----

  function Day(t: int): int {
    t / MS_PER_DAY
  }

  function DaysInYear(y: int): int {
    if FMod(y, 4) != 0 then 365
    else if FMod(y, 100) != 0 then 366
    else if FMod(y, 400) != 0 then 365
    else 366
  }

  function DayFromYear(y: int): int {
    365 * (y - 1970) + (y - 1969) / 4 - (y - 1901) / 100 + (y - 1601) / 400
  }

  function TimeFromYear(y: int): int {
    DayFromYear(y) * MS_PER_DAY
  }

  /** The corrections of DayFromYear step at the multiples of 4, 100 and 400. */
  lemma LeapSteps(y: int)
    ensures (y - 1968) / 4 == (y - 1969) / 4 + if y % 4 == 0 then 1 else 0
    ensures (y - 1900) / 100 == (y - 1901) / 100 + if y % 100 == 0 then 1 else 0
    ensures (y - 1600) / 400 == (y - 1601) / 400 + if y % 400 == 0 then 1 else 0
  {
    QuotientStep(y - 1969, 4);
    QuotientStep(y - 1901, 100);
    QuotientStep(y - 1601, 400);
    MultipleShift(y, 492, 4);
    MultipleShift(y, 19, 100);
    MultipleShift(y, 4, 400);
  }

  lemma MultipleShift(y: int, k: int, b: int)
    requires b > 0
    ensures (y - k * b) % b == y % b
  {
    assert y - k * b == (y / b - k) * b + y % b;
    DivModUnique(y - k * b, b, y / b - k, y % b);
  }

  lemma CoarserMultiple(y: int, k: int, b: int)
    requires k > 0 && b > 0 && y % (k * b) == 0
    ensures y % b == 0
  {
    var q := y / (k * b);
    assert y == q * (k * b) == (q * k) * b;
    DivModUnique(y, b, q * k, 0);
  }

  lemma FModZero(a: int, b: int)
    requires b > 0
    ensures FMod(a, b) == 0 <==> a % b == 0
  {
    hide FMod;
    FModIsModulo(a, b);
  }

  /** A year is as long as its length says. */
  lemma YearLength(y: int)
    ensures DayFromYear(y + 1) == DayFromYear(y) + DaysInYear(y)
  {
    hide FMod;
    LeapSteps(y);
    FModZero(y, 4);
    FModZero(y, 100);
    FModZero(y, 400);
    if y % 400 == 0 {
      CoarserMultiple(y, 4, 100);
    }
    if y % 100 == 0 {
      CoarserMultiple(y, 25, 4);
    }
  }

  lemma {:induction false} DayFromYearMonotone(y: int, z: int)
    requires y < z
    ensures DayFromYear(y) + 365 * (z - y) <= DayFromYear(z) <= DayFromYear(y) + 366 * (z - y)
    decreases z - y
  {
    YearLength(z - 1);
    if y < z - 1 {
      DayFromYearMonotone(y, z - 1);
    }
  }

  /** `y` is the year of time `t`. */
  predicate InYear(t: int, y: int) {
    TimeFromYear(y) <= t < TimeFromYear(y + 1)
  }

  lemma InYearUnique(t: int, y: int, z: int)
    requires InYear(t, y) && InYear(t, z)
    ensures y == z
  {
    if y < z {
      if y + 1 < z { DayFromYearMonotone(y + 1, z); }
    } else if z < y {
      if z + 1 < y { DayFromYearMonotone(z + 1, y); }
    }
  }

  lemma InOrder(t: int, lo: int, hi: int)
    requires TimeFromYear(lo) <= t < TimeFromYear(hi + 1)
    ensures lo <= hi
  {
    if hi + 1 < lo { DayFromYearMonotone(hi + 1, lo); }
  }

  /** The year of `t`, between years that bracket it. */
  function YearBetween(t: int, lo: int, hi: int): (y: int)
    requires lo <= hi && TimeFromYear(lo) <= t < TimeFromYear(hi + 1)
    ensures InYear(t, y)
    decreases hi - lo
  {
    if TimeFromYear(lo + 1) > t then lo
    else if lo == hi then lo
    else YearBetween(t, lo + 1, hi)
  }

  lemma BracketAfter(t: int)
    requires t >= 0
    ensures var a, b := t / (MS_PER_DAY * 366) + 1970, t / (MS_PER_DAY * 365) + 1970;
      a <= b && TimeFromYear(a) <= t < TimeFromYear(b + 1)
  {
    var k, l := t / (MS_PER_DAY * 366), t / (MS_PER_DAY * 365);
    assert DayFromYear(1970) == 0;
    DayFromYearMonotone(1970, 1970 + l + 1);
    if k > 0 { DayFromYearMonotone(1970, 1970 + k); }
  }

  lemma BracketBefore(t: int)
    requires t < 0
    ensures var a, b := t / (MS_PER_DAY * 366) + 1970, t / (MS_PER_DAY * 365) + 1970;
      b <= a && TimeFromYear(b) <= t < TimeFromYear(a + 1)
  {
    var k, l := t / (MS_PER_DAY * 366), t / (MS_PER_DAY * 365);
    assert DayFromYear(1970) == 0;
    DayFromYearMonotone(1970 + l, 1970);
    if k + 1 < 0 { DayFromYearMonotone(1970 + k + 1, 1970); }
  }

  /** The code's first bracket, 365 and 366 days a year around 1970, encloses the year on either side of it. */
  lemma Bracket(t: int)
    ensures var a, b := t / (MS_PER_DAY * 366) + 1970, t / (MS_PER_DAY * 365) + 1970;
      && (t >= 0 ==> a <= b && TimeFromYear(a) <= t < TimeFromYear(b + 1))
      && (t < 0 ==> b <= a && TimeFromYear(b) <= t < TimeFromYear(a + 1))
  {
    if t >= 0 { BracketAfter(t); } else { BracketBefore(t); }
  }

  /** The year of a time value: the one year that contains it. */
  function Year(t: int): (y: int)
    ensures InYear(t, y)
  {
    Bracket(t);
    var a, b := t / (MS_PER_DAY * 366) + 1970, t / (MS_PER_DAY * 365) + 1970;
    if t >= 0 then YearBetween(t, a, b) else YearBetween(t, b, a)
  }

  /** year_from_time: a binary search for the year. */
  method YearFromTime(t: int) returns (y: int)
    ensures y == Year(t)
  {
    hide TimeFromYear, DayFromYear, DaysInYear, YearBetween;
    var lo := t / (MS_PER_DAY * 366) + 1970;
    var hi := t / (MS_PER_DAY * 365) + 1970;
    Bracket(t);
    if hi < lo {
      var temp := lo;
      lo := hi;
      hi := temp;
    }
    while hi > lo
      invariant lo <= hi && TimeFromYear(lo) <= t < TimeFromYear(hi + 1)
      decreases hi - lo
    {
      var mid := Half(hi + lo);
      if TimeFromYear(mid) > t {
        hi := mid - 1;
      } else {
        lo := mid + 1;
        if TimeFromYear(lo) > t {
          InYearUnique(t, mid, Year(t));
          return mid;
        }
      }
      InOrder(t, lo, hi);
    }
    y := lo;
    InYearUnique(t, y, Year(t));
  }

  predicate LeapYear(y: int) {
    DaysInYear(y) == 366
  }

  /** in_leap_year */
  predicate InLeapYear(t: int) {
    LeapYear(Year(t))
  }

  function DayWithinYear(t: int): int {
    Day(t) - DayFromYear(Year(t))
  }

  /** The leap years of the Gregorian calendar, and the length of every year. */
  lemma LeapYearRule(y: int)
    ensures LeapYear(y) <==> y % 4 == 0 && (y % 100 != 0 || y % 400 == 0)
    ensures DaysInYear(y) == if y % 4 == 0 && (y % 100 != 0 || y % 400 == 0) then 366 else 365
  {
    hide FMod;
    FModZero(y, 4);
    FModZero(y, 100);
    FModZero(y, 400);
    if y % 400 == 0 {
      CoarserMultiple(y, 4, 100);
    }
    if y % 100 == 0 {
      CoarserMultiple(y, 25, 4);
    }
  }

  lemma QuotientShift(x: int, k: int, b: int)
    requires b > 0
    ensures (x + k * b) / b == x / b + k
  {
    assert x + k * b == (x / b + k) * b + x % b;
    DivModUnique(x + k * b, b, x / b + k, x % b);
  }

  /** Four centuries have 146097 days, and days are counted from 1970. */
  lemma FourCenturies(y: int)
    ensures DayFromYear(y + 400) == DayFromYear(y) + 146097
    ensures DayFromYear(1970) == 0
  {
    QuotientShift(y - 1969, 100, 4);
    QuotientShift(y - 1901, 4, 100);
    QuotientShift(y - 1601, 1, 400);
  }

  // ---- months (sections 15.9.1.4 and 15.9.1.5): three encodings of one table ----

  /** The length of month `m`. */
  function MonthLength(m: int, leap: bool): int
    requires 0 <= m <= 11
  {
    if m == 1 then (if leap then 29 else 28)
    else if m == 3 || m == 5 || m == 8 || m == 10 then 30
    else 31
  }

  /** The days before month `m`: the sum of the lengths of the months before it. */
  function MonthStart(m: int, leap: bool): int
    requires 0 <= m <= 12
    decreases m
  {
    if m == 0 then 0 else MonthStart(m - 1, leap) + MonthLength(m - 1, leap)
  }

  /** day_from_month: thirty days a month, plus a correction. */
  function DayFromMonth(m: int, y: int): int
    requires m >= 0
  {
    var day := m * 30 + if m >= 7 then m / 2 - 1 else if m >= 2 then (m - 1) / 2 - 1 else m;
    if m >= 2 && InLeapYear(TimeFromYear(y)) then day + 1 else day
  }

  /** date_from_time: counts from the first of March and corrects the thirtieths. */
  function DateFromTime(t: int): int {
    DateOfDay(Day(t) - DayFromYear(Year(t)), InLeapYear(t))
  }

  function DateOfDay(day: int, leap: bool): int {
    var d := day - (31 + 28);
    if d < 0 then (if d < -28 then d + 31 + 28 + 1 else d + 28 + 1)
    else if leap && d == 0 then 29
    else
      var e := if leap then d - 1 else d;
      match e / 30
      case 0 => e + 1
      case 1 => DateIn(e - 31, 31)
      case 2 => DateIn(e - (31 + 30), 30)
      case 3 => DateIn(e - (31 + 30 + 31), 31)
      case 4 => DateIn(e - (31 + 30 + 31 + 30), 30)
      case 5 => DateIn(e - (31 + 30 + 31 + 30 + 31), 31)
      case 6 => DateIn(e - (31 + 30 + 31 + 30 + 31 + 31), 31)
      case 7 => DateIn(e - (31 + 30 + 31 + 30 + 31 + 31 + 30), 30)
      case 8 => DateIn(e - (31 + 30 + 31 + 30 + 31 + 31 + 30 + 31), 31)
      case 9 => DateIn(e - (31 + 30 + 31 + 30 + 31 + 31 + 30 + 31 + 30), 30)
      case _ => e - (31 + 30 + 31 + 30 + 31 + 31 + 30 + 31 + 30) + 1
  }

  /** The date, given the days since the start of a month, or (when negative) of the month after one of `mdays` days. */
  function DateIn(d: int, mdays: int): int {
    (if d < 0 then d + mdays else d) + 1
  }

  /** month_from_time: a cascade of ranges. */
  function MonthFromTime(t: int): int {
    MonthOfDay(DayWithinYear(t), if InLeapYear(t) then 1 else 0)
  }

  function MonthOfDay(day: int, leap: int): int {
    if 0 <= day && day < 31 then 0
    else if 31 <= day && day < 59 + leap then 1
    else if 59 + leap <= day && day < 90 + leap then 2
    else if 90 + leap <= day && day < 120 + leap then 3
    else if 120 + leap <= day && day < 151 + leap then 4
    else if 151 + leap <= day && day < 181 + leap then 5
    else if 181 + leap <= day && day < 212 + leap then 6
    else if 212 + leap <= day && day < 243 + leap then 7
    else if 243 + leap <= day && day < 273 + leap then 8
    else if 273 + leap <= day && day < 304 + leap then 9
    else if 304 + leap <= day && day < 334 + leap then 10
    else 11
  }

  lemma MonthStarts(leap: bool)
    ensures var l := if leap then 1 else 0;
      && MonthStart(0, leap) == 0 && MonthStart(1, leap) == 31 && MonthStart(2, leap) == 59 + l
      && MonthStart(3, leap) == 90 + l && MonthStart(4, leap) == 120 + l && MonthStart(5, leap) == 151 + l
      && MonthStart(6, leap) == 181 + l && MonthStart(7, leap) == 212 + l && MonthStart(8, leap) == 243 + l
      && MonthStart(9, leap) == 273 + l && MonthStart(10, leap) == 304 + l && MonthStart(11, leap) == 334 + l
      && MonthStart(12, leap) == 365 + l
  {
    assert MonthStart(2, leap) == MonthStart(1, leap) + MonthLength(1, leap);
    assert MonthStart(4, leap) == MonthStart(3, leap) + 31 - 1;
    assert MonthStart(6, leap) == MonthStart(5, leap) + 30;
    assert MonthStart(8, leap) == MonthStart(7, leap) + 31;
    assert MonthStart(10, leap) == MonthStart(9, leap) + 31;
    assert MonthStart(12, leap) == MonthStart(11, leap) + 31;
  }

  lemma YearOfStart(y: int)
    ensures Year(TimeFromYear(y)) == y
  {
    YearLength(y);
    assert InYear(TimeFromYear(y), y);
    InYearUnique(TimeFromYear(y), y, Year(TimeFromYear(y)));
  }

  /** The month-start formula gives the sum of the month lengths. */
  lemma DayFromMonthIsStart(m: int, y: int)
    requires 0 <= m <= 11
    ensures DayFromMonth(m, y) == MonthStart(m, LeapYear(y))
  {
    YearOfStart(y);
    MonthStarts(LeapYear(y));
  }

  lemma DayInYear(t: int)
    ensures 0 <= DayWithinYear(t) < DaysInYear(Year(t))
  {
    YearLength(Year(t));
  }

  ghost predicate TablesAgreeOn(day: int, leap: bool) {
    var m, d := MonthOfDay(day, if leap then 1 else 0), DateOfDay(day, leap);
    && 0 <= m <= 11 && 1 <= d <= MonthLength(m, leap)
    && day == MonthStart(m, leap) + d - 1
  }

  lemma CommonTables(day: int)
    requires 0 <= day < 365
    ensures TablesAgreeOn(day, false)
  {
    MonthStarts(false);
  }

  lemma LeapTables(day: int)
    requires 0 <= day < 366
    ensures TablesAgreeOn(day, true)
  {
    MonthStarts(true);
  }

  /** The range cascade and the thirtieths agree with the month lengths on every day of a year. */
  lemma TablesAgree(day: int, leap: bool)
    requires 0 <= day < if leap then 366 else 365
    ensures TablesAgreeOn(day, leap)
  {
    if leap { LeapTables(day); } else { CommonTables(day); }
  }

  /** The three encodings of the month table agree on every time value. */
  lemma MonthsAgree(t: int)
    ensures 0 <= MonthFromTime(t) <= 11
    ensures 1 <= DateFromTime(t) <= MonthLength(MonthFromTime(t), InLeapYear(t))
    ensures DayWithinYear(t) == MonthStart(MonthFromTime(t), InLeapYear(t)) + DateFromTime(t) - 1
    ensures DayWithinYear(t) == DayFromMonth(MonthFromTime(t), Year(t)) + DateFromTime(t) - 1
  {
    hide MonthStart, DateOfDay, MonthOfDay, Year, DayFromYear, MonthLength;
    DayInYear(t);
    TablesAgree(DayWithinYear(t), InLeapYear(t));
    DayFromMonthIsStart(MonthFromTime(t), Year(t));
  }

  // ---- hours, minutes, seconds, milliseconds (section 15.9.1.10) ----

  function HourFromTime(t: int): int {
    NonNegative(FMod(t / MS_PER_HR, HR_PER_DAY), HR_PER_DAY)
  }

  function MinFromTime(t: int): int {
    NonNegative(FMod(t / MS_PER_MIN, MIN_PER_HR), MIN_PER_HR)
  }

  function SecFromTime(t: int): int {
    NonNegative(FMod(t / MS_PER_SEC, SEC_PER_MIN), SEC_PER_MIN)
  }

  function MsFromTime(t: int): int {
    NonNegative(FMod(t, MS_PER_SEC), MS_PER_SEC)
  }

  function MakeTime(h: int, m: int, s: int, ms: int): int {
    ((h * MIN_PER_HR + m) * SEC_PER_MIN + s) * MS_PER_SEC + ms
  }

  /** make_day: the month is reduced modulo 12 before it is carried into the year. */
  function MakeDay(y: int, m: int, dt: int): int {
    var m' := FMod(m, 12);
    var y' := y + m' / 12;
    var month := if m' < 0 then m' + 12 else m';
    TimeFromYear(y') / MS_PER_DAY + DayFromMonth(month, y') + dt - 1
  }

  function MakeDate(day: int, time: int): int {
    day * MS_PER_DAY + time
  }

  function TimeClip(t: int): int {
    if t > 8640000000000000 || t < -8640000000000000 then 0 else t
  }

  /** The clock fields split the time within the day. */
  lemma ClockFields(t: int)
    ensures 0 <= HourFromTime(t) < 24 && 0 <= MinFromTime(t) < 60 && 0 <= SecFromTime(t) < 60 && 0 <= MsFromTime(t) < 1000
    ensures MakeTime(HourFromTime(t), MinFromTime(t), SecFromTime(t), MsFromTime(t)) == t - Day(t) * MS_PER_DAY
  {
    FModIsModulo(t / MS_PER_HR, HR_PER_DAY);
    FModIsModulo(t / MS_PER_MIN, MIN_PER_HR);
    FModIsModulo(t / MS_PER_SEC, SEC_PER_MIN);
    FModIsModulo(t, MS_PER_SEC);
    var s := t / MS_PER_SEC;
    var m := s / SEC_PER_MIN;
    assert t / MS_PER_MIN == m;
    var h := m / MIN_PER_HR;
    assert t / MS_PER_HR == h;
    assert h / HR_PER_DAY == Day(t);
  }

  // ---- recomposing and decomposing ----

  /** MakeDay on a month of the year: the start of the year, the month's start, the date. */
  lemma MakeDayInRange(y: int, m: int, dt: int)
    requires 0 <= m <= 11
    ensures MakeDay(y, m, dt) == DayFromYear(y) + MonthStart(m, LeapYear(y)) + dt - 1
  {
    hide DayFromMonth, MonthStart, LeapYear, DayFromYear;
    DayFromMonthIsStart(m, y);
    assert FMod(m, 12) == m && m / 12 == 0;
  }

  /** Recomposing the parts of any time value gives it back. */
  lemma Recompose(t: int)
    ensures MakeDate(MakeDay(Year(t), MonthFromTime(t), DateFromTime(t)),
                     MakeTime(HourFromTime(t), MinFromTime(t), SecFromTime(t), MsFromTime(t))) == t
  {
    hide *;
    MonthsAgree(t);
    MakeDayInRange(Year(t), MonthFromTime(t), DateFromTime(t));
    ClockFields(t);
    RecomposeSum(t);
  }

  lemma RecomposeSum(t: int)
    requires 0 <= MonthFromTime(t) <= 11
    requires DayWithinYear(t) == MonthStart(MonthFromTime(t), InLeapYear(t)) + DateFromTime(t) - 1
    requires MakeDay(Year(t), MonthFromTime(t), DateFromTime(t))
          == DayFromYear(Year(t)) + MonthStart(MonthFromTime(t), LeapYear(Year(t))) + DateFromTime(t) - 1
    requires MakeTime(HourFromTime(t), MinFromTime(t), SecFromTime(t), MsFromTime(t)) == t - Day(t) * MS_PER_DAY
    ensures MakeDate(MakeDay(Year(t), MonthFromTime(t), DateFromTime(t)),
                     MakeTime(HourFromTime(t), MinFromTime(t), SecFromTime(t), MsFromTime(t))) == t
  {
    hide MakeDay, MakeTime, Year, MonthFromTime, DateFromTime, Day, DayFromYear, MonthStart, LeapYear;
  }

  /** The fields of a date and time that exists. */
  predicate Civil(y: int, m: int, d: int, h: int, mn: int, s: int, ms: int) {
    && 0 <= m <= 11 && 1 <= d <= MonthLength(m, LeapYear(y))
    && 0 <= h < 24 && 0 <= mn < 60 && 0 <= s < 60 && 0 <= ms < 1000
  }

  /** Within one year, the day determines month and date. */
  lemma MonthAndDateUnique(m: int, d: int, m': int, d': int, leap: bool)
    requires 0 <= m <= 11 && 1 <= d <= MonthLength(m, leap)
    requires 0 <= m' <= 11 && 1 <= d' <= MonthLength(m', leap)
    requires MonthStart(m, leap) + d == MonthStart(m', leap) + d'
    ensures m == m' && d == d'
  {
    hide MonthStart, MonthLength;
    MonthEnds(m, leap);
    MonthEnds(m', leap);
    if m < m' { MonthStartGrows(m + 1, m', leap); }
    if m' < m { MonthStartGrows(m' + 1, m, leap); }
  }

  lemma MonthEnds(m: int, leap: bool)
    requires 0 <= m <= 11
    ensures MonthStart(m + 1, leap) == MonthStart(m, leap) + MonthLength(m, leap)
  {
  }

  lemma {:induction false} MonthStartGrows(m: int, m': int, leap: bool)
    requires 0 <= m <= m' <= 12
    ensures MonthStart(m, leap) <= MonthStart(m', leap)
    decreases m' - m
  {
    if m < m' {
      MonthStartGrows(m, m' - 1, leap);
    }
  }

  /** The time of the given fields lies on their day. */
  lemma DayOfDate(day: int, h: int, mn: int, s: int, ms: int)
    requires 0 <= h < 24 && 0 <= mn < 60 && 0 <= s < 60 && 0 <= ms < 1000
    ensures var t := MakeDate(day, MakeTime(h, mn, s, ms));
      && Day(t) == day
      && HourFromTime(t) == h && MinFromTime(t) == mn && SecFromTime(t) == s && MsFromTime(t) == ms
  {
    hide FMod, NonNegative;
    var t := MakeDate(day, MakeTime(h, mn, s, ms));
    var hours := day * 24 + h;
    var mins := hours * 60 + mn;
    var secs := mins * 60 + s;
    DivModUnique(t, MS_PER_SEC, secs, ms);
    DivModUnique(t, MS_PER_MIN, mins, s * 1000 + ms);
    DivModUnique(t, MS_PER_HR, hours, (mn * 60 + s) * 1000 + ms);
    DivModUnique(t, MS_PER_DAY, day, ((h * 60 + mn) * 60 + s) * 1000 + ms);
    FModIs(t, MS_PER_SEC, secs, ms);
    FModIs(secs, SEC_PER_MIN, mins, s);
    FModIs(mins, MIN_PER_HR, hours, mn);
    FModIs(hours, HR_PER_DAY, day, h);
  }

  lemma FModIs(a: int, b: int, q: int, r: int)
    requires b > 0 && a == q * b + r && 0 <= r < b
    ensures NonNegative(FMod(a, b), b) == r
  {
    FModIsModulo(a, b);
    DivModUnique(a, b, q, r);
  }

  /** A day that lies in year `y` at month `m` and date `d` has these as its year, month and date. */
  lemma DateOfMakeDay(t: int, y: int, m: int, d: int)
    requires 0 <= m <= 11 && 1 <= d <= MonthLength(m, LeapYear(y))
    requires Day(t) == DayFromYear(y) + MonthStart(m, LeapYear(y)) + d - 1
    ensures Year(t) == y && MonthFromTime(t) == m && DateFromTime(t) == d
  {
    hide MonthFromTime, DateFromTime, Year, MonthStart, MonthLength, DayFromYear;
    var leap := LeapYear(y);
    YearLength(y);
    MonthEnds(m, leap);
    MonthStartGrows(m + 1, 12, leap);
    MonthStartGrows(0, m, leap);
    MonthStarts(leap);
    assert InYear(t, y);
    InYearUnique(t, y, Year(t));
    MonthsAgree(t);
    MonthAndDateUnique(m, d, MonthFromTime(t), DateFromTime(t), leap);
  }

  /** Decomposing the time of any existing date and time gives back its fields. */
  lemma Decompose(y: int, m: int, d: int, h: int, mn: int, s: int, ms: int)
    requires Civil(y, m, d, h, mn, s, ms)
    ensures var t := MakeDate(MakeDay(y, m, d), MakeTime(h, mn, s, ms));
      && Year(t) == y && MonthFromTime(t) == m && DateFromTime(t) == d
      && HourFromTime(t) == h && MinFromTime(t) == mn && SecFromTime(t) == s && MsFromTime(t) == ms
  {
    hide Year, MonthFromTime, DateFromTime, HourFromTime, MinFromTime, SecFromTime, MsFromTime, MakeTime, MakeDate, MakeDay;
    MakeDayInRange(y, m, d);
    DayOfDate(MakeDay(y, m, d), h, mn, s, ms);
    DateOfMakeDay(MakeDate(MakeDay(y, m, d), MakeTime(h, mn, s, ms)), y, m, d);
  }

  /** The epoch is the start of 1970. */
  lemma EpochFields()
    ensures Year(0) == 1970 && MonthFromTime(0) == 0 && DateFromTime(0) == 1
    ensures HourFromTime(0) == 0 && MinFromTime(0) == 0 && SecFromTime(0) == 0 && MsFromTime(0) == 0
  {
    hide Year, MonthFromTime, DateFromTime, HourFromTime, MinFromTime, SecFromTime, MsFromTime, MakeDay, LeapYear;
    MakeDayInRange(1970, 0, 1);
    MonthStarts(LeapYear(1970));
    Decompose(1970, 0, 1, 0, 0, 0, 0);
  }

  /** The leap day of 2000. */
  lemma LeapDayOf2000()
    ensures Year(951782400000) == 2000 && MonthFromTime(951782400000) == 1 && DateFromTime(951782400000) == 29
    ensures MakeDate(MakeDay(2000, 5, 28), MakeTime(15, 30, 0, 0)) == 962206200000
  {
    hide Year, MonthFromTime, DateFromTime, HourFromTime, MinFromTime, SecFromTime, MsFromTime, MakeDay, LeapYear;
    LeapYearRule(2000);
    MonthStarts(true);
    MakeDayInRange(2000, 1, 29);
    MakeDayInRange(2000, 5, 28);
    Decompose(2000, 1, 29, 0, 0, 0, 0);
  }

  /** Every time value has fields of an existing date and time. */
  lemma FieldsAreCivil(t: int)
    ensures Civil(Year(t), MonthFromTime(t), DateFromTime(t), HourFromTime(t), MinFromTime(t), SecFromTime(t), MsFromTime(t))
  {
    hide Year, MonthFromTime, DateFromTime, HourFromTime, MinFromTime, SecFromTime, MsFromTime;
    MonthsAgree(t);
    ClockFields(t);
  }

  // ---- MakeDay and section 15.9.1.12 ----

  /** MakeDay as section 15.9.1.12 defines it: the month is carried into the year first. */
  function StandardMakeDay(y: int, m: int, dt: int): int {
    var ym, mn := y + m / 12, m % 12;
    DayFromYear(ym) + MonthStart(mn, LeapYear(ym)) + dt - 1
  }

  /** The day the standard asks for: the first of month m % 12 in year y + floor(m / 12), moved by the date. */
  lemma StandardNamesItsMonth(y: int, m: int, dt: int)
    ensures var t := MakeDate(StandardMakeDay(y, m, 1), 0);
      && Year(t) == y + m / 12 && MonthFromTime(t) == m % 12 && DateFromTime(t) == 1
      && StandardMakeDay(y, m, dt) == Day(t) + dt - 1
  {
    hide Year, MonthFromTime, DateFromTime, DayFromYear, MonthStart, LeapYear;
    DateOfMakeDay(MakeDate(StandardMakeDay(y, m, 1), 0), y + m / 12, m % 12, 1);
  }

  /** In a later year, the same month starts later. */
  lemma StartOrder(y: int, z: int, m: int)
    requires y < z && 0 <= m <= 11
    ensures DayFromYear(y) + MonthStart(m, LeapYear(y)) < DayFromYear(z) + MonthStart(m, LeapYear(z))
  {
    DayFromYearMonotone(y, z);
    MonthStarts(LeapYear(y));
    MonthStarts(LeapYear(z));
  }

  /** What make_day computes for any month: the standard's month, in the year it carries to. */
  lemma MakeDayExactly(y: int, m: int, dt: int)
    ensures var y' := if FMod(m, 12) < 0 then y - 1 else y;
      MakeDay(y, m, dt) == DayFromYear(y') + MonthStart(m % 12, LeapYear(y')) + dt - 1
  {
    hide MonthStart, LeapYear, DayFromYear, DayFromMonth;
    FModIsModulo(m, 12);
    var m' := FMod(m, 12);
    assert -12 < m' < 12;
    var y' := y + m' / 12;
    assert y' == if m' < 0 then y - 1 else y;
    DayFromMonthIsStart(m % 12, y');
  }

  /** make_day computes the standard's MakeDay if and only if the month lies strictly between -12 and 12. */
  lemma MakeDayStandardIff(y: int, m: int, dt: int)
    ensures MakeDay(y, m, dt) == StandardMakeDay(y, m, dt) <==> -12 < m < 12
  {
    hide MonthStart, LeapYear, DayFromYear, DayFromMonth, MakeDay;
    MakeDayExactly(y, m, dt);
    var carried, ym := if FMod(m, 12) < 0 then y - 1 else y, y + m / 12;
    CarriedYear(y, m);
    if carried < ym { StartOrder(carried, ym, m % 12); }
    if ym < carried { StartOrder(ym, carried, m % 12); }
  }

  lemma CarriedYear(y: int, m: int)
    ensures (if FMod(m, 12) < 0 then y - 1 else y) == y + m / 12 <==> -12 < m < 12
  {
  }

  /** Thirteen months into 2000, make_day stays in the year that the standard leaves. */
  lemma MonthTwelve()
    ensures MakeDay(2000, 12, 1) == MakeDay(2000, 0, 1)
    ensures StandardMakeDay(2000, 12, 1) == MakeDay(2001, 0, 1)
    ensures MakeDay(2000, 12, 1) != StandardMakeDay(2000, 12, 1)
  {
    MakeDayExactly(2000, 12, 1);
    MakeDayInRange(2000, 0, 1);
    MakeDayInRange(2001, 0, 1);
    MakeDayStandardIff(2000, 12, 1);
  }
}
