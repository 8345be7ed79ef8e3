/** Time zone adjustment of the BCD clock (ee/kernel/src/osd_config.c). */
module Clock {
  /** The fields of sceCdCLOCK; the same record holds them in BCD and in binary. */
  datatype Time = Time(second: int, minute: int, hour: int, day: int, month: int, year: int)

  // ---- BCD ----

  /** Both conversions return a byte. */
  function FromBcd(b: int): int { (b - b / 16 * 6) % 256 }
  function ToBcd(d: int): int { (d + d / 10 * 6) % 256 }

  predicate BcdByte(b: int) { 0 <= b < 0xA0 && b % 16 < 10 }

  /** Two decimal digits are read as their number, and written back as they were. */
  lemma BcdMeaning(hi: int, lo: int)
    requires 0 <= hi < 10 && 0 <= lo < 10
    ensures FromBcd(16 * hi + lo) == 10 * hi + lo && ToBcd(10 * hi + lo) == 16 * hi + lo && BcdByte(16 * hi + lo)
  {
    assert (16 * hi + lo) / 16 == hi;
    assert (10 * hi + lo) / 10 == hi;
  }

  /** A byte survives the round trip exactly when its low digit is decimal. */
  lemma BcdRoundTripExact(b: int)
    requires 0 <= b < 256
    ensures ToBcd(FromBcd(b)) == b <==> b % 16 < 10
  {
    var hi, lo := b / 16, b % 16;
    assert FromBcd(b) == 10 * hi + lo;
    if lo < 10 {
      assert (10 * hi + lo) / 10 == hi;
    } else {
      assert (10 * hi + lo) / 10 == hi + 1;
    }
  }

  /** For example the byte 0x0A is read as ten, which is written 0x10. */
  lemma BcdDigitLost(b: int)
    requires b == 0x0A
    ensures FromBcd(b) == 10 && ToBcd(FromBcd(b)) == 0x10
  {
    var d := FromBcd(b);
    assert b / 16 == 0;
    assert d / 10 == 1;
  }

  lemma BcdOfDecimal(d: int)
    requires 0 <= d < 100
    ensures BcdByte(ToBcd(d)) && FromBcd(ToBcd(d)) == d
  {
    BcdMeaning(d / 10, d % 10);
  }

  function Decode(t: Time): Time {
    Time(FromBcd(t.second), FromBcd(t.minute), FromBcd(t.hour), FromBcd(t.day), FromBcd(t.month), FromBcd(t.year))
  }

  function Encode(t: Time): Time {
    Time(ToBcd(t.second), ToBcd(t.minute), ToBcd(t.hour), ToBcd(t.day), ToBcd(t.month), ToBcd(t.year))
  }

  /** Two decimal digits in a byte. */
  function Digits(n: int): int { 16 * (n / 10) + n % 10 }

  /** Every field is read from and written to its own byte. */
  lemma FieldsExact(t: Time)
    requires 0 <= t.second < 100 && 0 <= t.minute < 100 && 0 <= t.hour < 100
    requires 0 <= t.day < 100 && 0 <= t.month < 100 && 0 <= t.year < 100
    ensures Encode(t) == Time(Digits(t.second), Digits(t.minute), Digits(t.hour), Digits(t.day), Digits(t.month), Digits(t.year))
    ensures Decode(Encode(t)) == t
  {
    forall n | 0 <= n < 100 ensures ToBcd(n) == Digits(n) && FromBcd(ToBcd(n)) == n {
      BcdMeaning(n / 10, n % 10);
    }
  }

  // ---- The calendar ----

  predicate Leap(year: int) { year % 4 == 0 }

  function DaysIn(leap: bool, month: int): int {
    if month == 2 then (if leap then 29 else 28)
    else if month == 4 || month == 6 || month == 9 || month == 11 then 30
    else 31
  }

  predicate ValidDate(t: Time) {
    0 <= t.year < 100 && 1 <= t.month <= 12 && 1 <= t.day <= DaysIn(Leap(t.year), t.month)
  }

  predicate ValidTime(t: Time) {
    ValidDate(t) && 0 <= t.hour < 24 && 0 <= t.minute < 60 && 0 <= t.second < 60
  }

  predicate ValidBcd(t: Time) {
    && BcdByte(t.second) && BcdByte(t.minute) && BcdByte(t.hour) && BcdByte(t.day) && BcdByte(t.month) && BcdByte(t.year)
    && ValidTime(Decode(t))
  }

  /** Days of the year before a month. */
  function DaysBefore(leap: bool, month: int): int
    decreases month
  {
    if month <= 1 then 0 else DaysBefore(leap, month - 1) + DaysIn(leap, month - 1)
  }

  /** Days before a year of the 36525-day cycle. */
  function YearStart(year: int): int { 365 * year + (year + 3) / 4 }

  function DayNumber(t: Time): int { YearStart(t.year) + DaysBefore(Leap(t.year), t.month) + t.day - 1 }

  function HourNumber(t: Time): int { 24 * DayNumber(t) + t.hour }

  function MinuteNumber(t: Time): int { 60 * HourNumber(t) + t.minute }

  const DAYS := 36525
  const HOURS := 876600
  const MINUTES := 52596000

  lemma YearEnds(year: int)
    ensures DaysBefore(Leap(year), 13) == if Leap(year) then 366 else 365
    ensures YearStart(year + 1) == YearStart(year) + DaysBefore(Leap(year), 13)
  {
    var l := Leap(year);
    assert DaysBefore(l, 3) == 31 + DaysIn(l, 2);
    assert DaysBefore(l, 5) == 92 + DaysIn(l, 2);
    assert DaysBefore(l, 7) == 153 + DaysIn(l, 2);
    assert DaysBefore(l, 9) == 215 + DaysIn(l, 2);
    assert DaysBefore(l, 11) == 276 + DaysIn(l, 2);
  }

  /** The days before a month, from the 153 days that five months from March or from August have. */
  function MonthStart(leap: bool, month: int): int {
    if month <= 2 then 31 * (month - 1) else (153 * (month - 3) + 2) / 5 + (if leap then 60 else 59)
  }

  lemma MonthsByFormula(leap: bool, month: int)
    requires 1 <= month <= 13
    ensures DaysBefore(leap, month) == if month == 13 then (if leap then 366 else 365) else MonthStart(leap, month)
  {
    assert DaysBefore(leap, 3) == 31 + DaysIn(leap, 2);
    assert DaysBefore(leap, 5) == 92 + DaysIn(leap, 2);
    assert DaysBefore(leap, 7) == 153 + DaysIn(leap, 2);
    assert DaysBefore(leap, 9) == 215 + DaysIn(leap, 2);
    assert DaysBefore(leap, 11) == 276 + DaysIn(leap, 2);
  }

  /** The minutes since 1 January of year 0, 00:00, with every fourth year a leap year. */
  function Minutes(t: Time): int {
    1440 * (365 * t.year + (t.year + 3) / 4 + MonthStart(t.year % 4 == 0, t.month) + t.day - 1) + 60 * t.hour + t.minute
  }

  /** The calendar of the model is that of the formula. */
  lemma CalendarExact(t: Time)
    requires 1 <= t.month <= 12
    ensures MinuteNumber(t) == Minutes(t)
  {
    MonthsByFormula(Leap(t.year), t.month);
  }

  /** Its times are the minutes of the days from the start of one month to that of the next. */
  lemma ValidTimeExact(t: Time)
    requires 1 <= t.month <= 12
    ensures ValidTime(t) <==>
            && 0 <= t.year < 100 && 0 <= t.hour < 24 && 0 <= t.minute < 60 && 0 <= t.second < 60 && 1 <= t.day
            && t.day <= (if t.month == 12 then 31 else MonthStart(t.year % 4 == 0, t.month + 1) - MonthStart(t.year % 4 == 0, t.month))
  {
    MonthsByFormula(Leap(t.year), t.month);
    MonthsByFormula(Leap(t.year), t.month + 1);
  }

  lemma {:induction false} MonthsGrow(leap: bool, a: int, b: int)
    requires 1 <= a <= b
    ensures DaysBefore(leap, a) <= DaysBefore(leap, b)
    decreases b - a
  {
    if a < b { MonthsGrow(leap, a, b - 1); }
  }

  lemma {:induction false} YearsGrow(a: int, b: int)
    requires a <= b
    ensures YearStart(a) <= YearStart(b)
  {
  }

  /** A valid date lies inside its month, and the month inside its year. */
  lemma DateRange(t: Time)
    requires ValidDate(t)
    ensures DaysBefore(Leap(t.year), t.month) <= DayNumber(t) - YearStart(t.year) < DaysBefore(Leap(t.year), t.month + 1)
    ensures YearStart(t.year) <= DayNumber(t) < YearStart(t.year + 1)
    ensures 0 <= DayNumber(t) < DAYS
  {
    MonthsGrow(Leap(t.year), 1, t.month);
    MonthsGrow(Leap(t.year), t.month + 1, 13);
    YearEnds(t.year);
    YearsGrow(0, t.year);
    YearsGrow(t.year + 1, 100);
  }

  /** An earlier year, or an earlier month of the same year, has smaller day numbers. */
  lemma EarlierDate(a: Time, b: Time)
    requires ValidDate(a) && ValidDate(b) && (a.year < b.year || (a.year == b.year && a.month < b.month))
    ensures DayNumber(a) < DayNumber(b)
  {
    DateRange(a);
    DateRange(b);
    if a.year < b.year {
      YearsGrow(a.year + 1, b.year);
    } else {
      MonthsGrow(Leap(a.year), a.month + 1, b.month);
    }
  }

  lemma DayInjective(a: Time, b: Time)
    requires ValidDate(a) && ValidDate(b) && DayNumber(a) == DayNumber(b)
    ensures a.year == b.year && a.month == b.month && a.day == b.day
  {
    if a.year < b.year || (a.year == b.year && a.month < b.month) {
      EarlierDate(a, b);
    } else if b.year < a.year || (a.year == b.year && b.month < a.month) {
      EarlierDate(b, a);
    }
  }

  /** The first day of the next month follows the last of this one, and 1 January follows 31 December. */
  lemma MonthTurn(t: Time)
    requires ValidDate(t) && t.day == DaysIn(Leap(t.year), t.month)
    ensures t.month < 12 ==> DayNumber(t.(day := 1, month := t.month + 1)) == DayNumber(t) + 1
    ensures t.month == 12 ==> DayNumber(t.(day := 1, month := 1, year := t.year + 1)) == DayNumber(t) + 1
  {
    if t.month == 12 { YearEnds(t.year); }
  }

  /** `u` is the calendar day after `t`; 31 December of year 99 is followed by 1 January of year 0. */
  predicate NextDate(t: Time, u: Time) {
    if t.day < DaysIn(Leap(t.year), t.month) then u == t.(day := t.day + 1)
    else if t.month < 12 then u == t.(day := 1, month := t.month + 1)
    else u == t.(day := 1, month := 1, year := if t.year == 99 then 0 else t.year + 1)
  }

  lemma NextDateNumber(t: Time, u: Time)
    requires ValidDate(t) && ValidDate(u) && NextDate(t, u)
    ensures DayNumber(u) == if DayNumber(t) + 1 == DAYS then 0 else DayNumber(t) + 1
  {
    if t.day == DaysIn(Leap(t.year), t.month) { MonthTurn(t); }
    if t.day == DaysIn(Leap(t.year), t.month) && t.month == 12 && t.year == 99 {
      assert DayNumber(t) + 1 == YearStart(100) + DaysBefore(true, 1);
    } else {
      assert DayNumber(u) == DayNumber(t) + 1;
      DateRange(u);
    }
  }

  /** Different times have different minute numbers, all below the length of the cycle. */
  lemma MinuteInjective(a: Time, b: Time)
    requires ValidTime(a) && ValidTime(b) && MinuteNumber(a) == MinuteNumber(b) && a.second == b.second
    ensures a == b
  {
    DayInjective(a, b);
  }

  lemma MinuteRange(t: Time)
    requires ValidTime(t)
    ensures 0 <= MinuteNumber(t) < MINUTES
  {
    DateRange(t);
  }

  // ---- Adjusting ----

  /** `d` is `c` moved by `offset` minutes round the 100-year cycle. */
  predicate Adjusted(c: Time, offset: int, d: Time) {
    ValidTime(d) && d.second == c.second && MinuteNumber(d) == (MinuteNumber(c) + offset) % 52596000
  }

  /** The move is one on the calendar of the formula. */
  lemma AdjustedByFormula(c: Time, offset: int, d: Time)
    requires ValidTime(c) && Adjusted(c, offset, d)
    ensures Minutes(d) == (Minutes(c) + offset) % 52596000
  {
    CalendarExact(c);
    CalendarExact(d);
  }

  /** The adjusted time is unique. */
  lemma AdjustedUnique(c: Time, offset: int, d: Time, e: Time)
    requires Adjusted(c, offset, d) && Adjusted(c, offset, e)
    ensures d == e
  {
    MinuteInjective(d, e);
  }

  lemma AddMod(m: int, a: int, b: int)
    ensures ((m + a) % 52596000 + b) % 52596000 == (m + a + b) % 52596000
    ensures 0 <= m < 52596000 && a + b == 0 ==> (m + a + b) % 52596000 == m
  {
  }

  /** Adjustments add up; so adjusting by `a` and then by `-a` changes nothing. */
  lemma AdjustedTwice(c: Time, a: int, d: Time, b: int, e: Time)
    requires ValidTime(c) && Adjusted(c, a, d) && Adjusted(d, b, e)
    ensures Adjusted(c, a + b, e)
    ensures a + b == 0 ==> e == c
  {
    AddMod(MinuteNumber(c), a, b);
    if a + b == 0 {
      MinuteRange(c);
      MinuteInjective(c, e);
    }
  }

  lemma DecodeInjective(c: Time, e: Time)
    requires ValidBcd(c) && ValidBcd(e)
    ensures c == e <==> Decode(c) == Decode(e)
  {
    forall b | BcdByte(b) ensures ToBcd(FromBcd(b)) == b {
      BcdRoundTripExact(b);
    }
    assert Encode(Decode(c)) == c && Encode(Decode(e)) == e;
  }

  /** Two's complement 32-bit overflow of a sum just above the range. */
  function ToInt32(x: int): int { if x < 0x8000_0000 then x else x - 0x1_0000_0000 }

  /** `d` is what AdjustTime makes of `c`. */
  predicate AdjustedBy(c: Time, offset: int, d: Time) { Adjusted(c, ToInt32(offset + c.minute) - c.minute, d) }

  /** An overflow moves the time by 2^32 minutes too few, which is no whole number of cycles. */
  lemma OverflowMoves(c: Time, d: Time, offset: int)
    requires AdjustedBy(c, offset, d)
    ensures Adjusted(c, offset, d) <==> offset + c.minute < 0x8000_0000
  {
    NoWholeCycles(MinuteNumber(c) + offset);
  }

  /** The largest offset overflows unless the minutes are 0. */
  lemma LargestOffset(c: Time, d: Time)
    requires ValidTime(c) && AdjustedBy(c, 0x7FFF_FFFF, d)
    ensures Adjusted(c, 0x7FFF_FFFF, d) <==> c.minute == 0
  {
    OverflowMoves(c, d, 0x7FFF_FFFF);
  }

  lemma NoWholeCycles(x: int)
    ensures (x - 0x1_0000_0000) % 52596000 != x % 52596000
  {
    var p, q := x / 52596000, (x - 0x1_0000_0000) / 52596000;
    assert x == 52596000 * p + x % 52596000;
    assert x - 0x1_0000_0000 == 52596000 * q + (x - 0x1_0000_0000) % 52596000;
  }

  lemma MinuteOfSum(h: int, m: int, x: int, g: int, n: int)
    requires 60 * g + n == (60 * h + m + x) % 52596000 && 0 <= n < 60
    ensures n == (m + x) % 60
  {
    var q := (60 * h + m + x) / 52596000;
    assert m + x == 60 * (876600 * q + g - h) + n;
  }

  lemma NewMinute(c: Time, x: int, d: Time)
    requires Adjusted(c, x, d)
    ensures d.minute == (c.minute + x) % 60
  {
    MinuteOfSum(HourNumber(c), c.minute, x, HourNumber(d), d.minute);
  }

  /** From minutes `m`, neither the sum with `a` overflows nor that of the new minutes with `-a`. */
  predicate FitsBothWays(m: int, a: int) { a + m < 0x8000_0000 && (m + a) % 60 - a < 0x8000_0000 }

  /** The moves that `a` and `-a` make cancel, or are 2^32 apart. */
  lemma MovesCancel(a: int, m: int, n: int, x: int, y: int)
    requires -0x8000_0000 < a < 0x8000_0000 && 0 <= m < 60 && 0 <= n < 60 && n == (m + x) % 60
    requires x == ToInt32(a + m) - m && y == ToInt32(-a + n) - n
    ensures x + y == 0 || x + y == -0x1_0000_0000
    ensures x + y == 0 <==> FitsBothWays(m, a)
  {
  }

  lemma MovedBack(t: Time, x: int, u: Time, y: int, v: Time)
    requires ValidTime(t) && Adjusted(t, x, u) && Adjusted(u, y, v) && (x + y == 0 || x + y == -0x1_0000_0000)
    ensures v == t <==> x + y == 0
  {
    AdjustedTwice(t, x, u, y, v);
    MinuteRange(t);
    NoWholeCycles(MinuteNumber(t));
  }

  /**
   * Adjusting by `a` and then by `-a` gives back every BCD byte if and only if neither sum overflows.
   */
  lemma AdjustInverse(c: Time, a: int, d: Time, e: Time)
    requires ValidBcd(c) && ValidBcd(e) && -0x8000_0000 < a < 0x8000_0000
    requires AdjustedBy(Decode(c), a, Decode(d)) && AdjustedBy(Decode(d), -a, Decode(e))
    ensures e == c <==> FitsBothWays(Decode(c).minute, a)
  {
    BackExact(Decode(c), a, Decode(d), Decode(e));
    DecodeInjective(c, e);
  }

  lemma BackExact(t: Time, a: int, u: Time, v: Time)
    requires ValidTime(t) && -0x8000_0000 < a < 0x8000_0000 && AdjustedBy(t, a, u) && AdjustedBy(u, -a, v)
    ensures v == t <==> FitsBothWays(t.minute, a)
  {
    var x, y := ToInt32(a + t.minute) - t.minute, ToInt32(-a + u.minute) - u.minute;
    NewMinute(t, x, u);
    MovesCancel(a, t.minute, u.minute, x, y);
    MovedBack(t, x, u, y, v);
  }

  /** There and back by the largest offset fails unless the minutes are 0. */
  lemma LargestOffsetBack(c: Time, d: Time, e: Time)
    requires ValidBcd(c) && ValidBcd(e)
    requires AdjustedBy(Decode(c), 0x7FFF_FFFF, Decode(d)) && AdjustedBy(Decode(d), -0x7FFF_FFFF, Decode(e))
    ensures e == c <==> Decode(c).minute == 0
  {
    AdjustInverse(c, 0x7FFF_FFFF, d, e);
  }

  class ClockRegister {
    var second: int
    var minute: int
    var hour: int
    var day: int
    var month: int
    var year: int

    function T(): Time
      reads this
    {
      Time(second, minute, hour, day, month, year)
    }

    constructor (t: Time)
      ensures T() == t
    {
      second, minute, hour, day, month, year := t.second, t.minute, t.hour, t.day, t.month, t.year;
    }

    method ConvertToBcd()
      modifies this
      ensures T() == Encode(old(T()))
    {
      second := ToBcd(second);
      minute := ToBcd(minute);
      hour := ToBcd(hour);
      day := ToBcd(day);
      month := ToBcd(month);
      year := ToBcd(year);
    }

    method ConvertFromBcd()
      modifies this
      ensures T() == Decode(old(T()))
    {
      second := FromBcd(second);
      minute := FromBcd(minute);
      hour := FromBcd(hour);
      day := FromBcd(day);
      month := FromBcd(month);
      year := FromBcd(year);
    }

    method AddDate()
      requires ValidDate(T())
      modifies this`day, this`month, this`year
      ensures ValidDate(T())
      ensures DayNumber(T()) == if DayNumber(old(T())) + 1 == DAYS then 0 else DayNumber(old(T())) + 1
    {
      var days := DaysIn(Leap(year), month);
      day := day + 1;
      if day > days {
        day := 1;
        month := month + 1;
        if month == 13 {
          month := 1;
          year := year + 1;
          if year == 100 { year := 0; }
        }
      }
      NextDateNumber(old(T()), T());
    }

    method SubDate()
      requires ValidDate(T())
      modifies this`day, this`month, this`year
      ensures ValidDate(T())
      ensures DayNumber(T()) == if DayNumber(old(T())) == 0 then DAYS - 1 else DayNumber(old(T())) - 1
    {
      var leap := Leap(year);
      day := day - 1;
      if day == 0 {
        month := month - 1;
        if month == 0 {
          month := 12;
          if year == 0 {
            year := 99;
          } else {
            year := year - 1;
          }
        }
        day := DaysIn(leap, month);
      }
      NextDateNumber(T(), old(T()));
      DateRange(T());
    }

    method AddHour()
      requires ValidDate(T()) && 0 <= hour < 24
      modifies this`day, this`month, this`year, this`hour
      ensures ValidDate(T()) && 0 <= hour < 24
      ensures HourNumber(T()) == if HourNumber(old(T())) + 1 == HOURS then 0 else HourNumber(old(T())) + 1
    {
      DateRange(T());
      hour := hour + 1;
      if hour == 24 {
        assert ValidDate(T()) && DayNumber(T()) == DayNumber(old(T()));
        AddDate();
        hour := 0;
      }
      assert HourNumber(T()) == 24 * DayNumber(T()) + hour;
    }

    method SubHour()
      requires ValidDate(T()) && 0 <= hour < 24
      modifies this`day, this`month, this`year, this`hour
      ensures ValidDate(T()) && 0 <= hour < 24
      ensures HourNumber(T()) == if HourNumber(old(T())) == 0 then HOURS - 1 else HourNumber(old(T())) - 1
    {
      DateRange(T());
      if hour == 0 {
        SubDate();
        hour := 23;
      } else {
        hour := hour - 1;
      }
    }

    /** The sum of offset and minutes is an `int`: the time moves by the offset exactly when that sum does not overflow. */
    method AdjustTime(offset: int)
      requires ValidBcd(T()) && -0x8000_0000 <= offset < 0x8000_0000
      modifies this
      ensures ValidBcd(T())
      ensures AdjustedBy(Decode(old(T())), offset, Decode(T()))
      ensures Adjusted(Decode(old(T())), offset, Decode(T())) <==> offset + Decode(old(T())).minute < 0x8000_0000
    {
      ConvertFromBcd();
      AdjustDecimal(offset);
      EncodeValid(T());
      ConvertToBcd();
    }

    /** The two loops of AdjustTime. */
    method AdjustDecimal(offset: int)
      requires ValidTime(T()) && -0x8000_0000 <= offset < 0x8000_0000
      modifies this
      ensures ValidTime(T()) && AdjustedBy(old(T()), offset, T())
      ensures Adjusted(old(T()), offset, T()) <==> offset + old(T()).minute < 0x8000_0000
    {
      var rest := ToInt32(offset + minute);
      ghost var total := MinuteNumber(T()) + rest - minute;
      ghost var cycles := 0;
      if rest >= 0 {
        while rest >= 60
          invariant rest >= 0 && second == old(second)
          invariant ValidDate(T()) && 0 <= hour < 24
          invariant 60 * HourNumber(T()) + rest + 52596000 * cycles == total
        {
          if HourNumber(T()) + 1 == HOURS { cycles := cycles + 1; }
          AddHour();
          rest := rest - 60;
        }
      } else {
        while rest < 0
          invariant rest < 60 && second == old(second)
          invariant ValidDate(T()) && 0 <= hour < 24
          invariant 60 * HourNumber(T()) + rest + 52596000 * cycles == total
        {
          if HourNumber(T()) == 0 { cycles := cycles - 1; }
          SubHour();
          rest := rest + 60;
        }
      }
      minute := rest;
      MinuteRange(T());
      ModIs(total, cycles);
      OverflowMoves(old(T()), T(), offset);
    }
  }

  /** What two calls in a row do to a register. */
  method AdjustBothWays(r: ClockRegister, a: int)
    requires ValidBcd(r.T()) && -0x8000_0000 < a < 0x8000_0000
    modifies r
    ensures ValidBcd(r.T())
    ensures r.T() == old(r.T()) <==> FitsBothWays(Decode(old(r.T())).minute, a)
  {
    ghost var c := r.T();
    r.AdjustTime(a);
    ghost var d := r.T();
    r.AdjustTime(-a);
    AdjustInverse(c, a, d, r.T());
  }

  lemma ModIs(total: int, cycles: int)
    requires 0 <= total - 52596000 * cycles < 52596000
    ensures total % 52596000 == total - 52596000 * cycles
  {
  }

  lemma EncodeValid(t: Time)
    requires ValidTime(t)
    ensures ValidBcd(Encode(t)) && Decode(Encode(t)) == t
  {
    BcdOfDecimal(t.second);
    BcdOfDecimal(t.minute);
    BcdOfDecimal(t.hour);
    BcdOfDecimal(t.day);
    BcdOfDecimal(t.month);
    BcdOfDecimal(t.year);
  }
}
