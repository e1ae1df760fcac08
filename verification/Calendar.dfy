/** Unix time, calendar time and DOS time stamps: xtkernel/time.c and the packing macros of drivers/vfat/main.c. */
module Calendar {
  import opened Bits
  import opened Results

  const DAY: nat := 86400

  // ----- The calendar -----

  predicate IsLeap(year: nat) {
    (year % 4 == 0 && year % 100 != 0) || year % 400 == 0
  }

  function YearLength(year: nat): nat { if IsLeap(year) then 366 else 365 }

  const DAYS: seq<nat> := [31, 28, 31, 30, 31, 30, 31, 31, 30, 31, 30, 31]

  function DaysInMonth(year: nat, month: nat): nat
    requires 1 <= month <= 12
  {
    if month == 2 && IsLeap(year) then 29 else DAYS[month - 1]
  }

  function DaysBeforeMonth(year: nat, month: nat): nat
    requires 1 <= month <= 13
  {
    if month == 1 then 0 else DaysBeforeMonth(year, month - 1) + DaysInMonth(year, month - 1)
  }

  /** Days from 1970-01-01 to the first of January. */
  function DaysBeforeYear(year: nat): nat
    requires year >= 1970
  {
    if year == 1970 then 0 else DaysBeforeYear(year - 1) + YearLength(year - 1)
  }

  /** The days before a month in closed form: from March on, February's missing days count. */
  lemma {:induction false} MonthStart(year: nat, month: nat)
    requires 1 <= month <= 13
    ensures DaysBeforeMonth(year, month)
         == (367 * month - 362) / 12 - if month <= 2 then 0 else if IsLeap(year) then 1 else 2
    decreases month
  {
    hide IsLeap;
    if month > 1 { MonthStart(year, month - 1); }
  }

  /** Twelve months make a year. */
  lemma MonthsMakeYear(year: nat)
    ensures DaysBeforeMonth(year, 13) == YearLength(year)
  {
    MonthStart(year, 13);
  }

  /** Leap days up to the end of a year, by the Gregorian rule. */
  function LeapDays(year: nat): int { year / 4 - year / 100 + year / 400 }

  /** The year loops add up to the Gregorian day count. */
  lemma {:induction false} GregorianCount(year: nat)
    requires year >= 1970
    ensures DaysBeforeYear(year) == 365 * (year - 1970) + LeapDays(year - 1) - LeapDays(1969)
    decreases year
  {
    if year > 1970 {
      GregorianCount(year - 1);
      LeapStep(year - 1);
    }
  }

  lemma LeapStep(year: nat)
    requires year > 0
    ensures LeapDays(year) == LeapDays(year - 1) + if IsLeap(year) then 1 else 0
  {
    QuotientStep(year, 4);
    QuotientStep(year, 100);
    QuotientStep(year, 400);
  }

  lemma QuotientStep(x: nat, d: nat)
    requires x > 0 && (d == 4 || d == 100 || d == 400)
    ensures x / d == (x - 1) / d + if x % d == 0 then 1 else 0
  {}

  lemma {:induction false} MonthsGrow(year: nat, month: nat, later: nat)
    requires 1 <= month < later <= 13
    ensures DaysBeforeMonth(year, month) + DaysInMonth(year, month) <= DaysBeforeMonth(year, later)
    decreases later
  {
    if month + 1 < later { MonthsGrow(year, month, later - 1); }
  }

  lemma {:induction false} YearsGrow(year: nat, later: nat)
    requires 1970 <= year < later
    ensures DaysBeforeYear(year) + YearLength(year) <= DaysBeforeYear(later)
    decreases later
  {
    if year + 1 < later { YearsGrow(year, later - 1); }
  }

  // ----- Points in time -----

  datatype XTTime = XTTime(seconds: nat, minutes: nat, hour: nat, mday: nat, wday: nat, month: nat, yday: nat, year: nat) {
    /** What xtMakeTime accepts. */
    predicate Valid() {
      && seconds <= 59 && minutes <= 59 && hour <= 23 && 1 <= month <= 12 && year >= 1970
      && 1 <= mday <= DaysInMonth(year, month)
    }

    function DayOfYear(): nat
      requires Valid()
    {
      DaysBeforeMonth(year, month) + mday - 1
    }

    function Days(): nat
      requires Valid()
    {
      DaysBeforeYear(year) + DayOfYear()
    }

    function Clock(): nat { hour * 3600 + minutes * 60 + seconds }

    /** Seconds since 1970-01-01 00:00:00. */
    function Unix(): nat
      requires Valid()
    {
      Days() * DAY + Clock()
    }

    /** The fields that xtMakeTime looks at. */
    predicate SameMoment(t: XTTime) {
      && seconds == t.seconds && minutes == t.minutes && hour == t.hour
      && mday == t.mday && month == t.month && year == t.year
    }

    /** Earlier by year, then month, day, hour, minute and second. */
    predicate Before(t: XTTime) {
      year < t.year || (year == t.year &&
      (month < t.month || (month == t.month &&
      (mday < t.mday || (mday == t.mday &&
      (hour < t.hour || (hour == t.hour &&
      (minutes < t.minutes || (minutes == t.minutes && seconds < t.seconds)))))))))
    }
  }

  /** Unix time in closed form: the Gregorian calendar day, and the time of the day. */
  lemma UnixIs(t: XTTime)
    requires t.Valid()
    ensures var y := t.year - 1;
      var days := 365 * (t.year - 1970) + (y / 4 - y / 100 + y / 400 - 477)
        + (367 * t.month - 362) / 12
        - (if t.month <= 2 then 0 else if t.year % 4 == 0 && (t.year % 100 != 0 || t.year % 400 == 0) then 1 else 2)
        + t.mday - 1;
      t.Unix() == 86400 * days + 3600 * t.hour + 60 * t.minutes + t.seconds
  {
    GregorianCount(t.year);
    MonthStart(t.year, t.month);
    hide DaysBeforeYear, DaysBeforeMonth, DaysInMonth;
    LeapRule(t.year);
  }

  lemma LeapRule(year: nat)
    ensures IsLeap(year) <==> year % 4 == 0 && (year % 100 != 0 || year % 400 == 0)
  {
    if year % 400 == 0 { assert year == 4 * (100 * (year / 400)); }
  }

  lemma DayOfYearFits(t: XTTime)
    requires t.Valid()
    ensures t.DayOfYear() < YearLength(t.year)
  {
    MonthsGrow(t.year, t.month, 13);
    MonthsMakeYear(t.year);
  }

  lemma DaysInOrder(t: XTTime, u: XTTime)
    requires t.Valid() && u.Valid()
    requires t.year < u.year || (t.year == u.year && (t.month < u.month || (t.month == u.month && t.mday < u.mday)))
    ensures t.Days() < u.Days()
  {
    if t.year < u.year {
      DayOfYearFits(t);
      YearsGrow(t.year, u.year);
    } else if t.month < u.month {
      MonthsGrow(t.year, t.month, u.month);
    }
  }

  /** Unix time preserves order ... */
  lemma UnixInOrder(t: XTTime, u: XTTime)
    requires t.Valid() && u.Valid() && t.Before(u)
    ensures t.Unix() < u.Unix()
  {
    assert t.Clock() < DAY && u.Clock() < DAY;
    if t.year == u.year && t.month == u.month && t.mday == u.mday {
      assert t.Days() == u.Days();
      assert t.Clock() < u.Clock();
    } else {
      DaysInOrder(t, u);
      hide DaysBeforeYear, DaysBeforeMonth, DaysInMonth;
      assert t.Days() * DAY + DAY <= u.Days() * DAY;
    }
  }

  /** ... both ways, so different moments have different Unix times. */
  lemma UnixOrder(t: XTTime, u: XTTime)
    requires t.Valid() && u.Valid()
    ensures t.Unix() < u.Unix() <==> t.Before(u)
    ensures t.Unix() == u.Unix() <==> t.SameMoment(u)
  {
    hide DaysInMonth;
    if t.Before(u) {
      UnixInOrder(t, u);
    } else if u.Before(t) {
      UnixInOrder(u, t);
    } else {
      assert t.SameMoment(u);
    }
  }

  /** The first Unix time whose year does not fit 32 bits. */
  ghost function EndOfTime(): nat {
    DaysBeforeYear(TWO_32) * DAY
  }

  /** It fits 63 bits, so there are times the fields cannot hold. */
  lemma EndOfTimeFits()
    ensures EndOfTime() < TWO_63
  {
    GregorianCount(TWO_32);
    hide DaysBeforeYear;
  }

  lemma BeforeTheEnd(t: XTTime)
    requires t.Valid()
    ensures t.year < TWO_32 <==> t.Unix() < EndOfTime()
  {
    DayOfYearFits(t);
    hide DaysInMonth, DaysBeforeMonth;
    if t.year < TWO_32 {
      YearsGrow(t.year, TWO_32);
      hide DaysBeforeYear;
      assert t.Clock() < DAY;
      assert t.Days() * DAY + DAY <= DaysBeforeYear(TWO_32) * DAY;
    } else if t.year > TWO_32 {
      YearsGrow(TWO_32, t.year);
    }
  }

  lemma NoOverflow(t: XTTime)
    requires t.Valid() && t.year < TWO_32
    ensures t.Unix() < TWO_63
  {
    hide DaysInMonth, DaysBeforeMonth;
    GregorianCount(t.year);
    DayOfYearFits(t);
    hide DaysBeforeYear;
    assert t.Days() < 366 * TWO_32 + 366;
    assert t.Clock() < DAY;
  }

  // ----- The code -----

  /** xtMakeTime succeeds exactly on calendar dates from 1970 on, with their Unix time. */
  method MakeTime(time: XTTime) returns (r: XTResult, unixtime: nat)
    requires time.year < TWO_32
    ensures r == if time.Valid() then XT_SUCCESS else XT_INVALID_PARAMETER
    ensures r == XT_SUCCESS ==> unixtime == time.Unix() < TWO_63
  {
    unixtime := 0;
    if time.seconds > 59 || time.minutes > 59 || time.hour > 23 || time.mday < 1 || time.mday > 31
       || time.month < 1 || time.month > 12 || time.year < 1970 {
      return XT_INVALID_PARAMETER, unixtime;
    }
    if time.mday > DaysInMonth(time.year, time.month) { return XT_INVALID_PARAMETER, unixtime; }
    var days := 0;
    var y := 1970;
    while y < time.year
      invariant 1970 <= y <= time.year && days == DaysBeforeYear(y)
    {
      days := days + (if IsLeap(y) then 366 else 365);
      y := y + 1;
    }
    var before := SumMonths(time.year, time.month);
    days := days + before + (time.mday - 1);
    unixtime := days * 86400 + time.hour * 3600 + time.minutes * 60 + time.seconds;
    NoOverflow(time);
    r := XT_SUCCESS;
  }

  /** days_before_month */
  method SumMonths(year: nat, month: nat) returns (total: nat)
    requires 1 <= month <= 12
    ensures total == DaysBeforeMonth(year, month)
  {
    total := 0;
    var m := 1;
    while m < month
      invariant 1 <= m <= month && total == DaysBeforeMonth(year, m)
    {
      total := total + DaysInMonth(year, m);
      m := m + 1;
    }
  }

  /** The loop of xtGetTimeFromUnix over the years; `++year` wraps at 2^32. */
  method FindYear(total: nat) returns (year: nat, days: nat)
    ensures year < TWO_32 && days < YearLength(year)
    ensures total < DaysBeforeYear(TWO_32) ==> year >= 1970 && DaysBeforeYear(year) + days == total
  {
    hide DaysBeforeYear, IsLeap;
    year, days := 1970, total;
    FirstYear();
    while days >= YearLength(year)
      invariant year < TWO_32
      invariant total < DaysBeforeYear(TWO_32) ==> year >= 1970 && DaysBeforeYear(year) + days == total
      decreases days
    {
      if year >= 1970 { NextYear(year); }
      days := days - YearLength(year);
      year := (year + 1) % TWO_32;
    }
  }

  lemma FirstYear()
    ensures DaysBeforeYear(1970) == 0
  {}

  lemma NextYear(year: nat)
    requires year >= 1970
    ensures DaysBeforeYear(year + 1) == DaysBeforeYear(year) + YearLength(year)
    ensures year < TWO_32 ==> DaysBeforeYear(year + 1) <= DaysBeforeYear(TWO_32)
  {
    if year + 1 < TWO_32 { YearsGrow(year + 1, TWO_32); }
  }

  /** The loop over the months. */
  method FindMonth(year: nat, dayOfYear: nat) returns (month: nat, days: nat)
    requires dayOfYear < YearLength(year)
    ensures 1 <= month <= 12 && days < DaysInMonth(year, month) && DaysBeforeMonth(year, month) + days == dayOfYear
  {
    month, days := 1, dayOfYear;
    MonthsMakeYear(year);
    while month <= 12
      invariant 1 <= month <= 13 && DaysBeforeMonth(year, month) + days == dayOfYear
    {
      var dim := DaysInMonth(year, month);
      if days < dim { break; }
      days := days - dim;
      month := month + 1;
    }
  }

  /** xtGetTimeFromUnix finds the moment exactly when its year fits 32 bits. */
  method GetTimeFromUnix(unixtime: nat) returns (time: XTTime)
    ensures time.year < TWO_32 && 1 <= time.month <= 12 && 1 <= time.mday <= DaysInMonth(time.year, time.month)
    ensures time.seconds <= 59 && time.minutes <= 59 && time.hour <= 23 && time.Clock() == unixtime % DAY
    ensures (time.Valid() && time.Unix() == unixtime) <==> unixtime < EndOfTime()
    ensures time.wday == (unixtime / DAY + 4) % 7 && time.yday == DaysBeforeMonth(time.year, time.month) + time.mday - 1
  {
    var total, secsOfDay := unixtime / 86400, unixtime % 86400;
    var hour, minutes, seconds := secsOfDay / 3600, secsOfDay % 3600 / 60, secsOfDay % 60;
    ClockFields(secsOfDay);
    var year, dayOfYear := FindYear(total);
    var month, days := FindMonth(year, dayOfYear);
    var mday := days + 1;
    var before := SumMonths(year, month);
    time := XTTime(seconds, minutes, hour, mday, (total + 4) % 7, month, before + (mday - 1), year);
    hide DaysBeforeYear, DaysBeforeMonth, DaysInMonth;
    Reached(time, unixtime);
  }

  lemma ClockFields(s: nat)
    requires s < 86400
    ensures s / 3600 <= 23 && s % 3600 / 60 <= 59 && s / 3600 * 3600 + s % 3600 / 60 * 60 + s % 60 == s
  {}

  lemma Reached(t: XTTime, unixtime: nat)
    requires t.year < TWO_32 && 1 <= t.month <= 12 && 1 <= t.mday <= DaysInMonth(t.year, t.month)
    requires t.seconds <= 59 && t.minutes <= 59 && t.hour <= 23 && t.Clock() == unixtime % DAY
    requires unixtime / DAY < DaysBeforeYear(TWO_32) ==> t.Valid() && t.Days() == unixtime / DAY
    ensures (t.Valid() && t.Unix() == unixtime) <==> unixtime < EndOfTime()
  {
    hide DaysBeforeYear, DaysBeforeMonth, DaysInMonth;
    if t.Valid() { BeforeTheEnd(t); }
    DayOf(unixtime, DaysBeforeYear(TWO_32));
  }

  lemma DayOf(x: nat, days: nat)
    ensures x / DAY < days <==> x < days * DAY
  {}

  /** xtMakeTime undoes xtGetTimeFromUnix on every time whose year fits, and on no other. */
  method ThereAndBack(unixtime: nat) returns (r: XTResult, back: nat)
    ensures (r == XT_SUCCESS && back == unixtime) <==> unixtime < EndOfTime()
  {
    var time := GetTimeFromUnix(unixtime);
    r, back := MakeTime(time);
  }

  /** xtGetTimeFromUnix undoes xtMakeTime on every calendar date. */
  method BackAndThere(time: XTTime) returns (again: XTTime)
    requires time.Valid() && time.year < TWO_32
    ensures again.SameMoment(time) && again.yday == time.DayOfYear() && again.wday == (time.Days() + 4) % 7
  {
    var r, unixtime := MakeTime(time);
    again := GetTimeFromUnix(unixtime);
    BeforeTheEnd(time);
    UnixOrder(again, time);
    hide DaysBeforeYear, DaysBeforeMonth, DaysInMonth;
    DayOfUnix(time);
  }

  lemma DayOfUnix(t: XTTime)
    requires t.Valid()
    ensures t.Unix() / DAY == t.Days()
  {
    hide DaysBeforeYear, DaysBeforeMonth, DaysInMonth;
    DivModUnique(t.Unix(), DAY, t.Days(), t.Clock());
  }

  // ----- DOS time stamps -----

  /** _create_time, stored in 16 bits */
  function CreateTime(hours: nat, minute: nat, second: nat): nat {
    Or(Or(hours * 2048, minute * 32), Shr(second, 1)) % 0x1_0000
  }

  /** _create_date of a year counted from 1980 in 32 bits, stored in 16 bits */
  function CreateDate(year: nat, month: nat, day: nat): nat {
    Or(Or(year * 512 % TWO_32, month * 32), day) % 0x1_0000
  }

  /** get_year, get_month, get_mday, get_hours, get_minutes and get_seconds */
  function Unpacked(date: nat, time: nat): XTTime {
    XTTime(And(time, 0x1f) * 2, And(Shr(time, 5), 0x3f), Shr(time, 11), And(date, 0x1f), 0, And(Shr(date, 5), 0xf), 0,
           Shr(date, 9) + 1980)
  }

  /** Three fields side by side. */
  lemma JoinFields(a: nat, b: nat, c: nat, k: nat)
    requires b < Pow2(k) && c < 32
    ensures Or(Or(a * (32 * Pow2(k)), b * 32), c) == 32 * (a * Pow2(k) + b) + c
  {
    assert Pow2(5) == 32 by { Powers(); }
    Pow2Add(5, k);
    Regroup(a, b, Pow2(k));
    hide *;
    var w := a * Pow2(k) + b;
    OrJoin(a, 32 * b, 5 + k);
    OrJoin(w, c, 5);
  }

  lemma Regroup(a: nat, b: nat, p: nat)
    requires b < p
    ensures a * (32 * p) == (32 * p) * a && b * 32 == 32 * b < 32 * p && (32 * p) * a + 32 * b == 32 * (a * p + b)
    ensures 32 * (a * p + b) == 32 * (a * p) + 32 * b
  {}

  lemma TimeFields(hours: nat, minute: nat, second: nat)
    requires hours < 32 && minute < 64 && second < 64
    ensures CreateTime(hours, minute, second) == 32 * (64 * hours + minute) + second / 2
  {
    assert Pow2(6) == 64 && Pow2(1) == 2 by { Powers(); }
    hide Or, Shr, Pow2;
    DivideBy(second, 1, 2);
    JoinFields(hours, minute, second / 2, 6);
  }

  lemma DateFields(year: nat, month: nat, day: nat)
    requires month < 16 && day < 32
    ensures CreateDate(year, month, day) == 32 * (16 * (year % 128) + month) + day
  {
    assert Pow2(4) == 16 by { Powers(); }
    hide Or, Pow2;
    var a := year % 0x80_0000;
    ShiftedYear(year);
    JoinFields(a, month, day, 4);
    Truncated(a, month, day);
  }

  lemma ShiftedYear(year: nat)
    ensures year * 512 % TWO_32 == year % 0x80_0000 * 512 && year % 0x80_0000 % 128 == year % 128
  {
    var q, a := year / 0x80_0000, year % 0x80_0000;
    DivModUnique(year * 512, TWO_32, q, a * 512);
    DivModUnique(year, 128, q * 0x1_0000 + a / 128, a % 128);
  }

  lemma Truncated(a: nat, month: nat, day: nat)
    requires month < 16 && day < 32
    ensures (32 * (a * 16 + month) + day) % 0x1_0000 == 32 * (16 * (a % 128) + month) + day
  {
    DivModUnique(32 * (a * 16 + month) + day, 0x1_0000, a / 128, 32 * (16 * (a % 128) + month) + day);
  }

  lemma UnpackedIs(date: nat, time: nat)
    ensures Unpacked(date, time) ==
            XTTime(time % 32 * 2, time / 32 % 64, time / 2048, date % 32, 0, date / 32 % 16, 0, date / 512 + 1980)
  {
    assert Pow2(4) == 16 && Pow2(5) == 32 && Pow2(6) == 64 && Pow2(9) == 512 && Pow2(11) == 2048 by { Powers(); }
    hide And, Shr, Low, Pow2;
    AndLow(time, 5);
    DivideBy(time, 5, 32);
    AndLow(time / 32, 6);
    DivideBy(time / 32, 6, 64);
    DivideBy(time, 11, 2048);
    AndLow(date, 5);
    DivideBy(date, 5, 32);
    AndLow(date / 32, 4);
    DivideBy(date / 32, 4, 16);
    DivideBy(date, 9, 512);
  }

  /** Packing keeps every field but the odd second and all but seven bits of the year. */
  lemma FieldsComeBack(hours: nat, minute: nat, second: nat, year: nat, month: nat, day: nat)
    requires hours < 32 && minute < 64 && second < 64 && month < 16 && day < 32
    ensures Unpacked(CreateDate(year, month, day), CreateTime(hours, minute, second))
         == XTTime(second / 2 * 2, minute, hours, day, 0, month, 0, 1980 + year % 128)
  {
    hide Unpacked, CreateDate, CreateTime;
    TimeFields(hours, minute, second);
    DateFields(year, month, day);
    UnpackedIs(CreateDate(year, month, day), CreateTime(hours, minute, second));
    DivModUnique(CreateTime(hours, minute, second), 32, 64 * hours + minute, second / 2);
    DivModUnique(64 * hours + minute, 64, hours, minute);
    DivModUnique(CreateTime(hours, minute, second), 2048, hours, 32 * minute + second / 2);
    DivModUnique(CreateDate(year, month, day), 32, 16 * (year % 128) + month, day);
    DivModUnique(16 * (year % 128) + month, 16, year % 128, month);
    DivModUnique(CreateDate(year, month, day), 512, year % 128, 32 * month + day);
  }

  const DOS_START: nat := 315532800
  const DOS_END: nat := 4354819200

  /** 1980-01-01 and 2108-01-01 */
  lemma DosYears()
    ensures DaysBeforeYear(1980) * DAY == DOS_START && DaysBeforeYear(2108) * DAY == DOS_END < EndOfTime()
  {
    hide DaysBeforeYear;
    GregorianCount(1980);
    GregorianCount(2108);
    YearsGrow(2108, TWO_32);
  }

  lemma InDosYears(t: XTTime)
    requires t.Valid()
    ensures 1980 <= t.year <= 2107 <==> DOS_START <= t.Unix() < DOS_END
  {
    DosYears();
    hide DaysInMonth, DaysBeforeMonth;
    DayOfYearFits(t);
    if t.year < 1980 { YearsGrow(t.year, 1980); }
    if 1980 < t.year { YearsGrow(1980, t.year); }
    if t.year < 2108 { YearsGrow(t.year, 2108); }
    if 2108 < t.year { YearsGrow(2108, t.year); }
    hide DaysBeforeYear;
    assert t.Clock() < DAY;
    DayOf(t.Unix(), DaysBeforeYear(1980));
    DayOf(t.Unix(), DaysBeforeYear(2108));
    DayOfUnix(t);
  }

  /** What a stamp of a time says: the even second, if the year is one that DOS can write. */
  lemma StampedTime(t: XTTime, u: XTTime)
    requires t.Valid() && 1980 <= u.year <= 2107 && (u.year == t.year || t.year < 1980 || 2107 < t.year)
    requires u == XTTime(t.seconds / 2 * 2, t.minutes, t.hour, t.mday, 0, t.month, 0, u.year)
    ensures u.year == t.year ==> u.Valid() && u.Unix() == t.Unix() / 2 * 2
    ensures u.year != t.year && u.Valid() ==> u.Unix() != t.Unix() / 2 * 2
  {
    if u.year == t.year {
      hide DaysBeforeYear, DaysBeforeMonth, DaysInMonth;
      assert u.Days() == t.Days();
      EvenClock(t.Days(), t.hour, t.minutes, t.seconds);
    } else if u.Valid() {
      hide *;
      InDosYears(u);
      InDosYears(t);
      OutOfRange(t.Unix(), u.Unix());
    }
  }

  lemma OutOfRange(x: nat, y: nat)
    requires DOS_START <= y < DOS_END && !(DOS_START <= x < DOS_END)
    ensures y != x / 2 * 2
  {}

  lemma EvenClock(days: nat, hour: nat, minutes: nat, seconds: nat)
    ensures (days * DAY + (hour * 3600 + minutes * 60 + seconds)) / 2 * 2
         == days * DAY + (hour * 3600 + minutes * 60 + seconds / 2 * 2)
  {}

  /** Writing a time into a directory entry and reading it back (vfatFileInfoToSFN, then vfatSFNtoFileInfo) gives
      the time rounded down to an even second, exactly for the years 1980 to 2107. */
  method DosRoundTrip(unixtime: nat) returns (r: XTResult, back: nat)
    ensures (r == XT_SUCCESS && back == unixtime / 2 * 2) <==> DOS_START <= unixtime < DOS_END
  {
    hide DaysBeforeYear, DaysBeforeMonth, DaysInMonth, Unpacked, CreateDate, CreateTime, EndOfTime;
    var tm := GetTimeFromUnix(unixtime);
    DayFits(tm);
    var time := CreateTime(tm.hour, tm.minutes, tm.seconds);
    var date := CreateDate((tm.year - 1980) % TWO_32, tm.month, tm.mday);
    FieldsComeBack(tm.hour, tm.minutes, tm.seconds, (tm.year - 1980) % TWO_32, tm.month, tm.mday);
    var read := Unpacked(date, time);
    DosYears();
    if unixtime < EndOfTime() {
      InDosYears(tm);
      SevenBits(tm.year);
      StampedTime(tm, read);
    } else if read.Valid() {
      InDosYears(read);
    }
    r, back := MakeTime(read);
  }

  lemma DayFits(t: XTTime)
    requires 1 <= t.month <= 12 && t.mday <= DaysInMonth(t.year, t.month)
    ensures t.mday < 32
  {}

  lemma SevenBits(year: nat)
    requires year < TWO_32
    ensures 1980 + (year - 1980) % TWO_32 % 128 == year <==> 1980 <= year <= 2107
  {}
}
