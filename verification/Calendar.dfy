/** src/freedos_micro_python/port/time_real_uc386dos.c: calendar dates to seconds since 1970, against a day count. */
module Calendar {
  import opened Machine

  // ---- the Gregorian calendar, by counting ----

  predicate LeapYear(y: int)
  {
    y % 4 == 0 && (y % 100 != 0 || y % 400 == 0)
  }

  function YearLength(y: int): int { if LeapYear(y) then 366 else 365 }

  function MonthLength(y: int, m: int): int
    requires 1 <= m <= 12
  {
    if m == 2 then if LeapYear(y) then 29 else 28
    else if m == 4 || m == 6 || m == 9 || m == 11 then 30
    else 31
  }

  function DaysBeforeYear(y: nat): nat
  {
    if y == 0 then 0 else DaysBeforeYear(y - 1) + YearLength(y - 1)
  }

  function DaysBeforeMonth(y: int, m: int): nat
    requires 1 <= m <= 12
  {
    if m == 1 then 0 else DaysBeforeMonth(y, m - 1) + MonthLength(y, m - 1)
  }

  datatype Date = Date(y: nat, m: nat, d: nat)

  predicate ValidDate(t: Date)
  {
    1 <= t.m <= 12 && 1 <= t.d <= MonthLength(t.y, t.m)
  }

  /** Days since 1 January of year 0. */
  function DayNumber(t: Date): int
    requires ValidDate(t)
  {
    DaysBeforeYear(t.y) + DaysBeforeMonth(t.y, t.m) + t.d - 1
  }

  const EPOCH: Date := Date(1970, 1, 1)

  /** Days since 1 January 1970. */
  function CivilDays(t: Date): int
    requires ValidDate(t)
  {
    DayNumber(t) - DayNumber(EPOCH)
  }

  // ---- the code ----

  /** Integer division as C does it, towards zero. */
  function TruncDiv(a: int, b: int): int
    requires b > 0
  {
    if a >= 0 then a / b else -((-a) / b)
  }

  function Unsigned(x: int): word { x % WORD_BASE }

  /** Days from 1 March to the first of a month, March being month 0. */
  function MarchDays(mAdj: nat): nat { Unsigned(153 * mAdj + 2) / 5 }

  /** `days_from_civil`, with the unsigned and long arithmetic of the target. */
  function DaysFromCivil(year: int, m: word, d: word): int
  {
    var y := year - (if m <= 2 then 1 else 0);
    var era := TruncDiv(y, 400);
    var yoe := Unsigned(y - era * 400);
    var mAdj := if m > 2 then m - 3 else m + 9;
    var doy := Unsigned(MarchDays(mAdj) + d - 1);
    var doe := Unsigned(yoe * 365 + yoe / 4 - yoe / 100 + doy);
    ToLong(era * 146097 + ToLong(doe) - 719468)
  }

  // ---- counting in closed form ----

  /** Leap days in years 1 to y. */
  function LeapDays(y: nat): int { y / 4 - y / 100 + y / 400 }

  lemma {:induction false} LeapDaysStep(y: nat)
    requires y > 0
    ensures LeapDays(y) == LeapDays(y - 1) + (if LeapYear(y) then 1 else 0)
  {
    DivStep(y, 4);
    DivStep(y, 100);
    DivStep(y, 400);
    Multiples(y);
  }

  lemma Multiples(y: nat)
    ensures y % 400 == 0 ==> y % 100 == 0
    ensures y % 100 == 0 ==> y % 4 == 0
  {
    if y % 400 == 0 {
      QuotientUnique(y, 100, y / 400 * 4, 0);
    }
    if y % 100 == 0 {
      QuotientUnique(y, 4, y / 100 * 25, 0);
    }
  }

  lemma DivStep(y: nat, k: nat)
    requires y > 0 && k > 0
    ensures y / k == (y - 1) / k + (if y % k == 0 then 1 else 0)
  {
    var q, r := (y - 1) / k, (y - 1) % k;
    assert y == k * q + (r + 1);
    if r + 1 < k {
      QuotientUnique(y, k, q, r + 1);
    } else {
      assert y == k * (q + 1) + 0;
      QuotientUnique(y, k, q + 1, 0);
    }
  }

  /** Days from 1 January of year 0 to 1 March of year y. */
  lemma {:induction false} DaysToMarch(y: nat)
    ensures DaysBeforeYear(y) + 59 + (if LeapYear(y) then 1 else 0) == 365 * y + LeapDays(y) + 60
  {
    if y > 0 {
      DaysToMarch(y - 1);
      LeapDaysStep(y);
    }
  }

  lemma EraSplit(y: nat)
    ensures y / 400 * 146097 + y % 400 * 365 + y % 400 / 4 - y % 400 / 100 == 365 * y + LeapDays(y)
    ensures 0 <= y % 400 * 365 + y % 400 / 4 - y % 400 / 100 <= 145731
  {
    var e, r := y / 400, y % 400;
    assert y == 400 * e + r;
    QuotientUnique(y, 4, 100 * e + r / 4, r % 4);
    QuotientUnique(y, 100, 4 * e + r / 100, r % 100);
  }

  lemma MarchTable()
    ensures MarchDays(0) == 0 && MarchDays(1) == 31 && MarchDays(2) == 61 && MarchDays(3) == 92
    ensures MarchDays(4) == 122 && MarchDays(5) == 153 && MarchDays(6) == 184 && MarchDays(7) == 214
    ensures MarchDays(8) == 245 && MarchDays(9) == 275 && MarchDays(10) == 306 && MarchDays(11) == 337
  {
    hide MarchDays;
    MarchDay(0, 0);
    MarchDay(1, 31);
    MarchDay(2, 61);
    MarchDay(3, 92);
    MarchDay(4, 122);
    MarchDay(5, 153);
    MarchDay(6, 184);
    MarchDay(7, 214);
    MarchDay(8, 245);
    MarchDay(9, 275);
    MarchDay(10, 306);
    MarchDay(11, 337);
  }

  lemma MarchDay(mAdj: nat, q: nat)
    requires mAdj < 12 && 5 * q <= 153 * mAdj + 2 < 5 * q + 5
    ensures MarchDays(mAdj) == q
  {
    SmallUnsigned(153 * mAdj + 2);
  }

  /** The month formula counts the days since 1 March. */
  lemma MonthFormula(y: nat, m: nat)
    requires 1 <= m <= 12
    ensures m > 2 ==> MarchDays(m - 3) == DaysBeforeMonth(y, m) - 59 - (if LeapYear(y) then 1 else 0)
    ensures m <= 2 ==> MarchDays(m + 9) == DaysBeforeMonth(y, m) + 306
  {
    hide MarchDays;
    MarchTable();
    assert DaysBeforeMonth(y, 2) == 31;
    assert DaysBeforeMonth(y, 3) == 59 + (if LeapYear(y) then 1 else 0);
    assert DaysBeforeMonth(y, 5) == DaysBeforeMonth(y, 3) + 61;
    assert DaysBeforeMonth(y, 7) == DaysBeforeMonth(y, 5) + 61;
    assert DaysBeforeMonth(y, 9) == DaysBeforeMonth(y, 7) + 62;
    assert DaysBeforeMonth(y, 11) == DaysBeforeMonth(y, 9) + 61;
    assert DaysBeforeMonth(y, 12) == DaysBeforeMonth(y, 11) + 30;
  }

  lemma EpochNumber()
    ensures ValidDate(EPOCH) && DayNumber(EPOCH) == 719528
  {
    DaysToMarch(1970);
    assert DaysBeforeMonth(1970, 1) == 0;
  }

  /** The code without its truncations, where none of them bites before the last. */
  lemma CodeValue(year: int, m: word, d: word)
    requires 1 <= m <= 12 && 1 <= d <= 31 && (year > 0 || (year == 0 && m > 2))
    ensures var y := if m <= 2 then year - 1 else year;
            var mAdj := if m > 2 then m - 3 else m + 9;
            DaysFromCivil(year, m, d) == ToLong(365 * y + LeapDays(y) + MarchDays(mAdj) + d - 1 - 719468)
  {
    hide *;
    var y := if m <= 2 then year - 1 else year;
    var mAdj := if m > 2 then m - 3 else m + 9;
    DayOfYear(mAdj, d);
    DayOfEra(y, MarchDays(mAdj) + d - 1);
    CodeUnfolds(year, m, d);
  }

  lemma DayOfYear(mAdj: nat, d: nat)
    requires mAdj < 12 && 1 <= d <= 31
    ensures 0 <= MarchDays(mAdj) + d - 1 <= 367
  {
  }

  lemma DayOfEra(y: nat, doy: nat)
    requires doy <= 367
    ensures TruncDiv(y, 400) == y / 400 && Unsigned(y - y / 400 * 400) == y % 400 && Unsigned(doy) == doy
    ensures var doe := y % 400 * 365 + y % 400 / 4 - y % 400 / 100 + doy;
            Unsigned(doe) == doe && ToLong(doe) == doe && y / 400 * 146097 + doe == 365 * y + LeapDays(y) + doy
  {
    hide LeapDays, ToLong, Unsigned;
    EraSplit(y);
    SmallUnsigned(y % 400);
    SmallUnsigned(doy);
    SmallUnsigned(y % 400 * 365 + y % 400 / 4 - y % 400 / 100 + doy);
    assert y - y / 400 * 400 == y % 400;
  }

  lemma CodeUnfolds(year: int, m: word, d: word)
    ensures var y := year - (if m <= 2 then 1 else 0);
            var era, mAdj := TruncDiv(y, 400), if m > 2 then m - 3 else m + 9;
            var yoe, doy := Unsigned(y - era * 400), Unsigned(MarchDays(mAdj) + d - 1);
            DaysFromCivil(year, m, d)
              == ToLong(era * 146097 + ToLong(Unsigned(yoe * 365 + yoe / 4 - yoe / 100 + doy)) - 719468)
  {
    hide ToLong, Unsigned, TruncDiv;
  }

  lemma SmallUnsigned(x: int)
    requires 0 <= x < 0x8000_0000
    ensures Unsigned(x) == x && ToLong(x) == x
  {
  }

  /** From year 1 on, and in year 0 from March on, the formula is the day count, cut to a 32-bit long. */
  lemma CivilTruncated(t: Date)
    requires ValidDate(t) && (t.y > 0 || t.m > 2)
    ensures DaysFromCivil(t.y, t.m, t.d) == ToLong(CivilDays(t))
  {
    hide DaysBeforeYear, DaysBeforeMonth, LeapDays, LeapYear, DaysFromCivil, ToLong;
    CodeValue(t.y, t.m, t.d);
    EpochNumber();
    MonthFormula(t.y, t.m);
    if t.m <= 2 {
      DaysToMarch(t.y - 1);
      YearStep(t.y);
    } else {
      DaysToMarch(t.y);
    }
  }

  lemma YearStep(y: nat)
    requires y > 0
    ensures DaysBeforeYear(y) == DaysBeforeYear(y - 1) + 365 + (if LeapYear(y - 1) then 1 else 0)
  {
  }

  lemma CivilLowest(t: Date)
    requires ValidDate(t)
    ensures CivilDays(t) >= -719528
  {
    hide DaysBeforeYear, DaysBeforeMonth;
    EpochNumber();
  }

  lemma YearZeroStart(m: word, d: word)
    requires 1 <= m <= 2 && 1 <= d <= 31
    ensures DaysFromCivil(0, m, d) > 0
  {
    assert TruncDiv(-1, 400) == 0;
    assert Unsigned(-1) == 0xFFFF_FFFF;
    assert MarchDays(m + 9) + d - 1 <= 367;
    var doy := MarchDays(m + 9) + d - 1;
    QuotientUnique(0xFFFF_FFFF * 365 + 0xFFFF_FFFF / 4 - 0xFFFF_FFFF / 100 + doy, WORD_BASE, 365, 1030791786 + doy);
  }

  lemma CivilInYearZero(t: Date)
    requires ValidDate(t) && t.y == 0 && t.m <= 2
    ensures CivilDays(t) < 0
  {
  }

  // ---- the order of dates ----

  function NextDay(t: Date): (r: Date)
    requires ValidDate(t)
    ensures ValidDate(r)
  {
    if t.d < MonthLength(t.y, t.m) then Date(t.y, t.m, t.d + 1)
    else if t.m < 12 then Date(t.y, t.m + 1, 1)
    else Date(t.y + 1, 1, 1)
  }

  /** A calendar day is one count. */
  lemma NextDayCounts(t: Date)
    requires ValidDate(t)
    ensures CivilDays(NextDay(t)) == CivilDays(t) + 1
  {
    MonthsFillYear(t.y);
    EpochNumber();
    hide LeapYear;
  }

  lemma MonthsFillYear(y: nat)
    ensures DaysBeforeMonth(y, 12) + 31 == YearLength(y)
  {
    MonthFormula(y, 12);
  }

  predicate Earlier(a: Date, b: Date)
  {
    a.y < b.y || (a.y == b.y && (a.m < b.m || (a.m == b.m && a.d < b.d)))
  }

  lemma {:induction false} MonthsGrow(y: nat, m: nat, n: nat)
    requires 1 <= m < n <= 12
    ensures DaysBeforeMonth(y, m) + MonthLength(y, m) <= DaysBeforeMonth(y, n)
    decreases n
  {
    if m < n - 1 {
      MonthsGrow(y, m, n - 1);
    }
  }

  lemma {:induction false} YearsGrow(y: nat, z: nat)
    requires y < z
    ensures DaysBeforeYear(y) + YearLength(y) <= DaysBeforeYear(z)
    decreases z
  {
    if y < z - 1 {
      YearsGrow(y, z - 1);
    }
  }

  lemma WithinYear(t: Date)
    requires ValidDate(t)
    ensures DayNumber(t) < DaysBeforeYear(t.y) + YearLength(t.y)
  {
    hide LeapYear, DaysBeforeMonth, DaysBeforeYear;
    MonthsFillYear(t.y);
    if t.m < 12 {
      MonthsGrow(t.y, t.m, 12);
    }
  }

  /** Later dates have larger counts; so different dates have different counts. */
  lemma CivilMonotone(a: Date, b: Date)
    requires ValidDate(a) && ValidDate(b) && Earlier(a, b)
    ensures CivilDays(a) < CivilDays(b)
  {
    hide DaysBeforeMonth, DaysBeforeYear;
    EpochNumber();
    if a.y < b.y {
      WithinYear(a);
      YearsGrow(a.y, b.y);
    } else if a.m < b.m {
      MonthsGrow(a.y, a.m, b.m);
    }
  }

  // ---- the code, exactly ----

  /** 11 July 5881580: day 2^31 - 1. */
  const LAST_DAY: Date := Date(5881580, 7, 11)

  lemma LastDay()
    ensures ValidDate(LAST_DAY) && CivilDays(LAST_DAY) == 0x7FFF_FFFF
  {
    hide DaysBeforeYear;
    EpochNumber();
    DaysToMarch(5881580);
    MonthFormula(5881580, 7);
  }

  /** The dates for which the formula is right: not in January or February of year 0, nor after the last day. */
  predicate Exact(t: Date) { (t.y > 0 || t.m > 2) && !Earlier(LAST_DAY, t) }

  /**
   * The comment on `days_from_civil` admits every year from 0 on. The count is right exactly
   * when the date is not in January or February of year 0, where C's division towards zero
   * picks the wrong era, and not after the last day that a 32-bit long can number.
   */
  lemma CivilExactly(t: Date)
    requires ValidDate(t)
    ensures DaysFromCivil(t.y, t.m, t.d) == CivilDays(t) <==> Exact(t)
  {
    hide DaysFromCivil, CivilDays, Earlier;
    CivilLowest(t);
    LastDay();
    DatesTotal(LAST_DAY, t);
    if Earlier(LAST_DAY, t) {
      CivilMonotone(LAST_DAY, t);
    } else if Earlier(t, LAST_DAY) {
      CivilMonotone(t, LAST_DAY);
    }
    if t.y > 0 || t.m > 2 {
      CivilTruncated(t);
    } else {
      YearZeroStart(t.m, t.d);
      CivilInYearZero(t);
    }
  }

  lemma DatesTotal(a: Date, b: Date)
    ensures Earlier(a, b) || Earlier(b, a) || a == b
  {
  }

  /** On those dates the code rises by one per calendar day, over month and year ends and leap days. */
  lemma CodeNextDay(t: Date)
    requires ValidDate(t) && Exact(t) && t != LAST_DAY
    ensures var u := NextDay(t);
            Exact(u) && DaysFromCivil(u.y, u.m, u.d) == DaysFromCivil(t.y, t.m, t.d) + 1
  {
    hide DaysFromCivil, CivilDays;
    var u := NextDay(t);
    NextDayCounts(t);
    LastDay();
    DatesTotal(LAST_DAY, t);
    CivilMonotone(t, LAST_DAY);
    if Earlier(LAST_DAY, u) {
      CivilMonotone(LAST_DAY, u);
    }
    CivilExactly(t);
    CivilExactly(u);
  }

  /** And later dates have larger results; so the code is injective on them. */
  lemma CodeMonotone(a: Date, b: Date)
    requires ValidDate(a) && ValidDate(b) && Exact(a) && Exact(b) && Earlier(a, b)
    ensures DaysFromCivil(a.y, a.m, a.d) < DaysFromCivil(b.y, b.m, b.d)
  {
    hide DaysFromCivil, CivilDays;
    CivilMonotone(a, b);
    CivilExactly(a);
    CivilExactly(b);
  }

  // ---- mktime and epoch_now ----

  /** `struct tm`: years since 1900, months from 0. */
  datatype Tm = Tm(year: int, mon: int, mday: int, hour: int, min: int, sec: int)

  predicate ValidTm(t: Tm)
  {
    && t.year + 1900 >= 1 && 0 <= t.mon && 0 <= t.mday && ValidDate(DateOf(t))
    && 0 <= t.hour < 24 && 0 <= t.min < 60 && 0 <= t.sec < 60
  }

  lemma ValidTmExactly(t: Tm)
    ensures ValidTm(t) <==>
            && t.year >= -1899 && 0 <= t.mon <= 11 && 1 <= t.mday <= MonthLength(t.year + 1900, t.mon + 1)
            && 0 <= t.hour <= 23 && 0 <= t.min <= 59 && 0 <= t.sec <= 59
  {
    hide LeapYear;
  }

  function DateOf(t: Tm): Date
    requires t.year + 1900 >= 1 && 0 <= t.mon && 0 <= t.mday
  {
    Date(t.year + 1900, t.mon + 1, t.mday)
  }

  function SecondOfDay(t: Tm): int { t.hour * 3600 + t.min * 60 + t.sec }

  /** Seconds since the start of 1970. */
  function EpochSeconds(t: Tm): int
    requires ValidTm(t)
  {
    CivilDays(DateOf(t)) * 86400 + SecondOfDay(t)
  }

  datatype Pointer<T> = Null | Ref(value: T)

  function Mktime(p: Pointer<Tm>): int
  {
    match p
    case Null => -1
    case Ref(t) =>
      var days := DaysFromCivil(t.year + 1900, Unsigned(t.mon + 1), Unsigned(t.mday));
      ToLong(days * 86400 + ToLong(SecondOfDay(t)))
  }

  lemma MktimeNull()
    ensures Mktime(Null) == -1
  {
  }

  /** The DOS clock: year (low byte first), month, day, hour, minute, second. */
  function EpochNow(raw: seq<byte>): int
    requires |raw| == 7
  {
    var days := DaysFromCivil(raw[0] as int + 256 * raw[1] as int, raw[2], raw[3]);
    ToLong(days * 86400 + (raw[4] as int * 3600 + raw[5] as int * 60 + raw[6] as int))
  }

  lemma ToLongAbsorbs(x: int, k: int, c: int)
    ensures ToLong(ToLong(x) * k + c) == ToLong(x * k + c)
  {
    var j := (ToLong(x) - x) / WORD_BASE;
    assert ToLong(x) == x + WORD_BASE * j;
    assert (x + WORD_BASE * j) * k == x * k + WORD_BASE * (j * k) by {
      assert (WORD_BASE * j) * k == WORD_BASE * (j * k);
    }
    ToLongShift(x * k + c, j * k);
  }

  lemma ToLongShift(x: int, n: int)
    ensures ToLong(x + WORD_BASE * n) == ToLong(x)
  {
  }

  /** `mktime` is the count of seconds, cut to a 32-bit long. */
  lemma MktimeTruncated(t: Tm)
    requires ValidTm(t)
    ensures Mktime(Ref(t)) == ToLong(EpochSeconds(t))
  {
    hide ToLong, DaysFromCivil, CivilDays;
    SmallUnsigned(t.mon + 1);
    SmallUnsigned(t.mday);
    SmallUnsigned(SecondOfDay(t));
    CivilTruncated(DateOf(t));
    ToLongAbsorbs(CivilDays(DateOf(t)), 86400, SecondOfDay(t));
  }

  predicate EarlierTm(a: Tm, b: Tm)
  {
    a.year < b.year ||
    (a.year == b.year &&
     (a.mon < b.mon ||
      (a.mon == b.mon && (a.mday < b.mday || (a.mday == b.mday && SecondOfDay(a) < SecondOfDay(b))))))
  }

  lemma SecondsMonotone(a: Tm, b: Tm)
    requires ValidTm(a) && ValidTm(b) && EarlierTm(a, b)
    ensures EpochSeconds(a) < EpochSeconds(b)
  {
    hide CivilDays;
    if Earlier(DateOf(a), DateOf(b)) {
      CivilMonotone(DateOf(a), DateOf(b));
    }
  }

  /** So moments are ordered as their second counts. */
  lemma SecondsOrdered(a: Tm, b: Tm)
    requires ValidTm(a) && ValidTm(b)
    ensures EarlierTm(a, b) <==> EpochSeconds(a) < EpochSeconds(b)
  {
    hide EpochSeconds;
    if EarlierTm(a, b) {
      SecondsMonotone(a, b);
    } else if EarlierTm(b, a) {
      SecondsMonotone(b, a);
    } else {
      SameSeconds(a, b);
    }
  }

  lemma SameSeconds(a: Tm, b: Tm)
    requires ValidTm(a) && ValidTm(b) && DateOf(a) == DateOf(b) && SecondOfDay(a) == SecondOfDay(b)
    ensures EpochSeconds(a) == EpochSeconds(b)
  {
  }

  /** 1901-12-13 20:45:52 and 2038-01-19 03:14:07. */
  const FIRST_LONG: Tm := Tm(1, 11, 13, 20, 45, 52)
  const LAST_LONG: Tm := Tm(138, 0, 19, 3, 14, 7)

  lemma FirstLong()
    ensures ValidTm(FIRST_LONG) && EpochSeconds(FIRST_LONG) == -0x8000_0000
  {
    hide DaysFromCivil, DaysBeforeYear, DaysBeforeMonth;
    EpochNumber();
    DaysToMarch(1901);
    MonthsFillYear(1901);
  }

  lemma LastLong()
    ensures ValidTm(LAST_LONG) && EpochSeconds(LAST_LONG) == 0x7FFF_FFFF
  {
    hide DaysFromCivil, DaysBeforeYear, DaysBeforeMonth;
    EpochNumber();
    DaysToMarch(2038);
    FirstMonth(2038);
  }

  lemma FirstMonth(y: int)
    ensures DaysBeforeMonth(y, 1) == 0
  {
  }

  /** The moments that a 32-bit long can number. */
  predicate InLong(t: Tm) { !EarlierTm(t, FIRST_LONG) && !EarlierTm(LAST_LONG, t) }

  /** Of all valid date-times from year 1 on, the result is right exactly for those. */
  lemma MktimeExactly(t: Tm)
    requires ValidTm(t)
    ensures Mktime(Ref(t)) == EpochSeconds(t) <==> InLong(t)
  {
    hide Mktime, EpochSeconds, ToLong, EarlierTm, ValidTm;
    FirstLong();
    LastLong();
    MktimeTruncated(t);
    SecondsOrdered(t, FIRST_LONG);
    SecondsOrdered(LAST_LONG, t);
  }

  /** And on them the results are ordered as the date-times are. */
  lemma MktimeMonotone(a: Tm, b: Tm)
    requires ValidTm(a) && ValidTm(b) && InLong(a) && InLong(b)
    ensures EarlierTm(a, b) <==> Mktime(Ref(a)) < Mktime(Ref(b))
  {
    hide Mktime, EpochSeconds, EarlierTm;
    MktimeExactly(a);
    MktimeExactly(b);
    SecondsOrdered(a, b);
  }

  /** `epoch_now` agrees with `mktime` on the same clock reading. */
  lemma EpochNowIsMktime(raw: seq<byte>)
    requires |raw| == 7
    ensures var year := raw[0] as int + 256 * raw[1] as int;
            EpochNow(raw) == Mktime(Ref(Tm(year - 1900, raw[2] as int - 1, raw[3], raw[4], raw[5], raw[6])))
  {
    hide DaysFromCivil, ToLong;
    SmallUnsigned(raw[2]);
    SmallUnsigned(raw[3]);
    SmallUnsigned(raw[4] as int * 3600 + raw[5] as int * 60 + raw[6] as int);
  }
}
