/** Julian day numbers, Unix times and date modifiers (src/planner/datetime.rs). */
module Calendar {

  /** Division and remainder that truncate toward zero, as the source's operators do. */
  function Quot(a: int, b: int): int
    requires b > 0
  {
    if a >= 0 then a / b else -((-a) / b)
  }

  function Rem(a: int, b: int): int
    requires b > 0
  {
    a - b * Quot(a, b)
  }

  /** Narrowing casts keep the low bits. */
  function AsU8(x: int): int { x % 256 }

  function AsI32(x: int): int {
    var r := x % 0x1_0000_0000;
    if r < 0x8000_0000 then r else r - 0x1_0000_0000
  }

  function YmdToJulian(y: int, m: int, d: int): int {
    var a := Quot(14 - m, 12);
    var yr := y + 4800 - a;
    var mo := m + 12 * a - 3;
    d + Quot(153 * mo + 2, 5) + 365 * yr + Quot(yr, 4) - Quot(yr, 100) + Quot(yr, 400) - 32045
  }

  function JulianToYmd(jd: int): (int, int, int) {
    var a := jd + 32044;
    var b := Quot(4 * a + 3, 146097);
    var c := a - Quot(146097 * b, 4);
    var d := Quot(4 * c + 3, 1461);
    var e := c - Quot(1461 * d, 4);
    var m := Quot(5 * e + 2, 153);
    var day := AsU8(e - Quot(153 * m + 2, 5) + 1);
    var month := AsU8(m + 3 - 12 * Quot(m, 10));
    var year := AsI32(100 * b + d - 4800 + Quot(m, 10));
    (year, month, day)
  }

  // ------------------------------------------------------------------
  // The proleptic Gregorian calendar, independently.
  // ------------------------------------------------------------------

  predicate Leap(y: int) { y % 4 == 0 && (y % 100 != 0 || y % 400 == 0) }

  function DaysIn(y: int, m: int): int
    requires 1 <= m <= 12
  {
    if m == 2 then (if Leap(y) then 29 else 28)
    else if m in {4, 6, 9, 11} then 30
    else 31
  }

  predicate ValidDate(y: int, m: int, d: int) {
    1 <= m <= 12 && 1 <= d <= DaysIn(y, m)
  }

  function NextDay(y: int, m: int, d: int): (int, int, int)
    requires ValidDate(y, m, d)
  {
    if d < DaysIn(y, m) then (y, m, d + 1)
    else if m < 12 then (y, m + 1, 1)
    else (y + 1, 1, 1)
  }

  /** The first day the formulas cover, 1 March 4801 BC, and the last whose year is an i32. */
  const FIRST_DAY: int := -32044
  const LAST_DAY: int := 784354017364

  // ------------------------------------------------------------------
  // The count of days in centuries, years and months.
  // ------------------------------------------------------------------

  /** A year count from March split into centuries and years of the century. */
  lemma {:induction false} YearDays(b: int, d: int)
    requires 0 <= b && 0 <= d < 100
    ensures var yr := 100 * b + d;
      365 * yr + yr / 4 - yr / 100 + yr / 400 == 36524 * b + b / 4 + 365 * d + d / 4
  {
    var yr := 100 * b + d;
    assert yr / 100 == b;
    assert yr / 400 == b / 4;
    assert yr / 4 == 25 * b + d / 4;
  }

  lemma {:induction false} CenturyStep(a: int)
    requires a >= 0
    ensures var b := (4 * a + 3) / 146097;
      var c := a - (146097 * b) / 4;
      && b >= 0 && (146097 * b) / 4 == 36524 * b + b / 4
      && 0 <= c <= 36523 + (if b % 4 == 3 then 1 else 0)
  {
  }

  lemma {:induction false} YearStep(c: int)
    requires 0 <= c <= 36524
    ensures var d := (4 * c + 3) / 1461;
      var e := c - (1461 * d) / 4;
      && 0 <= d < 100 && (1461 * d) / 4 == 365 * d + d / 4
      && 0 <= e <= 364 + (if d % 4 == 3 then 1 else 0)
  {
  }

  lemma {:induction false} MonthStep(e: int)
    requires 0 <= e <= 365
    ensures var m := (5 * e + 2) / 153;
      && 0 <= m <= 11 && 1 <= e - (153 * m + 2) / 5 + 1 <= MarchLength(m)
      && (m == 11 ==> e - (153 * m + 2) / 5 + 1 == e - 336)
  {
  }

  /** The length of the month numbered from March = 0, with a February of 29. */
  function MarchLength(m: int): int
    requires 0 <= m <= 11
  {
    if m == 11 then 29 else if m in {1, 3, 6, 8} then 30 else 31
  }

  /** The century, year, day of the year and month that `JulianToYmd` finds. */
  lemma {:induction false} Parts(jd: int) returns (b: int, d: int, e: int, m: int)
    requires FIRST_DAY <= jd
    ensures InYear(b, d, e) && 0 <= m <= 11
    ensures jd + 32044 == 36524 * b + b / 4 + 365 * d + d / 4 + e
    ensures 1 <= e - (153 * m + 2) / 5 + 1 <= MarchLength(m)
    ensures JulianToYmd(jd) ==
      (AsI32(100 * b + d - 4800 + (if m >= 10 then 1 else 0)), MonthOf(m), e - (153 * m + 2) / 5 + 1)
  {
    hide AsI32, JulianToYmd;
    var a := jd + 32044;
    b := (4 * a + 3) / 146097;
    CenturyStep(a);
    var c := a - (146097 * b) / 4;
    d := (4 * c + 3) / 1461;
    YearStep(c);
    e := c - (1461 * d) / 4;
    m := (5 * e + 2) / 153;
    MonthStep(e);
    Computes(jd, b, c, d, e, m);
  }

  lemma {:induction false} Computes(jd: int, b: int, c: int, d: int, e: int, m: int)
    requires jd + 32044 >= 0 && b >= 0 && c >= 0 && d >= 0 && e >= 0 && 0 <= m <= 11
    requires b == (4 * (jd + 32044) + 3) / 146097 && c == jd + 32044 - (146097 * b) / 4
    requires d == (4 * c + 3) / 1461 && e == c - (1461 * d) / 4 && m == (5 * e + 2) / 153
    requires 1 <= e - (153 * m + 2) / 5 + 1 <= 31
    ensures JulianToYmd(jd) ==
      (AsI32(100 * b + d - 4800 + (if m >= 10 then 1 else 0)), MonthOf(m), e - (153 * m + 2) / 5 + 1)
  {
    hide AsI32, Quot, AsU8;
    Ups(jd + 32044, b, c, d, e, m);
  }

  /** On the numbers that occur, division is not negative and the casts keep the number. */
  lemma {:induction false} Ups(a: int, b: int, c: int, d: int, e: int, m: int)
    requires a >= 0 && b >= 0 && c >= 0 && d >= 0 && e >= 0 && 0 <= m <= 11
    ensures Quot(4 * a + 3, 146097) == (4 * a + 3) / 146097 && Quot(146097 * b, 4) == (146097 * b) / 4
    ensures Quot(4 * c + 3, 1461) == (4 * c + 3) / 1461 && Quot(1461 * d, 4) == (1461 * d) / 4
    ensures Quot(5 * e + 2, 153) == (5 * e + 2) / 153 && Quot(153 * m + 2, 5) == (153 * m + 2) / 5
    ensures Quot(m, 10) == if m >= 10 then 1 else 0
    ensures forall x :: 1 <= x <= 31 ==> AsU8(x) == x
  {
  }

  /** `e` is a day number of the year `d` of the century `b`, all counted from March. */
  predicate InYear(b: int, d: int, e: int) {
    && 0 <= b && 0 <= d < 100 && 0 <= e <= 364 + (if d % 4 == 3 then 1 else 0)
    && 365 * d + d / 4 + e <= 36523 + (if b % 4 == 3 then 1 else 0)
  }

  function MonthOf(m: int): int { if m >= 10 then m - 9 else m + 3 }

  /** Day number to date and back, and the date is a valid one. */
  lemma {:induction false} FromJulian(jd: int)
    requires FIRST_DAY <= jd <= LAST_DAY
    ensures var (y, m, d) := JulianToYmd(jd);
      ValidDate(y, m, d) && YmdToJulian(y, m, d) == jd
  {
    hide JulianToYmd, YmdToJulian, Leap;
    var b, d, e, m := Parts(jd);
    var late := if m >= 10 then 1 else 0;
    var yr, day := 100 * b + d, e - (153 * m + 2) / 5 + 1;
    YearFits(jd + 32044, b, d, e, late);
    InRange(yr - 4800 + late);
    LastOfFebruary(b, d, e);
    MonthsMatch(yr - 4800 + late, m, day, e);
    Assembled(yr, m, late, day);
    YearDays(b, d);
  }

  lemma {:induction false} InRange(x: int)
    requires -0x8000_0000 <= x < 0x8000_0000
    ensures AsI32(x) == x
  {
  }

  lemma {:induction false} MonthsMatch(y: int, m: int, day: int, e: int)
    requires 0 <= m <= 11 && 1 <= day <= MarchLength(m) && day == e - (153 * m + 2) / 5 + 1
    requires e <= 365 && (e == 365 ==> Leap(y))
    ensures ValidDate(y, MonthOf(m), day)
  {
  }

  lemma {:induction false} YearFits(a: int, b: int, d: int, e: int, late: int)
    requires 0 <= a <= LAST_DAY + 32044 && InYear(b, d, e)
    requires a == 36524 * b + b / 4 + 365 * d + d / 4 + e
    requires 0 <= late <= 1 && (late == 1 ==> e >= 306)
    ensures -4800 <= 100 * b + d - 4800 + late < 0x8000_0000
  {
  }

  /** The 366th day of a year counted from March is the 29 February of a leap year. */
  lemma {:induction false} LastOfFebruary(b: int, d: int, e: int)
    requires InYear(b, d, e)
    ensures e == 365 ==> Leap(100 * b + d - 4799)
  {
    hide Leap;
    if e == 365 {
      LeapByShift(100 * b + d + 1);
      if d == 99 {
        FourCenturies(b);
      } else {
        WithinCentury(b, d);
      }
    }
  }

  lemma {:induction false} FourCenturies(b: int)
    requires b % 4 == 3
    ensures (100 * b + 100) % 400 == 0 && (100 * b + 100) % 4 == 0
  {
    var q := b / 4 + 1;
    assert b == 4 * q - 1;
    FourHundreds(q);
  }

  lemma {:induction false} FourHundreds(q: int)
    ensures (400 * q) % 400 == 0 && (400 * q) % 4 == 0
  {
    assert 400 * q == 4 * (100 * q);
  }

  lemma {:induction false} WithinCentury(b: int, d: int)
    requires 0 <= d < 99 && d % 4 == 3
    ensures (100 * b + d + 1) % 4 == 0 && (100 * b + d + 1) % 100 != 0
  {
    assert (100 * b + d + 1) % 100 == d + 1;
  }

  lemma {:induction false} Assembled(yr: int, m: int, late: int, day: int)
    requires yr >= 0 && 0 <= m <= 11 && late == (if m >= 10 then 1 else 0)
    ensures YmdToJulian(yr - 4800 + late, m + 3 - 12 * late, day) ==
      day + (153 * m + 2) / 5 + 365 * yr + yr / 4 - yr / 100 + yr / 400 - 32045
  {
  }

  // ------------------------------------------------------------------
  // Dates to day numbers and back.
  // ------------------------------------------------------------------

  lemma {:induction false} UniqueCentury(b: int, x: int, b': int, x': int)
    requires 0 <= b && 0 <= b' && 0 <= x <= 36523 + (if b % 4 == 3 then 1 else 0) && 0 <= x'
    requires x' <= 36523 + (if b' % 4 == 3 then 1 else 0)
    requires 36524 * b + b / 4 + x == 36524 * b' + b' / 4 + x'
    ensures b == b' && x == x'
  {
  }

  lemma {:induction false} UniqueYear(d: int, e: int, d': int, e': int)
    requires 0 <= d && 0 <= d' && 0 <= e <= 364 + (if d % 4 == 3 then 1 else 0) && 0 <= e'
    requires e' <= 364 + (if d' % 4 == 3 then 1 else 0)
    requires 365 * d + d / 4 + e == 365 * d' + d' / 4 + e'
    ensures d == d' && e == e'
  {
  }

  lemma {:induction false} UniqueMonth(m: int, m': int, e: int)
    requires 0 <= m <= 11 && 0 <= m' <= 11
    requires 1 <= e - (153 * m + 2) / 5 + 1 <= MarchLength(m) && 1 <= e - (153 * m' + 2) / 5 + 1 <= MarchLength(m')
    ensures m == m'
  {
  }

  /** The place in the year, counted from March, of a valid date. */
  lemma {:induction false} PlaceOf(y: int, m: int, day: int) returns (b: int, d: int, e: int, mo: int)
    requires ValidDate(y, m, day) && y + 4800 - (if m <= 2 then 1 else 0) >= 0
    ensures InYear(b, d, e) && 0 <= mo <= 11 && MonthOf(mo) == m && e == day - 1 + (153 * mo + 2) / 5
    ensures 1 <= e - (153 * mo + 2) / 5 + 1 <= MarchLength(mo)
    ensures y == 100 * b + d - 4800 + (if mo >= 10 then 1 else 0)
  {
    var late := if m <= 2 then 1 else 0;
    mo := if m <= 2 then m + 9 else m - 3;
    var yr := y + 4800 - late;
    b, d := yr / 100, yr % 100;
    e := day - 1 + (153 * mo + 2) / 5;
    assert e <= 365 && (e == 365 ==> m == 2 && Leap(y));
    if e == 365 {
      LeapPlace(b, d, y);
    }
    assert yr == 100 * b + d;
  }

  lemma {:induction false} LeapPlace(b: int, d: int, y: int)
    requires Leap(y) && 0 <= b && 0 <= d < 100 && y == 100 * b + d - 4799
    ensures d % 4 == 3 && (d == 99 ==> b % 4 == 3)
  {
    if d == 99 {
      assert y == 100 * (b + 1 - 48);
    } else {
      assert y % 4 == (d + 1) % 4;
    }
  }

  /** A date from 1 March 4801 BC on whose year is an i32. */
  predicate Covered(y: int, m: int) { (y > -4800 || (y == -4800 && m >= 3)) && y < 0x8000_0000 }

  /** Date to day number and back. */
  lemma {:induction false} ToJulian(y: int, m: int, day: int)
    requires ValidDate(y, m, day) && Covered(y, m)
    ensures FIRST_DAY <= YmdToJulian(y, m, day) <= LAST_DAY
    ensures JulianToYmd(YmdToJulian(y, m, day)) == (y, m, day)
  {
    hide JulianToYmd, YmdToJulian, Leap, ValidDate, AsI32;
    var b, d, e, mo := PlaceOf(y, m, day);
    var late := if mo >= 10 then 1 else 0;
    Assembled(100 * b + d, mo, late, day);
    YearDays(b, d);
    var jd := YmdToJulian(y, m, day);
    assert jd + 32044 == 36524 * b + b / 4 + 365 * d + d / 4 + e;
    LastFits(b, d, e, mo, day);
    var b', d', e', mo' := Parts(jd);
    UniqueCentury(b, 365 * d + d / 4 + e, b', 365 * d' + d' / 4 + e');
    UniqueYear(d, e, d', e');
    UniqueMonth(mo, mo', e);
    InRange(y);
  }

  lemma {:induction false} LastFits(b: int, d: int, e: int, mo: int, day: int)
    requires InYear(b, d, e) && 0 <= mo <= 11 && e == day - 1 + (153 * mo + 2) / 5 && day <= MarchLength(mo)
    requires 100 * b + d - 4800 + (if mo >= 10 then 1 else 0) < 0x8000_0000
    ensures 36524 * b + b / 4 + 365 * d + d / 4 + e <= LAST_DAY + 32044
  {
    assert mo < 10 ==> e <= 305;
  }

  /** Consecutive dates have consecutive day numbers. */
  lemma {:induction false} NextIsNext(y: int, m: int, day: int)
    requires ValidDate(y, m, day) && y + 4800 - (if m <= 2 then 1 else 0) >= 0
    ensures var (y', m', day') := NextDay(y, m, day);
      YmdToJulian(y', m', day') == YmdToJulian(y, m, day) + 1
  {
    hide Leap, YmdToJulian;
    var late := if m <= 2 then 1 else 0;
    var mo := if m <= 2 then m + 9 else m - 3;
    Assembled(y + 4800 - late, mo, late, day);
    if day < DaysIn(y, m) {
      Assembled(y + 4800 - late, mo, late, day + 1);
    } else {
      MonthEnds(y, m, day);
    }
  }

  /** From the last day of a month to the first of the next. */
  lemma {:induction false} MonthEnds(y: int, m: int, day: int)
    requires 1 <= m <= 12 && day == DaysIn(y, m) && y + 4800 - (if m <= 2 then 1 else 0) >= 0
    ensures YmdToJulian(if m == 12 then y + 1 else y, if m == 12 then 1 else m + 1, 1) == YmdToJulian(y, m, day) + 1
  {
    hide Leap, YmdToJulian;
    var late := if m <= 2 then 1 else 0;
    var mo := if m <= 2 then m + 9 else m - 3;
    Assembled(y + 4800 - late, mo, late, day);
    if m == 2 {
      Assembled(y + 4800, 0, 0, 1);
      MarchYear(y + 4799, day);
    } else {
      MonthLater(y, m, mo);
      Assembled(y + 4800 - late, mo + 1, if m == 12 || m == 1 then 1 else 0, 1);
    }
  }

  /** The day count of the months from March, one month on. */
  lemma {:induction false} MonthLater(y: int, m: int, mo: int)
    requires 1 <= m <= 12 && m != 2 && mo == (if m <= 2 then m + 9 else m - 3)
    ensures (153 * (mo + 1) + 2) / 5 == (153 * mo + 2) / 5 + DaysIn(y, m)
  {
    hide Leap;
    if mo == 0 { assert (153 * 1 + 2) / 5 == 31; }
    else if mo == 1 { assert (153 * 2 + 2) / 5 == 61; }
  }

  /** A year counted from March has 366 days exactly when it ends in a leap February. */
  lemma {:induction false} MarchYear(yr: int, day: int)
    requires yr >= 0 && day == (if Leap(yr - 4799) then 29 else 28)
    ensures 365 * (yr + 1) + (yr + 1) / 4 - (yr + 1) / 100 + (yr + 1) / 400 + 1 ==
      365 * yr + yr / 4 - yr / 100 + yr / 400 + 337 + day + 1
  {
    hide Leap;
    LeapByShift(yr + 1);
    FoursUp(yr);
    HundredsUp(yr);
    FourHundredsUp(yr);
    MultiplesOf(yr + 1);
  }

  lemma {:induction false} LeapByShift(n: int)
    ensures Leap(n - 4800) <==> n % 4 == 0 && (n % 100 != 0 || n % 400 == 0)
  {
    ShiftedFours(n);
    ShiftedHundreds(n);
    ShiftedFourHundreds(n);
  }

  lemma {:induction false} ShiftedFours(n: int)
    ensures (n - 4800) % 4 == n % 4
  {
  }

  lemma {:induction false} ShiftedHundreds(n: int)
    ensures (n - 4800) % 100 == n % 100
  {
  }

  lemma {:induction false} ShiftedFourHundreds(n: int)
    ensures (n - 4800) % 400 == n % 400
  {
  }

  lemma {:induction false} FoursUp(n: int)
    ensures (n + 1) / 4 == n / 4 + (if (n + 1) % 4 == 0 then 1 else 0)
  {
  }

  lemma {:induction false} HundredsUp(n: int)
    ensures (n + 1) / 100 == n / 100 + (if (n + 1) % 100 == 0 then 1 else 0)
  {
  }

  lemma {:induction false} FourHundredsUp(n: int)
    ensures (n + 1) / 400 == n / 400 + (if (n + 1) % 400 == 0 then 1 else 0)
  {
  }

  lemma {:induction false} MultiplesOf(n: int)
    ensures n % 400 == 0 ==> n % 100 == 0
    ensures n % 100 == 0 ==> n % 4 == 0
  {
  }

  // ------------------------------------------------------------------
  // Unix times and modifiers.
  // ------------------------------------------------------------------

  datatype DateTime = DateTime(year: int, month: int, day: int, hour: int, min: int, sec: int)

  const UNIX_EPOCH: int := 2440588

  predicate ValidTime(dt: DateTime) {
    && ValidDate(dt.year, dt.month, dt.day) && Covered(dt.year, dt.month)
    && 0 <= dt.hour < 24 && 0 <= dt.min < 60 && 0 <= dt.sec < 60
  }

  function FromUnix(secs: int): DateTime {
    var days := Quot(secs, 86400);
    var rem := Rem(secs, 86400);
    var (y, m, d) := JulianToYmd(days + UNIX_EPOCH);
    DateTime(y, m, d, AsU8(Quot(rem, 3600)), AsU8(Quot(Rem(rem, 3600), 60)), AsU8(Rem(rem, 60)))
  }

  function ToUnix(dt: DateTime): int {
    (YmdToJulian(dt.year, dt.month, dt.day) - UNIX_EPOCH) * 86400 + dt.hour * 3600 + dt.min * 60 + dt.sec
  }

  predicate InDays(secs: int) { FIRST_DAY <= Quot(secs, 86400) + UNIX_EPOCH <= LAST_DAY }

  /** The times the conversion handles: none before the epoch except midnights. */
  predicate Handled(secs: int) { secs >= 0 || secs % 86400 == 0 }

  /** Unix time to date and back is the identity exactly on the handled times. */
  lemma {:induction false} UnixRoundTrip(secs: int)
    requires InDays(secs)
    ensures ToUnix(FromUnix(secs)) == secs <==> Handled(secs)
    ensures Handled(secs) ==> ValidTime(FromUnix(secs))
  {
    hide JulianToYmd, YmdToJulian, Quot, Rem, AsU8, ValidDate, Handled;
    var days, rem := Quot(secs, 86400), Rem(secs, 86400);
    var jd := days + UNIX_EPOCH;
    FromJulian(jd);
    CoveredDay(jd);
    RemSign(secs);
    Clock(rem);
    var dt := FromUnix(secs);
    assert ToUnix(dt) == days * 86400 + (dt.hour * 3600 + dt.min * 60 + dt.sec);
  }

  lemma {:induction false} RemSign(secs: int)
    ensures secs == Quot(secs, 86400) * 86400 + Rem(secs, 86400)
    ensures -86400 < Rem(secs, 86400) < 86400 && (Rem(secs, 86400) >= 0 <==> Handled(secs))
  {
    if secs < 0 {
      assert Rem(secs, 86400) == -((-secs) % 86400);
      assert (-secs) % 86400 == 0 <==> secs % 86400 == 0;
    }
  }

  lemma {:induction false} WholeDays(days: int, t: int)
    requires days >= 0 && 0 <= t < 86400
    ensures Quot(days * 86400 + t, 86400) == days && Rem(days * 86400 + t, 86400) == t
  {
  }

  lemma {:induction false} CoveredDay(jd: int)
    requires FIRST_DAY <= jd <= LAST_DAY
    ensures Covered(JulianToYmd(jd).0, JulianToYmd(jd).1)
  {
    hide JulianToYmd;
    var b, d, e, m := Parts(jd);
    var late := if m >= 10 then 1 else 0;
    YearFits(jd + 32044, b, d, e, late);
    InRange(100 * b + d - 4800 + late);
  }

  /** The clock fields of a remainder: faithful exactly when it is not negative. */
  lemma {:induction false} Clock(rem: int)
    requires -86400 < rem < 86400
    ensures var h, mi, s := AsU8(Quot(rem, 3600)), AsU8(Quot(Rem(rem, 3600), 60)), AsU8(Rem(rem, 60));
      && (h * 3600 + mi * 60 + s == rem <==> rem >= 0)
      && (rem >= 0 ==> 0 <= h < 24 && 0 <= mi < 60 && 0 <= s < 60)
  {
    if rem >= 0 {
      ClockFields(rem);
    }
  }

  lemma {:induction false} DateRoundTrip(dt: DateTime)
    requires ValidTime(dt) && ToUnix(dt) >= 0
    ensures FromUnix(ToUnix(dt)) == dt
  {
    hide JulianToYmd, YmdToJulian, ValidDate, Quot, Rem, AsU8;
    ToJulian(dt.year, dt.month, dt.day);
    var jd := YmdToJulian(dt.year, dt.month, dt.day);
    var t := dt.hour * 3600 + dt.min * 60 + dt.sec;
    ClockOf(dt.hour, dt.min, dt.sec);
    assert ToUnix(dt) == (jd - UNIX_EPOCH) * 86400 + t && 0 <= t < 86400;
    assert jd - UNIX_EPOCH >= 0;
    WholeDays(jd - UNIX_EPOCH, t);
  }

  lemma {:induction false} ClockOf(h: int, mi: int, s: int)
    requires 0 <= h < 24 && 0 <= mi < 60 && 0 <= s < 60
    ensures var t := h * 3600 + mi * 60 + s;
      AsU8(Quot(t, 3600)) == h && AsU8(Quot(Rem(t, 3600), 60)) == mi && AsU8(Rem(t, 60)) == s
  {
    hide Quot, Rem, AsU8;
    ClockFields(h * 3600 + mi * 60 + s);
    Hours(h, mi * 60 + s);
    Minutes(mi, s);
    Minutes(h * 60 + mi, s);
  }

  lemma {:induction false} Hours(h: int, r: int)
    requires 0 <= r < 3600
    ensures (h * 3600 + r) / 3600 == h && (h * 3600 + r) % 3600 == r
  {
  }

  lemma {:induction false} Minutes(m: int, r: int)
    requires 0 <= r < 60
    ensures (m * 60 + r) / 60 == m && (m * 60 + r) % 60 == r
  {
  }

  datatype Modifier = AddDays(days: int) | AddMonths(months: int) | AddYears(years: int)
                    | StartOfMonth | StartOfYear | StartOfDay | Weekday(weekday: nat)

  function ApplyModifier(dt: DateTime, mod: Modifier): DateTime {
    match mod
    case AddDays(d) => FromUnix(ToUnix(dt) + d * 86400)
    case AddMonths(n) =>
      var total := dt.month - 1 + n;
      dt.(month := AsU8(total % 12 + 1), year := dt.year + total / 12)
    case AddYears(y) => dt.(year := dt.year + y)
    case StartOfMonth => dt.(day := 1, hour := 0, min := 0, sec := 0)
    case StartOfYear => dt.(month := 1, day := 1, hour := 0, min := 0, sec := 0)
    case StartOfDay => dt.(hour := 0, min := 0, sec := 0)
    case Weekday(w) =>
      var jd := YmdToJulian(dt.year, dt.month, dt.day);
      var current := Rem(jd + 1, 7);
      var diff := (w - current) % 7;
      FromUnix(ToUnix(dt) + diff * 86400)
  }

  /** Adding days composes whenever the intermediate time is one the conversion handles. */
  lemma {:induction false} DaysCompose(dt: DateTime, a: int, b: int)
    requires InDays(ToUnix(dt) + a * 86400) && Handled(ToUnix(dt) + a * 86400)
    ensures ApplyModifier(ApplyModifier(dt, AddDays(a)), AddDays(b)) == ApplyModifier(dt, AddDays(a + b))
  {
    hide FromUnix, ToUnix;
    UnixRoundTrip(ToUnix(dt) + a * 86400);
  }

  /** `r` is the first day from `dt` on that is day `w` of the week, at the same time of day. */
  predicate Lands(dt: DateTime, r: DateTime, w: nat) {
    var from, to := YmdToJulian(dt.year, dt.month, dt.day), YmdToJulian(r.year, r.month, r.day);
    && ValidTime(r) && from <= to <= from + 6 && (to + 1) % 7 == w % 7
    && (r.hour, r.min, r.sec) == (dt.hour, dt.min, dt.sec)
  }

  /** The time that `weekday w` computes before converting it back to a date. */
  function WeekdayTime(dt: DateTime, w: nat): int {
    ToUnix(dt) + (w - Rem(YmdToJulian(dt.year, dt.month, dt.day) + 1, 7)) % 7 * 86400
  }

  /** `weekday w` lands where it should if and only if the time it computes is one the conversion
      handles: from 1970 on always, before that at midnights. */
  lemma {:induction false} WeekdayLands(dt: DateTime, w: nat)
    requires ValidTime(dt) && YmdToJulian(dt.year, dt.month, dt.day) + 7 <= LAST_DAY
    ensures Lands(dt, ApplyModifier(dt, Weekday(w)), w) <==> Handled(WeekdayTime(dt, w))
    ensures ToUnix(dt) >= 0 ==> Handled(WeekdayTime(dt, w))
  {
    hide JulianToYmd, YmdToJulian, ValidDate, Quot, Rem, AsU8, FromUnix, Handled;
    var r, target := ApplyModifier(dt, Weekday(w)), WeekdayTime(dt, w);
    var jd := YmdToJulian(dt.year, dt.month, dt.day);
    var t := dt.hour * 3600 + dt.min * 60 + dt.sec;
    var diff := (w - Rem(jd + 1, 7)) % 7;
    ToJulian(dt.year, dt.month, dt.day);
    DayOfWeek(jd, w);
    assert target == (jd + diff - UNIX_EPOCH) * 86400 + t;
    DayRange(jd + diff, t);
    UnixRoundTrip(target);
    LaterHandled(ToUnix(dt), diff);
    if ToUnix(r) == target {
      SameMoment(YmdToJulian(r.year, r.month, r.day), r.hour, r.min, r.sec, jd + diff, dt.hour, dt.min, dt.sec);
    }
    if Lands(dt, r, w) {
      OneInSeven(jd, YmdToJulian(r.year, r.month, r.day) - jd, diff, w);
    }
  }

  lemma {:induction false} LaterHandled(secs: int, diff: int)
    requires 0 <= diff
    ensures secs >= 0 ==> Handled(secs + diff * 86400)
  {
  }

  lemma {:induction false} DayRange(jd: int, t: int)
    requires FIRST_DAY <= jd < LAST_DAY && 0 <= t < 86400
    ensures InDays((jd - UNIX_EPOCH) * 86400 + t)
  {
    var d := jd - UNIX_EPOCH;
    if d < 0 {
      assert -(d * 86400 + t) == -d * 86400 - t;
      assert 0 <= (-d * 86400 - t) / 86400 <= -d;
    } else {
      WholeDays(d, t);
    }
  }

  lemma {:induction false} SameMoment(a: int, h: int, m: int, s: int, b: int, h': int, m': int, s': int)
    requires 0 <= h < 24 && 0 <= m < 60 && 0 <= s < 60 && 0 <= h' < 24 && 0 <= m' < 60 && 0 <= s' < 60
    requires (a - UNIX_EPOCH) * 86400 + h * 3600 + m * 60 + s == (b - UNIX_EPOCH) * 86400 + h' * 3600 + m' * 60 + s'
    ensures a == b && h == h' && m == m' && s == s'
  {
  }

  lemma {:induction false} OneInSeven(jd: int, k: int, diff: int, w: nat)
    requires 0 <= k <= 6 && 0 <= diff <= 6 && (jd + k + 1) % 7 == w % 7 && (jd + diff + 1) % 7 == w % 7
    ensures k == diff
  {
  }

  lemma {:induction false} DayOfWeek(jd: int, w: nat)
    ensures var diff := (w - Rem(jd + 1, 7)) % 7; 0 <= diff <= 6 && (jd + diff + 1) % 7 == w % 7
  {
    var r := Rem(jd + 1, 7);
    RemSevens(jd + 1);
    var diff := (w - r) % 7;
    var q := (w - r) / 7;
    var k := (jd + 1 - r) / 7;
    assert jd + 1 == 7 * k + r && w - r == 7 * q + diff;
    SevensApart(jd + 1 + diff, w, k - q);
  }

  lemma {:induction false} RemSevens(n: int)
    ensures (n - Rem(n, 7)) % 7 == 0
  {
    if n < 0 {
      assert n - Rem(n, 7) == -7 * (-n / 7);
    }
  }

  lemma {:induction false} SevensApart(x: int, y: int, k: int)
    requires x == y + 7 * k
    ensures x % 7 == y % 7
  {
  }

  /** Adding months moves the month count by exactly that many and leaves a valid date exactly
      when the day exists in the new month. */
  lemma {:induction false} MonthsAdd(dt: DateTime, n: int)
    requires ValidDate(dt.year, dt.month, dt.day)
    ensures var r := ApplyModifier(dt, AddMonths(n));
      && 12 * r.year + r.month == 12 * dt.year + dt.month + n && 1 <= r.month <= 12
      && (ValidDate(r.year, r.month, r.day) <==> dt.day <= DaysIn(r.year, r.month))
      && (r.day, r.hour, r.min, r.sec) == (dt.day, dt.hour, dt.min, dt.sec)
  {
  }

  /** A year is twelve months. */
  lemma {:induction false} YearsAsMonths(dt: DateTime, y: int)
    requires 1 <= dt.month <= 12
    ensures ApplyModifier(dt, AddYears(y)) == ApplyModifier(dt, AddMonths(12 * y))
  {
    var total := dt.month - 1 + 12 * y;
    assert total / 12 == y && total % 12 == dt.month - 1;
  }

  // ------------------------------------------------------------------
  // Instants and dates, counted from 1 January 1970.
  // ------------------------------------------------------------------

  /** The date `n` days after 1 January 1970. */
  function DateAfter(n: nat): (date: (int, int, int))
    ensures ValidDate(date.0, date.1, date.2) && date.0 >= 1970
  {
    if n == 0 then (1970, 1, 1)
    else
      var (y, m, d) := DateAfter(n - 1);
      NextDay(y, m, d)
  }

  /** The days from 1970 to the last date whose year is an i32. */
  const LAST_SINCE_1970: int := 784351576776

  lemma {:induction false} Epoch()
    ensures YmdToJulian(1970, 1, 1) == 2440588
    ensures UNIX_EPOCH == 2440588 && LAST_DAY - UNIX_EPOCH == LAST_SINCE_1970
  {
  }

  lemma {:induction false} DayNumber(n: nat)
    ensures var (y, m, d) := DateAfter(n); YmdToJulian(y, m, d) == UNIX_EPOCH + n
    ensures n <= LAST_SINCE_1970 ==> JulianToYmd(UNIX_EPOCH + n) == DateAfter(n)
    ensures n <= LAST_SINCE_1970 ==> Covered(DateAfter(n).0, DateAfter(n).1)
  {
    hide YmdToJulian, JulianToYmd, ValidDate, NextDay;
    Epoch();
    if n > 0 {
      DayNumber(n - 1);
      var (y, m, d) := DateAfter(n - 1);
      NextIsNext(y, m, d);
    }
    if n <= LAST_SINCE_1970 {
      SameDate(DateAfter(n).0, DateAfter(n).1, DateAfter(n).2, UNIX_EPOCH + n);
    }
  }

  /** A day number belongs to one date. */
  lemma {:induction false} SameDate(y: int, m: int, d: int, jd: int)
    requires ValidDate(y, m, d) && y >= 1970 && YmdToJulian(y, m, d) == jd && FIRST_DAY <= jd <= LAST_DAY
    ensures JulianToYmd(jd) == (y, m, d) && Covered(y, m)
  {
    hide YmdToJulian, JulianToYmd, ValidDate;
    if y < 0x8000_0000 {
      ToJulian(y, m, d);
    } else {
      YearsGrow(y, m, d);
    }
  }

  /** Dates of later years have greater day numbers. */
  lemma {:induction false} YearsGrow(y: int, m: int, d: int)
    requires ValidDate(y, m, d) && y >= 0x8000_0000
    ensures YmdToJulian(y, m, d) > LAST_DAY
  {
    var a := if m <= 2 then 1 else 0;
    assert Quot(14 - m, 12) == a;
    var yr, mo := y + 4800 - a, m + 12 * a - 3;
    assert yr >= 0x8000_0000 + 4799 && 0 <= mo <= 11;
    assert Quot(yr, 4) == yr / 4 && Quot(yr, 100) == yr / 100 && Quot(yr, 400) == yr / 400;
    assert Quot(153 * mo + 2, 5) == (153 * mo + 2) / 5;
  }

  /** From 1970 on an instant is `secs / 86400` days after 1 January 1970, at the time of day that the
      rest says; and that date and time are that instant. */
  lemma {:induction false} Instants(secs: nat)
    requires secs / 86400 <= LAST_SINCE_1970
    ensures var (y, m, d) := DateAfter(secs / 86400); var t := secs % 86400;
      && FromUnix(secs) == DateTime(y, m, d, t / 3600, t % 3600 / 60, t % 60)
      && ToUnix(DateTime(y, m, d, t / 3600, t % 3600 / 60, t % 60)) == secs
  {
    hide YmdToJulian, JulianToYmd, ValidDate, NextDay, DateAfter, Quot, Rem, AsU8;
    DayNumber(secs / 86400);
    ClockFields(secs % 86400);
    Forward(secs);
  }

  lemma {:induction false} ClockFields(t: int)
    requires 0 <= t < 86400
    ensures AsU8(Quot(t, 3600)) == t / 3600 && AsU8(Quot(Rem(t, 3600), 60)) == t % 3600 / 60
    ensures AsU8(Rem(t, 60)) == t % 60
    ensures t / 3600 * 3600 + t % 3600 / 60 * 60 + t % 60 == t
  {
    assert t % 3600 % 60 == t % 60;
  }

  lemma {:induction false} Forward(secs: nat)
    ensures Quot(secs, 86400) == secs / 86400 && Rem(secs, 86400) == secs % 86400
  {
  }

  lemma {:induction false} FirstDate()
    ensures DateAfter(0) == (1970, 1, 1)
  {
  }

  lemma {:induction false} TimeZero()
    ensures FromUnix(0) == DateTime(1970, 1, 1, 0, 0, 0) && ToUnix(DateTime(1970, 1, 1, 0, 0, 0)) == 0
  {
    hide FromUnix, ToUnix, DateAfter;
    FirstDate();
    Instants(0);
  }

  /** Centuries are leap years only every four hundred years. */
  lemma {:induction false} KnownDates()
    ensures FromUnix(951782400) == DateTime(2000, 2, 29, 0, 0, 0)
    ensures FromUnix(4107542399) == DateTime(2100, 2, 28, 23, 59, 59)
    ensures FromUnix(4107542400) == DateTime(2100, 3, 1, 0, 0, 0)
  {
    hide FromUnix, JulianToYmd, YmdToJulian;
    KnownDays();
    DateRoundTrip(DateTime(2000, 2, 29, 0, 0, 0));
    DateRoundTrip(DateTime(2100, 2, 28, 23, 59, 59));
    DateRoundTrip(DateTime(2100, 3, 1, 0, 0, 0));
  }

  lemma {:induction false} KnownDays()
    ensures YmdToJulian(2000, 2, 29) == UNIX_EPOCH + 11016
    ensures YmdToJulian(2100, 2, 28) == UNIX_EPOCH + 47540 && YmdToJulian(2100, 3, 1) == UNIX_EPOCH + 47541
  {
  }

  /** The instant of a date `n` days after 1 January 1970, at some time of day. */
  function TimeOn(n: nat, t: nat): DateTime {
    var (y, m, d) := DateAfter(n);
    DateTime(y, m, d, t / 3600, t % 3600 / 60, t % 60)
  }

  lemma {:induction false} InstantOf(n: nat, t: nat)
    requires n <= LAST_SINCE_1970 && t < 86400
    ensures ToUnix(TimeOn(n, t)) == n * 86400 + t && FromUnix(n * 86400 + t) == TimeOn(n, t)
  {
    hide FromUnix, ToUnix, DateAfter;
    Instants(n * 86400 + t);
    assert (n * 86400 + t) / 86400 == n && (n * 86400 + t) % 86400 == t;
  }

  /** Adding days moves along the days, and the time of day stays. */
  lemma {:induction false} DaysMove(n: nat, t: nat, days: int)
    requires n <= LAST_SINCE_1970 && t < 86400 && 0 <= n + days <= LAST_SINCE_1970
    ensures ApplyModifier(TimeOn(n, t), AddDays(days)) == TimeOn(n + days, t)
  {
    hide FromUnix, ToUnix, DateAfter;
    InstantOf(n, t);
    InstantOf(n + days, t);
  }

  /** The starts of the day, the month and the year: midnight of the same day, of the last first of a
      month and of the last first of January that is not after it. */
  lemma {:induction false} StartsMove(n: nat, t: nat)
    ensures ApplyModifier(TimeOn(n, t), StartOfDay) == TimeOn(n, 0)
    ensures exists k: nat :: FirstOfMonth(k, n) && ApplyModifier(TimeOn(n, t), StartOfMonth) == TimeOn(k, 0)
    ensures exists k: nat :: FirstOfYear(k, n) && ApplyModifier(TimeOn(n, t), StartOfYear) == TimeOn(k, 0)
  {
    hide DateAfter;
    var k := MonthStart(n);
    assert ApplyModifier(TimeOn(n, t), StartOfMonth) == TimeOn(k, 0);
    var j := YearStart(n);
    assert ApplyModifier(TimeOn(n, t), StartOfYear) == TimeOn(j, 0);
  }

  ghost predicate FirstOfMonth(k: nat, n: nat) {
    k <= n && DateAfter(k).2 == 1 && forall j :: k < j <= n ==> DateAfter(j).2 != 1
  }

  ghost predicate FirstOfYear(k: nat, n: nat) {
    k <= n && DateAfter(k).1 == DateAfter(k).2 == 1 && forall j ::
        k < j <= n ==> (DateAfter(j).1, DateAfter(j).2) != (1, 1)
  }

  lemma {:induction false} MonthStart(n: nat) returns (k: nat)
    ensures FirstOfMonth(k, n) && DateAfter(k) == (DateAfter(n).0, DateAfter(n).1, 1)
  {
    k := n;
    if DateAfter(n).2 != 1 {
      k := MonthStart(n - 1);
    }
  }

  lemma {:induction false} YearStart(n: nat) returns (k: nat)
    ensures FirstOfYear(k, n) && DateAfter(k) == (DateAfter(n).0, 1, 1)
  {
    k := n;
    if (DateAfter(n).1, DateAfter(n).2) != (1, 1) {
      k := YearStart(n - 1);
    }
  }

  /** 1 January 1970 is day 4 of the week, a Thursday: `weekday w` moves to the first day from this one
      on whose number in the week, counted on from there, is `w`. */
  lemma {:induction false} WeekdayMoves(n: nat, t: nat, w: nat)
    requires n + 6 <= LAST_SINCE_1970 && t < 86400
    ensures ApplyModifier(TimeOn(n, t), Weekday(w)) == TimeOn(n + (w - (4 + n)) % 7, t)
    ensures (4 + (n + (w - (4 + n)) % 7)) % 7 == w % 7
  {
    hide FromUnix, ToUnix, DateAfter, YmdToJulian, JulianToYmd;
    DayNumber(n);
    var k := (w - (4 + n)) % 7;
    InstantOf(n, t);
    InstantOf(n + k, t);
    SevenDays(n, w);
  }

  lemma {:induction false} SevenDays(n: nat, w: nat)
    ensures (w - Rem(UNIX_EPOCH + n + 1, 7)) % 7 == (w - (4 + n)) % 7
    ensures (4 + (n + (w - (4 + n)) % 7)) % 7 == w % 7
  {
    assert Rem(UNIX_EPOCH + n + 1, 7) == (UNIX_EPOCH + n + 1) % 7;
    var q := (UNIX_EPOCH + n + 1) / 7;
    assert w - (UNIX_EPOCH + n + 1) % 7 == (w - (4 + n)) - 7 * (348655 - q);
    Shift7(w - (4 + n), 348655 - q);
    var r := (w - (4 + n)) / 7;
    assert (w - (4 + n)) % 7 == w - (4 + n) - 7 * r;
    assert 4 + (n + (w - (4 + n)) % 7) == w - 7 * r;
    Shift7(w, r);
  }

  lemma {:induction false} Shift7(x: int, q: int)
    ensures (x - 7 * q) % 7 == x % 7
  {
  }

  /** Before 1970 too, each day is followed by the next: midnights one day apart have neighbouring
      dates. */
  lemma {:induction false} MidnightsFollow(days: int)
    requires -2472631 <= days < LAST_SINCE_1970
    ensures var a, b := FromUnix(days * 86400), FromUnix((days + 1) * 86400);
      && ValidDate(a.year, a.month, a.day) && (b.year, b.month, b.day) == NextDay(a.year, a.month, a.day)
      && (a.hour, a.min, a.sec) == (0, 0, 0)
  {
    hide FromUnix, JulianToYmd, ValidDate, NextDay;
    AtMidnight(days);
    AtMidnight(days + 1);
    DayFollows(UNIX_EPOCH + days);
  }

  lemma {:induction false} DayFollows(jd: int)
    requires FIRST_DAY <= jd < LAST_DAY
    ensures var (y, m, d) := JulianToYmd(jd); ValidDate(y, m, d) && JulianToYmd(jd + 1) == NextDay(y, m, d)
  {
    hide YmdToJulian, JulianToYmd, ValidDate, NextDay;
    FromJulian(jd);
    CoveredDay(jd);
    var (y, m, d) := JulianToYmd(jd);
    NextCovered(y, m, d);
    NextIsNext(y, m, d);
    var (y', m', d') := NextDay(y, m, d);
    NextUnique(y', m', d', jd + 1);
  }

  lemma {:induction false} AtMidnight(days: int)
    ensures var (y, m, d) := JulianToYmd(UNIX_EPOCH + days);
      FromUnix(days * 86400) == DateTime(y, m, d, 0, 0, 0)
  {
    hide JulianToYmd, Quot, Rem, AsU8;
    Midnight(days);
    NoTime();
  }

  lemma {:induction false} NoTime()
    ensures AsU8(Quot(0, 3600)) == 0 && AsU8(Quot(Rem(0, 3600), 60)) == 0 && AsU8(Rem(0, 60)) == 0
  {
  }

  lemma {:induction false} Midnight(days: int)
    ensures Quot(days * 86400, 86400) == days && Rem(days * 86400, 86400) == 0
  {
    if days < 0 {
      assert (-days * 86400) / 86400 == -days;
    }
  }

  lemma {:induction false} NextCovered(y: int, m: int, d: int)
    requires ValidDate(y, m, d) && Covered(y, m)
    ensures y + 4800 - (if m <= 2 then 1 else 0) >= 0
    ensures var (y', m', d') := NextDay(y, m, d);
      ValidDate(y', m', d') && (y' > -4800 || (y' == -4800 && m' >= 3)) && y' <= 0x8000_0000
  {
  }

  lemma {:induction false} NextUnique(y: int, m: int, d: int, jd: int)
    requires ValidDate(y, m, d) && (y > -4800 || (y == -4800 && m >= 3))
    requires YmdToJulian(y, m, d) == jd && FIRST_DAY <= jd <= LAST_DAY
    ensures JulianToYmd(jd) == (y, m, d)
  {
    hide YmdToJulian, JulianToYmd, ValidDate;
    if y < 0x8000_0000 {
      ToJulian(y, m, d);
    } else {
      YearsGrow(y, m, d);
    }
  }
}
