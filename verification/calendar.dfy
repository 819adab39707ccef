/** The calendar arithmetic of kuser.hpp, over every FILETIME, against the Gregorian
    calendar counted year by year and month by month. */
module Calendar {

  // C++ integer division and remainder truncate toward zero.

  function TruncDiv(x: int, d: int): int
    requires d > 0
  {
    if x >= 0 then x / d else -((-x) / d)
  }

  function TruncMod(x: int, d: int): int
    requires d > 0
  {
    x - d * TruncDiv(x, d)
  }

  datatype Date = Date(year: int, month: int, day: int)

  // The Gregorian calendar (leap rule as in Appendix C of RFC 3339).

  predicate IsLeap(y: int) {
    (y % 4 == 0 && y % 100 != 0) || y % 400 == 0
  }

  function DaysInMonth(y: int, m: int): int
    requires 1 <= m <= 12
  {
    if m == 2 then (if IsLeap(y) then 29 else 28)
    else if m == 4 || m == 6 || m == 9 || m == 11 then 30
    else 31
  }

  function DaysInYear(y: int): int {
    if IsLeap(y) then 366 else 365
  }

  predicate ValidDate(d: Date) {
    1 <= d.month <= 12 && 1 <= d.day <= DaysInMonth(d.year, d.month)
  }

  /** Days of the years from 1970 up to y, negative for years before it. */
  ghost function DaysToYear(y: int): int
    decreases if y >= 1970 then y - 1970 else 1970 - y
  {
    if y == 1970 then 0
    else if y > 1970 then DaysToYear(y - 1) + DaysInYear(y - 1)
    else DaysToYear(y + 1) - DaysInYear(y)
  }

  /** Days of the months of year y before month m. */
  ghost function DaysToMonth(y: int, m: int): int
    requires 1 <= m <= 12
  {
    if m == 1 then 0 else DaysToMonth(y, m - 1) + DaysInMonth(y, m - 1)
  }

  /** The number of a day: how many days after 1 January 1970 it is. */
  ghost function DayNumber(d: Date): int
    requires ValidDate(d)
  {
    DaysToYear(d.year) + DaysToMonth(d.year, d.month) + d.day - 1
  }

  // The code.

  /** The 400-year era a day belongs to, days counted from 1 March 0000. */
  function Era(z: int): int {
    TruncDiv(if z >= 0 then z else z - 146096, 146097)
  }

  function YearOfEra(doe: int): int {
    (doe - doe / 1460 + doe / 36524 - doe / 146096) / 365
  }

  /** Days of the first y years of an era. */
  function EraDays(y: int): int {
    365 * y + y / 4 - y / 100
  }

  /** Days from 1 March to the first of the mp-th month after it. */
  function MonthStart(mp: int): int {
    (153 * mp + 2) / 5
  }

  function CivilFromDays(days: int): Date {
    var z := days + 719468;
    var era := Era(z);
    var doe := z - era * 146097;
    var yoe := YearOfEra(doe);
    var yr := yoe + era * 400;
    var doy := doe - EraDays(yoe);
    var mp := (5 * doy + 2) / 153;
    var d := doy - MonthStart(mp) + 1;
    var m := if mp < 10 then mp + 3 else mp - 9;
    Date(yr + (if m <= 2 then 1 else 0), m, d)
  }

  /** The day of the era split into centuries, four-year cycles and days of a cycle; only
      the era's last day is a century by itself. */
  ghost predicate EraSplit(doe: int, c: int, q: int, t: int) {
    && doe == 36524 * c + 1461 * q + t
    && 0 <= c <= 3 && 0 <= q <= 24 && 0 <= t <= 1460
    && (q == 24 && c < 3 ==> t <= 1459)
  }

  lemma SplitEra(doe: int) returns (c: int, q: int, t: int)
    requires 0 <= doe <= 146096
    ensures EraSplit(doe, c, q, t)
  {
    c := if doe == 146096 then 3 else doe / 36524;
    var r := doe - 36524 * c;
    q, t := r / 1461, r % 1461;
  }

  /** Year of a four-year cycle: the fourth one takes the extra day. */
  ghost function YearOfCycle(t: int): int {
    if t >= 1095 then 3 else t / 365
  }

  lemma YearOfEraSplit(doe: int, c: int, q: int, t: int)
    requires EraSplit(doe, c, q, t)
    ensures YearOfEra(doe) == 100 * c + 4 * q + YearOfCycle(t)
  {
    var e := if 24 * c + q + t >= 1460 then 1 else 0;
    assert doe / 1460 == 25 * c + q + e;
    if doe < 146096 {
      assert doe / 36524 == c;
      assert doe / 146096 == 0;
    } else {
      assert doe / 36524 - doe / 146096 == 3;
    }
    assert doe - doe / 1460 + doe / 36524 - doe / 146096 == 36500 * c + 1460 * q + t - e;
    assert (36500 * c + 1460 * q + (t - e)) / 365 == 100 * c + 4 * q + (t - e) / 365;
  }

  lemma EraDaysSplit(c: int, q: int, y: int)
    requires 0 <= q <= 24 && 0 <= y <= 3
    ensures EraDays(100 * c + 4 * q + y) == 36524 * c + 1461 * q + 365 * y
  {
    assert (100 * c + 4 * q + y) / 4 == 25 * c + q;
    assert (100 * c + 4 * q + y) / 100 == c;
  }

  /** Within its year, a day is no further than a year goes, and only a year that ends in a
      leap February has a 366th day. */
  lemma DayOfEraYear(doe: int, era: int)
    requires 0 <= doe <= 146096
    ensures 0 <= YearOfEra(doe) <= 399
    ensures var doy := doe - EraDays(YearOfEra(doe));
      0 <= doy <= 365 && (doy == 365 ==> IsLeap(YearOfEra(doe) + era * 400 + 1))
  {
    hide EraDays, YearOfEra, IsLeap;
    var c, q, t := SplitEra(doe);
    YearOfEraSplit(doe, c, q, t);
    EraDaysSplit(c, q, YearOfCycle(t));
    if t == 1460 {
      LastYearLeaps(c, q, era);
    }
  }

  lemma LastYearLeaps(c: int, q: int, era: int)
    requires 0 <= c <= 3 && 0 <= q <= 24 && (q == 24 ==> c == 3)
    ensures IsLeap(100 * c + 4 * q + 3 + era * 400 + 1)
  {
    Residues(25 * (c + 4 * era) + q + 1, 0, 0);
    if q < 24 {
      Residues(0, c + 4 * era, 4 * q + 4);
    } else {
      Residues(era + 1, era + 1, 0);
    }
  }

  lemma Residues(j: int, k: int, r: int)
    requires 0 <= r < 100
    ensures (4 * j) % 4 == 0 && (100 * k + r) % 100 == r && (400 * j) % 400 == 0
  {
  }

  /** Day numbers of 1 January in closed form. */
  ghost function LeapsBefore(y: int): int {
    (y - 1) / 4 - (y - 1) / 100 + (y - 1) / 400
  }

  lemma LeapsStep(y: int)
    ensures LeapsBefore(y + 1) == LeapsBefore(y) + if IsLeap(y) then 1 else 0
  {
    QuotientSteps(y);
    MultiplesNest(y);
  }

  lemma QuotientSteps(y: int)
    ensures y / 4 == (y - 1) / 4 + if y % 4 == 0 then 1 else 0
    ensures y / 100 == (y - 1) / 100 + if y % 100 == 0 then 1 else 0
    ensures y / 400 == (y - 1) / 400 + if y % 400 == 0 then 1 else 0
  {
  }

  lemma MultiplesNest(y: int)
    ensures y % 400 == 0 ==> y % 100 == 0
    ensures y % 100 == 0 ==> y % 4 == 0
  {
  }

  lemma {:induction false} DaysToYearClosed(y: int)
    ensures DaysToYear(y) == 365 * (y - 1970) + LeapsBefore(y) - 477
    decreases if y >= 1970 then y - 1970 else 1970 - y
  {
    if y > 1970 {
      DaysToYearClosed(y - 1);
      LeapsStep(y - 1);
    } else if y < 1970 {
      DaysToYearClosed(y + 1);
      LeapsStep(y);
    }
  }

  /** The day number of 1 March of year y. */
  ghost function MarchFirst(y: int): int {
    DaysToYear(y) + DaysInYear(y) - 306
  }

  lemma MarchFirstOfEra(era: int, o: int)
    requires 0 <= o <= 399
    ensures MarchFirst(o + era * 400) == era * 146097 + EraDays(o) - 719468
  {
    var y := o + era * 400;
    DaysToYearClosed(y);
    LeapsStep(y);
    assert y / 4 == 100 * era + o / 4;
    assert y / 100 == 4 * era + o / 100;
    assert y / 400 == era;
  }

  lemma DaysToYearNext(y: int)
    ensures DaysToYear(y + 1) == DaysToYear(y) + DaysInYear(y)
  {
  }

  lemma MonthOfDay(doy: int)
    requires 0 <= doy <= 365
    ensures var mp := (5 * doy + 2) / 153;
      0 <= mp <= 11 && MonthStart(mp) <= doy && (mp < 11 ==> doy < MonthStart(mp + 1))
  {
  }

  /** Counting months from January or from March comes to the same day. */
  lemma MonthsAgree(yr: int, mp: int, doy: int)
    requires 0 <= mp <= 11 && MonthStart(mp) <= doy <= 365 && (mp < 11 ==> doy < MonthStart(mp + 1))
    requires doy == 365 ==> IsLeap(yr + 1)
    ensures var m := if mp < 10 then mp + 3 else mp - 9;
      var d := Date(yr + (if m <= 2 then 1 else 0), m, doy - MonthStart(mp) + 1);
      ValidDate(d) && DayNumber(d) == MarchFirst(yr) + doy
  {
    DaysToYearNext(yr);
    var y := if mp < 10 then yr else yr + 1;
    MonthTable(y);
  }

  lemma MonthTable(y: int)
    ensures DaysToMonth(y, 1) == 0 && DaysToMonth(y, 2) == 31
    ensures forall m :: 3 <= m <= 12 ==> DaysToMonth(y, m) == DaysInYear(y) - 306 + MonthStart(m - 3)
  {
    var f := DaysInYear(y) - 306;
    assert DaysToMonth(y, 2) == 31;
    assert DaysToMonth(y, 3) == f;
    assert DaysToMonth(y, 4) == f + 31;
    assert DaysToMonth(y, 5) == f + 61;
    assert DaysToMonth(y, 6) == f + 92;
    assert DaysToMonth(y, 7) == f + 122;
    assert DaysToMonth(y, 8) == f + 153;
    assert DaysToMonth(y, 9) == f + 184;
    assert DaysToMonth(y, 10) == f + 214;
    assert DaysToMonth(y, 11) == f + 245;
    assert DaysToMonth(y, 12) == f + 275;
  }

  lemma EraFloors(z: int)
    ensures 0 <= z - Era(z) * 146097 <= 146096
  {
  }

  /** The date computed for a day number is a date of the calendar, and it is that day. */
  lemma CivilIsRight(z: int)
    ensures ValidDate(CivilFromDays(z)) && DayNumber(CivilFromDays(z)) == z
  {
    hide Era, YearOfEra, EraDays, MonthStart, MarchFirst, ValidDate, DayNumber, IsLeap;
    var era := Era(z + 719468);
    var doe := z + 719468 - era * 146097;
    EraFloors(z + 719468);
    var yoe := YearOfEra(doe);
    DayOfEraYear(doe, era);
    var doy := doe - EraDays(yoe);
    MonthOfDay(doy);
    MonthsAgree(yoe + era * 400, (5 * doy + 2) / 153, doy);
    MarchFirstOfEra(era, yoe);
  }

  /** Every value the source keeps in an unsigned is one: era day, year of the era, day of the year and
      month run in the ranges its comments give, and no difference on the way goes below zero. */
  lemma CivilIntermediates(z: int)
    ensures var n := z + 719468;
      var doe := n - Era(n) * 146097;
      var yoe := YearOfEra(doe);
      var doy := doe - EraDays(yoe);
      var mp := (5 * doy + 2) / 153;
      && 0 <= doe <= 146096 && 0 <= yoe <= 399 && 0 <= doy <= 365 && 0 <= mp <= 11
      && 0 <= doe - doe / 1460 && 0 <= doe - doe / 1460 + doe / 36524 - doe / 146096
      && 0 <= 365 * yoe + yoe / 4 - yoe / 100 <= doe
      && 1 <= doy - MonthStart(mp) + 1 <= 31
  {
    var n := z + 719468;
    EraFloors(n);
    var doe := n - Era(n) * 146097;
    DayOfEraYear(doe, 0);
    var doy := doe - EraDays(YearOfEra(doe));
    MonthOfDay(doy);
    MonthLengths((5 * doy + 2) / 153);
    hide Era, YearOfEra, IsLeap, MonthStart;
  }

  lemma MonthLengths(mp: int)
    requires 0 <= mp <= 11
    ensures MonthStart(mp + 1) - MonthStart(mp) <= 31 && MonthStart(11) == 337
  {
  }

  // The other direction: two dates of the calendar never share a day number.

  lemma {:induction false} YearsGrow(y: int, y': int)
    requires y < y'
    ensures DaysToYear(y) + DaysInYear(y) <= DaysToYear(y')
    decreases y' - y
  {
    DaysToYearNext(y);
    if y + 1 < y' {
      YearsGrow(y + 1, y');
    }
  }

  lemma DayInYear(d: Date)
    requires ValidDate(d)
    ensures 0 <= DaysToMonth(d.year, d.month) + d.day - 1 < DaysInYear(d.year)
  {
    MonthTable(d.year);
  }

  predicate Before(a: Date, b: Date) {
    a.year < b.year || (a.year == b.year && (a.month < b.month || (a.month == b.month && a.day < b.day)))
  }

  lemma DayNumberGrows(a: Date, b: Date)
    requires ValidDate(a) && ValidDate(b) && Before(a, b)
    ensures DayNumber(a) < DayNumber(b)
  {
    hide DaysToYear, DaysToMonth;
    DayInYear(a);
    DayInYear(b);
    if a.year < b.year {
      YearsGrow(a.year, b.year);
    } else if a.month < b.month {
      MonthsGrow(a.year, a.month, b.month);
    }
  }

  lemma MonthsGrow(y: int, m: int, m': int)
    requires 1 <= m < m' <= 12
    ensures DaysToMonth(y, m) + DaysInMonth(y, m) <= DaysToMonth(y, m')
  {
    MonthTable(y);
  }

  /** Every date of the calendar is computed, from its own day number. */
  lemma CivilIsInverse(d: Date)
    requires ValidDate(d)
    ensures CivilFromDays(DayNumber(d)) == d
  {
    hide CivilFromDays, DayNumber;
    var e := CivilFromDays(DayNumber(d));
    CivilIsRight(DayNumber(d));
    if Before(e, d) {
      DayNumberGrows(e, d);
    } else if Before(d, e) {
      DayNumberGrows(d, e);
    }
  }

  // FILETIMEs: hundreds of nanoseconds since 1 January 1601.

  const FILETIME_LIMIT := 0x1_0000_0000_0000_0000

  datatype Timestamp = Timestamp(
    year: int, month: int, day: int, hour: int, minute: int, second: int, millisecond: int, weekday: int)

  function ToDatetime(filetime: nat): Timestamp {
    var unixSec := filetime / 1_000_0000 - 11644473600;
    var days0 := TruncDiv(unixSec, 86400);
    var sod0 := TruncMod(unixSec, 86400);
    var sod := if sod0 < 0 then sod0 + 86400 else sod0;
    var days := if sod0 < 0 then days0 - 1 else days0;
    var date := CivilFromDays(days);
    var wd := TruncMod(TruncMod(days, 7) + 4, 7);
    Timestamp(date.year, date.month, date.day,
              sod / 3600, sod % 3600 / 60, sod % 60,
              filetime / 10000 % 1000,
              if wd < 0 then wd + 7 else wd)
  }

  function DateOf(t: Timestamp): Date {
    Date(t.year, t.month, t.day)
  }

  predicate InRange(t: Timestamp) {
    && ValidDate(DateOf(t)) && 0 <= t.hour < 24 && 0 <= t.minute < 60 && 0 <= t.second < 60
    && 0 <= t.millisecond < 1000 && 0 <= t.weekday < 7
  }

  /** The FILETIME a broken-down time stands for. */
  ghost function Recompose(t: Timestamp): int
    requires ValidDate(DateOf(t))
  {
    (((DayNumber(DateOf(t)) * 24 + t.hour) * 60 + t.minute) * 60 + t.second + 11644473600) * 1_000_0000
    + t.millisecond * 10000
  }

  /** Truncation, put right below zero, is the floor. */
  lemma SplitSeconds(s: int)
    ensures var d, m := TruncDiv(s, 86400), TruncMod(s, 86400);
      && (m < 0 ==> d - 1 == s / 86400 && m + 86400 == s % 86400)
      && (m >= 0 ==> d == s / 86400 && m == s % 86400)
  {
  }

  /** The weekday is the remainder of the days since a Thursday. */
  lemma WeekdayIs(days: int)
    ensures var wd := TruncMod(TruncMod(days, 7) + 4, 7);
      (if wd < 0 then wd + 7 else wd) == (days + 4) % 7
  {
    var m := TruncMod(days, 7);
    Remainder(days);
    assert (if TruncMod(m + 4, 7) < 0 then TruncMod(m + 4, 7) + 7 else TruncMod(m + 4, 7)) == (m + 4 + 7) % 7;
    hide TruncMod;
    assert days + 4 == m + 4 + 7 * ((days - m) / 7);
  }

  lemma Remainder(days: int)
    ensures var m := TruncMod(days, 7);
      -7 < m < 7 && (days - m) % 7 == 0
  {
  }

  lemma DatetimeParts(filetime: nat)
    ensures var s := filetime / 1_000_0000 - 11644473600;
      var t := ToDatetime(filetime);
      && DateOf(t) == CivilFromDays(s / 86400)
      && t.hour == s % 86400 / 3600 && t.minute == s % 86400 % 3600 / 60 && t.second == s % 86400 % 60
      && t.millisecond == filetime / 10000 % 1000 && t.weekday == (s / 86400 + 4) % 7
  {
    hide CivilFromDays, TruncDiv, TruncMod;
    var s := filetime / 1_000_0000 - 11644473600;
    SplitSeconds(s);
    WeekdayIs(s / 86400);
  }

  /** Every field in its range, the right weekday (4 January 1970 was a Sunday), and the
      whole recomposes to the FILETIME down to the millisecond. */
  lemma DatetimeIsRight(filetime: nat)
    ensures InRange(ToDatetime(filetime))
    ensures Recompose(ToDatetime(filetime)) == filetime - filetime % 10000
    ensures ToDatetime(filetime).weekday == (DayNumber(DateOf(ToDatetime(filetime))) - DayNumber(Date(1970, 1, 4))) % 7
  {
    hide CivilFromDays, ToDatetime, DayNumber, ValidDate;
    var s := filetime / 1_000_0000 - 11644473600;
    DatetimeParts(filetime);
    CivilIsRight(s / 86400);
    Clock(s % 86400);
    FirstSunday();
    MillisecondPart(filetime);
  }

  lemma FirstSunday()
    ensures ValidDate(Date(1970, 1, 4)) && DayNumber(Date(1970, 1, 4)) == 3
  {
  }

  lemma Clock(sod: int)
    requires 0 <= sod < 86400
    ensures (sod / 3600 * 60 + sod % 3600 / 60) * 60 + sod % 60 == sod
    ensures 0 <= sod / 3600 < 24 && 0 <= sod % 3600 / 60 < 60
  {
    assert sod % 3600 % 60 == sod % 60;
  }

  lemma MillisecondPart(filetime: nat)
    ensures filetime / 1_000_0000 * 1_000_0000 + filetime / 10000 % 1000 * 10000 == filetime - filetime % 10000
  {
    assert filetime / 10000 / 1000 == filetime / 1_000_0000;
  }

  /** Earlier, field by field. */
  predicate Earlier(a: Timestamp, b: Timestamp) {
    if DateOf(a) != DateOf(b) then Before(DateOf(a), DateOf(b))
    else if a.hour != b.hour then a.hour < b.hour
    else if a.minute != b.minute then a.minute < b.minute
    else if a.second != b.second then a.second < b.second
    else a.millisecond < b.millisecond
  }

  lemma RecomposeGrows(a: Timestamp, b: Timestamp)
    requires InRange(a) && InRange(b) && Earlier(a, b)
    ensures Recompose(a) < Recompose(b)
  {
    hide DayNumber, ValidDate;
    if DateOf(a) != DateOf(b) {
      DayNumberGrows(DateOf(a), DateOf(b));
    }
  }

  /** Broken-down times are ordered as the FILETIMEs are, millisecond by millisecond. */
  lemma DatetimeKeepsOrder(x: nat, y: nat)
    ensures Earlier(ToDatetime(x), ToDatetime(y)) <==> x / 10000 < y / 10000
  {
    var a, b := ToDatetime(x), ToDatetime(y);
    DatetimeIsRight(x);
    DatetimeIsRight(y);
    hide ToDatetime, Recompose, InRange, Earlier;
    EarlierTotal(a, b);
    if Earlier(a, b) {
      RecomposeGrows(a, b);
    }
    if Earlier(b, a) {
      RecomposeGrows(b, a);
    }
  }

  lemma EarlierTotal(a: Timestamp, b: Timestamp)
    requires InRange(a) && InRange(b)
    ensures Earlier(a, b) || Earlier(b, a) || Recompose(a) == Recompose(b)
  {
  }

  /** Day of the year, 1 to 366, from the cumulative table. */
  function DayOfYear(t: Timestamp): int {
    var cum := [0, 31, 59, 90, 120, 151, 181, 212, 243, 273, 304, 334];
    var doy := cum[if 1 <= t.month <= 12 then t.month - 1 else 0] + t.day;
    if IsLeap(t.year) && t.month > 2 then doy + 1 else doy
  }

  /** It is one more than the days since 1 January. */
  lemma DayOfYearIsOffset(filetime: nat)
    ensures var t := ToDatetime(filetime);
      && ValidDate(DateOf(t)) && ValidDate(Date(t.year, 1, 1))
      && DayOfYear(t) == DayNumber(DateOf(t)) - DayNumber(Date(t.year, 1, 1)) + 1
      && 1 <= DayOfYear(t) <= DaysInYear(t.year)
  {
    var t := ToDatetime(filetime);
    DatetimeIsRight(filetime);
    hide ToDatetime, DaysToYear;
    MonthTable(t.year);
    DayInYear(DateOf(t));
  }

  lemma {:induction false} YearBounds(d: Date, lo: int, hi: int)
    requires ValidDate(d) && DaysToYear(lo) <= DayNumber(d) < DaysToYear(hi)
    ensures lo <= d.year < hi
  {
    DayInYear(d);
    if d.year < lo {
      YearsGrow(d.year, lo);
    }
    if hi < d.year {
      YearsGrow(hi, d.year);
    }
  }

  lemma YearDays()
    ensures DaysToYear(1601) == -134774 && DaysToYear(60057) == 21215842
  {
    DaysToYearClosed(1601);
    DaysToYearClosed(60057);
  }

  /** All 64-bit FILETIMEs fall in years 1601 to 60056, so no conversion of the code to a
      narrower or unsigned integer loses anything. */
  lemma FiletimeYears(filetime: nat)
    requires filetime < FILETIME_LIMIT
    ensures 1601 <= ToDatetime(filetime).year <= 60056
  {
    var days := (filetime / 1_000_0000 - 11644473600) / 86400;
    DatetimeParts(filetime);
    CivilIsRight(days);
    hide ToDatetime, CivilFromDays, DaysToYear, DayNumber, ValidDate;
    YearDays();
    assert -134774 <= days <= 21215624;
    YearBounds(DateOf(ToDatetime(filetime)), 1601, 60057);
  }
}
