/**
 * UTC rendering of a Unix epoch in the layout `2006-01-02T15:04:05Z`, as Go's
 * `time.Unix(ts, 0).UTC().Format(...)` produces it: whole days are counted from
 * 1970-01-01 on the proleptic Gregorian calendar, the rest of the seconds give
 * the time of day.
 */
module UtcTime {
  import opened Wrappers
  import opened Decimal

  const SecondsPerDay: int := 86400
  /** Days in one 400-year Gregorian cycle. */
  const DaysPerEra: int := 146097
  /** Days from 0000-03-01 to 1970-01-01. */
  const MarchZeroToEpoch: int := 719468

  predicate IsLeapYear(y: int) {
    y % 4 == 0 && (y % 100 != 0 || y % 400 == 0)
  }

  function DaysInMonth(y: int, m: int): (n: int)
    requires 1 <= m <= 12
    ensures 28 <= n <= 31
  {
    if m == 2 then (if IsLeapYear(y) then 29 else 28)
    else if m == 4 || m == 6 || m == 9 || m == 11 then 30
    else 31
  }

  datatype DateTime = DateTime(year: int, month: int, day: int, hour: int, minute: int, second: int)

  /** A calendar date and time of day that exists in UTC. */
  predicate ValidDateTime(t: DateTime) {
    1 <= t.month <= 12 && 1 <= t.day <= DaysInMonth(t.year, t.month) &&
    0 <= t.hour < 24 && 0 <= t.minute < 60 && 0 <= t.second < 60
  }

  // Years are counted from March 1, so that a leap day is the last day of its year.
  // Month `mp` of such a year is March for 0 up to February for 11.

  /** Days of a March-based year before its month `mp`. */
  function MarchMonthStart(mp: int): int
    requires 0 <= mp <= 11
  {
    if mp == 0 then 0 else if mp == 1 then 31 else if mp == 2 then 61
    else if mp == 3 then 92 else if mp == 4 then 122 else if mp == 5 then 153
    else if mp == 6 then 184 else if mp == 7 then 214 else if mp == 8 then 245
    else if mp == 9 then 275 else if mp == 10 then 306 else 337
  }

  /** The month of a March-based year that holds its day `doy`. */
  function MarchMonthOf(doy: int): (mp: int)
    requires 0 <= doy
    ensures 0 <= mp <= 11 && MarchMonthStart(mp) <= doy
    ensures mp < 11 ==> doy < MarchMonthStart(mp + 1)
  {
    if doy < 31 then 0 else if doy < 61 then 1 else if doy < 92 then 2
    else if doy < 122 then 3 else if doy < 153 then 4 else if doy < 184 then 5
    else if doy < 214 then 6 else if doy < 245 then 7 else if doy < 275 then 8
    else if doy < 306 then 9 else if doy < 337 then 10 else 11
  }

  /** Days of a 400-year cycle before its March-based year `yoe`. */
  function YearStart(yoe: int): int
    requires 0 <= yoe
  {
    365 * yoe + yoe / 4 - yoe / 100
  }

  /** Days in March-based year `yoe`, which ends in February of civil year `yoe + 1`. */
  function MarchYearLength(yoe: int): int {
    if IsLeapYear(yoe + 1) then 366 else 365
  }

  /**
   * Splits a day of a 400-year cycle into its March-based year and the day of that
   * year, by cutting off centuries, 4-year cycles and single years in turn.
   */
  function YearOfEra(doe: int): (r: (int, int))
    requires 0 <= doe < DaysPerEra
    ensures 0 <= r.0 < 400 && 0 <= r.1 < MarchYearLength(r.0)
    ensures doe == YearStart(r.0) + r.1
  {
    // The last century of a cycle, and the last year of a 4-year cycle, are one day longer.
    var c := if doe / 36524 < 3 then doe / 36524 else 3;
    var r1 := doe - 36524 * c;
    var q := r1 / 1461;
    var r2 := r1 - 1461 * q;
    var yy := if r2 / 365 < 3 then r2 / 365 else 3;
    CenturyCut(doe, c, r1);
    QuadCut(r1, q, r2);
    YearCut(r2, yy);
    YearStartOfParts(c, q, yy);
    assert r2 - 365 * yy == 365 && q == 24 ==> c == 3;
    LeapOfParts(c, q, yy, r2 - 365 * yy);
    (100 * c + 4 * q + yy, r2 - 365 * yy)
  }

  lemma CenturyCut(doe: int, c: int, r1: int)
    requires 0 <= doe < DaysPerEra
    requires c == (if doe / 36524 < 3 then doe / 36524 else 3) && r1 == doe - 36524 * c
    ensures 0 <= c <= 3 && 0 <= r1 <= 36524 && (c < 3 ==> r1 < 36524)
  {
  }

  lemma QuadCut(r1: int, q: int, r2: int)
    requires 0 <= r1 <= 36524 && q == r1 / 1461 && r2 == r1 - 1461 * q
    ensures 0 <= q <= 24 && 0 <= r2 < 1461
  {
  }

  lemma YearCut(r2: int, yy: int)
    requires 0 <= r2 < 1461 && yy == (if r2 / 365 < 3 then r2 / 365 else 3)
    ensures 0 <= yy <= 3 && 0 <= r2 - 365 * yy <= 365 && (r2 - 365 * yy == 365 ==> yy == 3)
  {
  }

  /** Where the year made of `c` centuries, `q` 4-year cycles and `yy` years starts. */
  lemma YearStartOfParts(c: int, q: int, yy: int)
    requires 0 <= c <= 3 && 0 <= q <= 24 && 0 <= yy <= 3
    ensures YearStart(100 * c + 4 * q + yy) == 36524 * c + 1461 * q + 365 * yy
  {
    var yoe := 100 * c + 4 * q + yy;
    assert yoe == 4 * (25 * c + q) + yy;
    assert yoe / 4 == 25 * c + q;
    assert yoe == 100 * c + (4 * q + yy) && 4 * q + yy < 100;
    assert yoe / 100 == c;
  }

  /** The last year of a 4-year cycle ends in a leap February, except at the end of the first three centuries. */
  lemma LeapOfParts(c: int, q: int, yy: int, day: int)
    requires 0 <= c <= 3 && 0 <= q <= 24
    requires day == 365 ==> yy == 3 && (q == 24 ==> c == 3)
    ensures day == 365 ==> IsLeapYear(100 * c + 4 * q + yy + 1)
  {
    if day != 365 {
      return;
    }
    var y := 100 * c + 4 * q + 4;
    assert y == 4 * (25 * c + q + 1);
    if q < 24 {
      assert y == 100 * c + 4 * (q + 1) && 0 < 4 * (q + 1) < 100;
    } else {
      assert y == 400;
    }
  }

  datatype Date = Date(year: int, month: int, day: int)

  /** Civil month of month `mp` of a March-based year. */
  function CivilMonth(mp: int): int {
    if mp < 10 then mp + 3 else mp - 9
  }

  /** Day `doy` of a March-based year falls on a day its month has. */
  lemma MarchDayInMonth(doy: int, y: int)
    requires 0 <= doy < (if IsLeapYear(y) then 366 else 365)
    ensures var mp := MarchMonthOf(doy);
            1 <= CivilMonth(mp) <= 12 && doy - MarchMonthStart(mp) + 1 <= DaysInMonth(y, CivilMonth(mp))
  {
  }

  // Adding whole multiples of 4, 100 or 400 leaves the remainder modulo each as it was.

  lemma ModShift4(a: int, k: int)
    ensures (4 * a + k) % 4 == k % 4
  {
  }

  lemma ModShift100(a: int, k: int)
    ensures (100 * a + k) % 100 == k % 100
  {
  }

  lemma ModShift400(a: int, k: int)
    ensures (400 * a + k) % 400 == k % 400
  {
  }

  // Division by the calendar's fixed periods, one fact per lemma.

  lemma Div400(q: int, r: int)
    requires 0 <= r < 400
    ensures (400 * q + r) / 400 == q
  {
  }

  lemma Mod400(q: int, r: int)
    requires 0 <= r < 400
    ensures (400 * q + r) % 400 == r
  {
  }

  lemma DivEra(q: int, r: int)
    requires 0 <= r < DaysPerEra
    ensures (q * DaysPerEra + r) / DaysPerEra == q
  {
  }

  lemma ModEra(q: int, r: int)
    requires 0 <= r < DaysPerEra
    ensures (q * DaysPerEra + r) % DaysPerEra == r
  {
  }

  lemma DivDay(q: int, r: int)
    requires 0 <= r < SecondsPerDay
    ensures (q * SecondsPerDay + r) / SecondsPerDay == q
  {
  }

  lemma ModDay(q: int, r: int)
    requires 0 <= r < SecondsPerDay
    ensures (q * SecondsPerDay + r) % SecondsPerDay == r
  {
  }

  lemma Split400(n: int)
    ensures n == 400 * (n / 400) + n % 400 && 0 <= n % 400 < 400
  {
  }

  lemma SplitEra(n: int)
    ensures n == (n / DaysPerEra) * DaysPerEra + n % DaysPerEra && 0 <= n % DaysPerEra < DaysPerEra
  {
  }

  lemma SplitDay(e: int)
    ensures e == (e / SecondsPerDay) * SecondsPerDay + e % SecondsPerDay
  {
  }

  /** Hours, minutes and seconds of a second of the day add back up to it. */
  lemma SplitTimeOfDay(sod: int)
    requires 0 <= sod < SecondsPerDay
    ensures sod / 3600 * 3600 + sod % 3600 / 60 * 60 + sod % 60 == sod
  {
  }

  lemma HourOf(h: int, mi: int, sec: int)
    requires 0 <= h < 24 && 0 <= mi < 60 && 0 <= sec < 60
    ensures (h * 3600 + mi * 60 + sec) / 3600 == h
  {
  }

  lemma MinuteOf(h: int, mi: int, sec: int)
    requires 0 <= h < 24 && 0 <= mi < 60 && 0 <= sec < 60
    ensures (h * 3600 + mi * 60 + sec) % 3600 / 60 == mi
  {
    assert (h * 3600 + mi * 60 + sec) % 3600 == mi * 60 + sec;
  }

  lemma SecondOf(h: int, mi: int, sec: int)
    requires 0 <= h < 24 && 0 <= mi < 60 && 0 <= sec < 60
    ensures (h * 3600 + mi * 60 + sec) % 60 == sec
  {
    assert h * 3600 + mi * 60 + sec == 60 * (60 * h + mi) + sec;
  }

  lemma LeapYearPeriodic(era: int, k: int)
    ensures IsLeapYear(400 * era + k) == IsLeapYear(k)
  {
    ModShift4(100 * era, k);
    ModShift100(4 * era, k);
    ModShift400(era, k);
    assert 400 * era + k == 4 * (100 * era) + k == 100 * (4 * era) + k;
  }

  /** The civil date of day `doe` of the 400-year cycle `era`, counted from 0000-03-01. */
  function DateInEra(era: int, doe: int): (r: Date)
    requires 0 <= doe < DaysPerEra
    ensures 1 <= r.month <= 12 && 1 <= r.day <= DaysInMonth(r.year, r.month)
  {
    var (yoe, doy) := YearOfEra(doe);
    var mp := MarchMonthOf(doy);
    var y := 400 * era + yoe + (if mp >= 10 then 1 else 0);
    LeapYearPeriodic(era, yoe + 1);
    MarchDayInMonth(doy, 400 * era + yoe + 1);
    Date(y, CivilMonth(mp), doy - MarchMonthStart(mp) + 1)
  }

  /** The civil date `z` days after 1970-01-01 (before it for negative `z`). */
  function DateOfDays(z: int): (r: Date)
    ensures 1 <= r.month <= 12 && 1 <= r.day <= DaysInMonth(r.year, r.month)
  {
    var s := z + MarchZeroToEpoch;
    DateInEra(s / DaysPerEra, s % DaysPerEra)
  }

  /** The number of days from 1970-01-01 to the civil date `y`-`m`-`d`. */
  function DaysOfDate(y: int, m: int, d: int): int
    requires 1 <= m <= 12
  {
    var yp := if m <= 2 then y - 1 else y;
    var mp := if m > 2 then m - 3 else m + 9;
    (yp / 400) * DaysPerEra + YearStart(yp % 400) + MarchMonthStart(mp) + d - 1 - MarchZeroToEpoch
  }

  /** Counting the days to the date of day `z` gives `z` back. */
  lemma DaysOfDateOfDays(z: int)
    ensures var r := DateOfDays(z); DaysOfDate(r.year, r.month, r.day) == z
  {
    var s := z + MarchZeroToEpoch;
    var era := s / DaysPerEra;
    var (yoe, doy) := YearOfEra(s % DaysPerEra);
    var mp := MarchMonthOf(doy);
    var r := DateOfDays(z);
    assert r == DateInEra(era, s % DaysPerEra);
    SplitEra(s);
    assert s == era * DaysPerEra + YearStart(yoe) + doy;
    assert r == Date(400 * era + yoe + (if mp >= 10 then 1 else 0), CivilMonth(mp), doy - MarchMonthStart(mp) + 1);
    var yp := if r.month <= 2 then r.year - 1 else r.year;
    assert (if r.month > 2 then r.month - 3 else r.month + 9) == mp;
    assert yp == 400 * era + yoe;
    Div400(era, yoe);
    Mod400(era, yoe);
  }

  /** Only the last March-based year of a 4-year cycle ends in a leap February. */
  lemma LeapOnlyLastOfFour(yoe: int)
    requires 0 <= yoe && yoe % 4 < 3
    ensures !IsLeapYear(yoe + 1)
  {
    assert yoe + 1 == 4 * (yoe / 4) + (yoe % 4 + 1);
  }

  /** Within a 400-year cycle, only the last century ends in a leap February. */
  lemma CenturyEndNotLeap(c: int)
    requires 0 <= c < 3
    ensures !IsLeapYear(100 * c + 100)
  {
  }

  // The three cuts `YearOfEra` makes, each undone on its own.

  lemma CenturyOfDay(doe: int, c: int, rest: int)
    requires doe == 36524 * c + rest
    requires 0 <= c <= 3 && 0 <= rest && (c < 3 ==> rest < 36524)
    ensures (if doe / 36524 < 3 then doe / 36524 else 3) == c
  {
  }

  lemma QuadOfDay(r1: int, q: int, rest: int)
    requires r1 == 1461 * q + rest && 0 <= rest < 1461
    ensures r1 / 1461 == q
  {
  }

  lemma YearOfQuadDay(r2: int, yy: int, doy: int)
    requires r2 == 365 * yy + doy
    requires 0 <= yy <= 3 && 0 <= doy && (yy < 3 ==> doy < 365)
    ensures (if r2 / 365 < 3 then r2 / 365 else 3) == yy
  {
  }

  /** A year of a 400-year cycle as centuries, 4-year cycles and years, and where it starts. */
  lemma YearStartParts(yoe: int)
    requires 0 <= yoe < 400
    ensures yoe == 100 * (yoe / 100) + 4 * (yoe % 100 / 4) + yoe % 4
    ensures 0 <= yoe / 100 <= 3 && 0 <= yoe % 100 / 4 <= 24
    ensures YearStart(yoe) == 36524 * (yoe / 100) + 1461 * (yoe % 100 / 4) + 365 * (yoe % 4)
  {
    var c, q, yy := yoe / 100, yoe % 100 / 4, yoe % 4;
    assert yoe == 100 * c + 4 * q + yy;
    assert yoe / 4 == 25 * c + q;
  }

  /** A year of a 400-year cycle and a day of that year are recovered from the day of the cycle. */
  lemma YearOfEraOfYearStart(yoe: int, doy: int)
    requires 0 <= yoe < 400 && 0 <= doy < MarchYearLength(yoe)
    ensures 0 <= YearStart(yoe) + doy < DaysPerEra
    ensures YearOfEra(YearStart(yoe) + doy) == (yoe, doy)
  {
    var c, q, yy := yoe / 100, yoe % 100 / 4, yoe % 4;
    YearStartParts(yoe);
    var doe := YearStart(yoe) + doy;
    if yy < 3 {
      LeapOnlyLastOfFour(yoe);
    }
    if c < 3 && q == 24 && yy == 3 {
      CenturyEndNotLeap(c);
      assert yoe + 1 == 100 * c + 100;
    }
    assert doy <= 364 || yy == 3;
    YearOfEraOfParts(doe, c, q, yy, doy);
  }

  /** Cutting a day of a 400-year cycle undoes its composition from the three cuts. */
  lemma YearOfEraOfParts(doe: int, c: int, q: int, yy: int, doy: int)
    requires 0 <= c <= 3 && 0 <= q <= 24 && 0 <= yy <= 3 && 0 <= doy <= 365
    requires yy < 3 ==> doy < 365
    requires c < 3 ==> 1461 * q + 365 * yy + doy < 36524
    requires doe == 36524 * c + 1461 * q + 365 * yy + doy
    ensures 0 <= doe < DaysPerEra
    ensures YearOfEra(doe) == (100 * c + 4 * q + yy, doy)
  {
    var r2 := 365 * yy + doy;
    var rest := 1461 * q + r2;
    CenturyOfDay(doe, c, rest);
    var r1 := doe - 36524 * c;
    assert r1 == rest;
    QuadOfDay(r1, q, r2);
    assert r1 - 1461 * q == r2;
    YearOfQuadDay(r2, yy, doy);
  }

  /** Day `d` of month `mp` of a March-based year lies in that month, and in the year. */
  lemma MarchMonthOfDay(mp: int, d: int, y: int)
    requires 0 <= mp <= 11 && 1 <= d <= DaysInMonth(y, CivilMonth(mp))
    ensures MarchMonthOf(MarchMonthStart(mp) + d - 1) == mp
    ensures MarchMonthStart(mp) + d - 1 < (if mp == 11 && IsLeapYear(y) then 366 else 365)
  {
  }

  /** The date of a day given as a 400-year cycle, a March-based year in it and a day of that year. */
  lemma DateOfDaysOfParts(era: int, yoe: int, doy: int, z: int, date: Date)
    requires 0 <= yoe < 400 && 0 <= doy < MarchYearLength(yoe)
    requires z == era * DaysPerEra + YearStart(yoe) + doy - MarchZeroToEpoch
    requires var mp := MarchMonthOf(doy);
             date == Date(400 * era + yoe + (if mp >= 10 then 1 else 0), CivilMonth(mp), doy - MarchMonthStart(mp) + 1)
    ensures DateOfDays(z) == date
  {
    YearOfEraOfYearStart(yoe, doy);
    var doe := YearStart(yoe) + doy;
    assert z + MarchZeroToEpoch == era * DaysPerEra + doe;
    DivEra(era, doe);
    ModEra(era, doe);
    assert (z + MarchZeroToEpoch) / DaysPerEra == era;
    assert (z + MarchZeroToEpoch) % DaysPerEra == doe;
    assert DateOfDays(z) == DateInEra(era, doe);
    assert YearOfEra(doe) == (yoe, doy);
  }

  /** The date of the day count of a valid date is that date. */
  lemma DateOfDaysOfDate(y: int, m: int, d: int)
    requires 1 <= m <= 12 && 1 <= d <= DaysInMonth(y, m)
    ensures DateOfDays(DaysOfDate(y, m, d)) == Date(y, m, d)
  {
    var yp := if m <= 2 then y - 1 else y;
    var mp := if m > 2 then m - 3 else m + 9;
    assert CivilMonth(mp) == m;
    var era, yoe := yp / 400, yp % 400;
    Split400(yp);
    var doy := MarchMonthStart(mp) + d - 1;
    MarchMonthOfDay(mp, d, y);
    LeapYearPeriodic(era, yoe + 1);
    assert mp == 11 ==> y == 400 * era + yoe + 1;
    assert doy < MarchYearLength(yoe);
    assert MarchMonthOf(doy) == mp;
    assert 400 * era + yoe + (if mp >= 10 then 1 else 0) == y;
    assert doy - MarchMonthStart(mp) + 1 == d;
    var z := era * DaysPerEra + YearStart(yoe) + doy - MarchZeroToEpoch;
    DateOfDaysOfParts(era, yoe, doy, z, Date(y, m, d));
    assert DaysOfDate(y, m, d) == z;
  }

  /** The date and time of day of epoch second `e`. */
  function DateTimeOf(e: int): (t: DateTime)
    ensures ValidDateTime(t)
  {
    var date := DateOfDays(e / SecondsPerDay);
    var sod := e % SecondsPerDay;
    DateTime(date.year, date.month, date.day, sod / 3600, sod % 3600 / 60, sod % 60)
  }

  /** The epoch second of a date and time of day. */
  function EpochOf(t: DateTime): int
    requires 1 <= t.month <= 12
  {
    DaysOfDate(t.year, t.month, t.day) * SecondsPerDay + t.hour * 3600 + t.minute * 60 + t.second
  }

  /** The date and time that `DateTimeOf` gives for `e` are exactly `e` seconds after the epoch. */
  lemma EpochOfDateTimeOf(e: int)
    ensures EpochOf(DateTimeOf(e)) == e
  {
    var days := e / SecondsPerDay;
    var sod := e % SecondsPerDay;
    var t := DateTimeOf(e);
    DaysOfDateOfDays(days);
    SplitTimeOfDay(sod);
    SplitDay(e);
  }

  /** Every valid date and time is what `DateTimeOf` gives for its epoch second. */
  lemma DateTimeOfEpochOf(t: DateTime)
    requires ValidDateTime(t)
    ensures DateTimeOf(EpochOf(t)) == t
  {
    var days := DaysOfDate(t.year, t.month, t.day);
    var sod := t.hour * 3600 + t.minute * 60 + t.second;
    var e := EpochOf(t);
    assert 0 <= sod < SecondsPerDay;
    DivDay(days, sod);
    ModDay(days, sod);
    assert e / SecondsPerDay == days && e % SecondsPerDay == sod;
    HourOf(t.hour, t.minute, t.second);
    MinuteOf(t.hour, t.minute, t.second);
    SecondOf(t.hour, t.minute, t.second);
    DateOfDaysOfDate(t.year, t.month, t.day);
  }

  /** The year as Go's layout writes it: at least four digits, with a minus sign before years below zero. */
  function YearText(y: int): (s: string)
    ensures |s| >= 4 && (s[0] == '-' <==> y < 0)
    ensures var digits := if y < 0 then s[1..] else s;
            AllDigits(digits) && ValueOf(digits) == (if y < 0 then -y else y)
    ensures 0 <= y <= 9999 ==> |s| == 4
  {
    var p := Padded(if y < 0 then -y else y, 4);
    PaddedValue(if y < 0 then -y else y, 4);
    PaddedWidth(if y < 0 then -y else y, 4);
    assert Pow10(4) == 10000;
    assert ("-" + p)[1..] == p;
    if y < 0 then "-" + p else p
  }

  /** The layout's fields in order, with its separators and its final `Z`. */
  function Layout(y: string, mo: string, d: string, h: string, mi: string, sec: string): string
  {
    y + "-" + mo + "-" + d + "T" + h + ":" + mi + ":" + sec + "Z"
  }

  lemma LayoutEnds(y: string, mo: string, d: string, h: string, mi: string, sec: string)
    ensures var s := Layout(y, mo, d, h, mi, sec); |s| >= 1 && s[|s| - 1] == 'Z'
  {
  }

  lemma LayoutNoSpace(y: string, mo: string, d: string, h: string, mi: string, sec: string)
    requires ' ' !in y && ' ' !in mo && ' ' !in d && ' ' !in h && ' ' !in mi && ' ' !in sec
    ensures ' ' !in Layout(y, mo, d, h, mi, sec)
  {
  }

  /** With a four-digit year and two-digit fields, each field sits at a fixed position. */
  lemma LayoutSlices(y: string, mo: string, d: string, h: string, mi: string, sec: string)
    requires |y| == 4 && |mo| == 2 && |d| == 2 && |h| == 2 && |mi| == 2 && |sec| == 2
    ensures var s := Layout(y, mo, d, h, mi, sec);
            |s| == 20 && s[4] == '-' && s[7] == '-' && s[10] == 'T' && s[13] == ':' && s[16] == ':' && s[19] == 'Z' &&
            s[..4] == y && s[5..7] == mo && s[8..10] == d && s[11..13] == h && s[14..16] == mi && s[17..19] == sec
  {
    LayoutSeparators(y, mo, d, h, mi, sec);
    LayoutYear(y, mo, d, h, mi, sec);
    LayoutMonth(y, mo, d, h, mi, sec);
    LayoutDay(y, mo, d, h, mi, sec);
    LayoutHour(y, mo, d, h, mi, sec);
    LayoutMinute(y, mo, d, h, mi, sec);
    LayoutSecond(y, mo, d, h, mi, sec);
  }

  lemma LayoutSeparators(y: string, mo: string, d: string, h: string, mi: string, sec: string)
    requires |y| == 4 && |mo| == 2 && |d| == 2 && |h| == 2 && |mi| == 2 && |sec| == 2
    ensures var s := Layout(y, mo, d, h, mi, sec);
            |s| == 20 && s[4] == '-' && s[7] == '-' && s[10] == 'T' && s[13] == ':' && s[16] == ':' && s[19] == 'Z'
  {
  }

  lemma LayoutYear(y: string, mo: string, d: string, h: string, mi: string, sec: string)
    requires |y| == 4 && |mo| == 2 && |d| == 2 && |h| == 2 && |mi| == 2 && |sec| == 2
    ensures Layout(y, mo, d, h, mi, sec)[..4] == y
  {
  }

  lemma LayoutMonth(y: string, mo: string, d: string, h: string, mi: string, sec: string)
    requires |y| == 4 && |mo| == 2 && |d| == 2 && |h| == 2 && |mi| == 2 && |sec| == 2
    ensures Layout(y, mo, d, h, mi, sec)[5..7] == mo
  {
  }

  lemma LayoutDay(y: string, mo: string, d: string, h: string, mi: string, sec: string)
    requires |y| == 4 && |mo| == 2 && |d| == 2 && |h| == 2 && |mi| == 2 && |sec| == 2
    ensures Layout(y, mo, d, h, mi, sec)[8..10] == d
  {
  }

  lemma LayoutHour(y: string, mo: string, d: string, h: string, mi: string, sec: string)
    requires |y| == 4 && |mo| == 2 && |d| == 2 && |h| == 2 && |mi| == 2 && |sec| == 2
    ensures Layout(y, mo, d, h, mi, sec)[11..13] == h
  {
  }

  lemma LayoutMinute(y: string, mo: string, d: string, h: string, mi: string, sec: string)
    requires |y| == 4 && |mo| == 2 && |d| == 2 && |h| == 2 && |mi| == 2 && |sec| == 2
    ensures Layout(y, mo, d, h, mi, sec)[14..16] == mi
  {
  }

  lemma LayoutSecond(y: string, mo: string, d: string, h: string, mi: string, sec: string)
    requires |y| == 4 && |mo| == 2 && |d| == 2 && |h| == 2 && |mi| == 2 && |sec| == 2
    ensures Layout(y, mo, d, h, mi, sec)[17..19] == sec
  {
  }

  lemma DigitsNoSpace(s: string)
    requires AllDigits(s)
    ensures ' ' !in s
  {
  }

  lemma YearTextNoSpace(y: int)
    ensures ' ' !in YearText(y)
  {
    DigitsNoSpace(Padded(if y < 0 then -y else y, 4));
  }

  /** A date and time in the layout `2006-01-02T15:04:05Z`. */
  function FormatDateTime(t: DateTime): (s: string)
    requires ValidDateTime(t)
    ensures |s| >= 1 && s[|s| - 1] == 'Z'
    ensures ' ' !in s
  {
    var y, mo, d := YearText(t.year), Padded(t.month, 2), Padded(t.day, 2);
    var h, mi, sec := Padded(t.hour, 2), Padded(t.minute, 2), Padded(t.second, 2);
    LayoutEnds(y, mo, d, h, mi, sec);
    YearTextNoSpace(t.year);
    DigitsNoSpace(mo);
    DigitsNoSpace(d);
    DigitsNoSpace(h);
    DigitsNoSpace(mi);
    DigitsNoSpace(sec);
    LayoutNoSpace(y, mo, d, h, mi, sec);
    Layout(y, mo, d, h, mi, sec)
  }

  /**
   * Epoch second `e` in the layout `2006-01-02T15:04:05Z`: the UTC date and time of
   * `e`, in fields of two digits after a year of at least four, with a literal `Z`.
   */
  function FormatUTC(e: int): (s: string)
    ensures |s| >= 1 && s[|s| - 1] == 'Z'
    ensures ' ' !in s
  {
    FormatDateTime(DateTimeOf(e))
  }

  /** The shape of the layout for a four-digit year: `dddd-dd-ddTdd:dd:ddZ`. */
  predicate IsLayout(s: string) {
    |s| == 20 && s[4] == '-' && s[7] == '-' && s[10] == 'T' && s[13] == ':' && s[16] == ':' && s[19] == 'Z' &&
    AllDigits(s[..4]) && AllDigits(s[5..7]) && AllDigits(s[8..10]) &&
    AllDigits(s[11..13]) && AllDigits(s[14..16]) && AllDigits(s[17..19])
  }

  /** The fields written in a string of the layout's shape. */
  function LayoutFields(s: string): DateTime
    requires IsLayout(s)
  {
    DateTime(ValueOf(s[..4]), ValueOf(s[5..7]), ValueOf(s[8..10]),
             ValueOf(s[11..13]), ValueOf(s[14..16]), ValueOf(s[17..19]))
  }

  /** Reads a timestamp of the layout with a four-digit year back as an epoch second. */
  function ParseUTC(s: string): (r: Option<int>)
    ensures r.Some? ==> IsLayout(s) && ValidDateTime(LayoutFields(s)) && DateTimeOf(r.value) == LayoutFields(s)
  {
    if IsLayout(s) && ValidDateTime(LayoutFields(s)) then
      DateTimeOfEpochOf(LayoutFields(s));
      Some(EpochOf(LayoutFields(s)))
    else None
  }

  /**
   * For the years 0000 to 9999 the formatted timestamp has the layout's exact shape,
   * and reading it back gives the epoch second that was formatted.
   */
  lemma ParseFormatUTC(e: int)
    requires 0 <= DateTimeOf(e).year <= 9999
    ensures IsLayout(FormatUTC(e))
    ensures ParseUTC(FormatUTC(e)) == Some(e)
  {
    var t := DateTimeOf(e);
    var y, mo, d := Padded(t.year, 4), Padded(t.month, 2), Padded(t.day, 2);
    var h, mi, sec := Padded(t.hour, 2), Padded(t.minute, 2), Padded(t.second, 2);
    PaddedExact(t.year, 4);
    PaddedExact(t.month, 2);
    PaddedExact(t.day, 2);
    PaddedExact(t.hour, 2);
    PaddedExact(t.minute, 2);
    PaddedExact(t.second, 2);
    var s := FormatUTC(e);
    assert s == Layout(y, mo, d, h, mi, sec);
    LayoutSlices(y, mo, d, h, mi, sec);
    assert LayoutFields(s) == t;
    EpochOfDateTimeOf(e);
  }

  /** One billion seconds after the epoch is 2001-09-09 01:46:40 UTC. */
  lemma BillionDateTime()
    ensures DateTimeOf(1000000000) == DateTime(2001, 9, 9, 1, 46, 40)
  {
    var t := DateTime(2001, 9, 9, 1, 46, 40);
    assert DaysOfDate(2001, 9, 9) == 11574;
    assert EpochOf(t) == 1000000000;
    DateTimeOfEpochOf(t);
  }

  lemma PaddedOneDigit(n: nat)
    requires n < 10
    ensures Padded(n, 2) == ['0', DigitChar(n)]
  {
    assert Zeros(1) == "0";
  }

  lemma PaddedTwoDigits(n: nat)
    requires 10 <= n < 100
    ensures Padded(n, 2) == [DigitChar(n / 10), DigitChar(n % 10)]
  {
    assert NatText(n / 10) == [DigitChar(n / 10)];
  }

  lemma YearText2001()
    ensures YearText(2001) == "2001"
  {
    assert NatText(2) == "2";
    assert NatText(20) == NatText(2) + "0";
    assert NatText(200) == NatText(20) + "0";
    assert NatText(2001) == NatText(200) + "1";
  }

  lemma BillionFields(t: DateTime)
    requires t == DateTime(2001, 9, 9, 1, 46, 40)
    ensures FormatDateTime(t) == Layout("2001", "09", "09", "01", "46", "40")
  {
    YearText2001();
    PaddedOneDigit(9);
    PaddedOneDigit(1);
    PaddedTwoDigits(46);
    PaddedTwoDigits(40);
  }

  lemma BillionLayout()
    ensures Layout("2001", "09", "09", "01", "46", "40") == "2001-09-09T01:46:40Z"
  {
  }

  /** One billion seconds after the epoch is written 2001-09-09T01:46:40Z. */
  lemma FormatUTCBillion()
    ensures FormatUTC(1000000000) == "2001-09-09T01:46:40Z"
  {
    var t := DateTime(2001, 9, 9, 1, 46, 40);
    BillionDateTime();
    BillionFields(t);
    BillionLayout();
  }
}
