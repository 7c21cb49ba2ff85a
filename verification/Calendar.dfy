/** Days since 1970-01-01 as dates of the proleptic Gregorian calendar. */
module Calendar {
  datatype Date = Date(year: int, month: int, day: int)

  predicate Leap(y: int) {
    y % 4 == 0 && (y % 100 != 0 || y % 400 == 0)
  }

  function LeapDay(y: int): int {
    if Leap(y) then 1 else 0
  }

  function DaysIn(y: int, m: int): int
    requires 1 <= m <= 12
  {
    if m == 2 then 28 + LeapDay(y)
    else if m == 4 || m == 6 || m == 9 || m == 11 then 30
    else 31
  }

  predicate Valid(d: Date) {
    1 <= d.month <= 12 && 1 <= d.day <= DaysIn(d.year, d.month)
  }

  /** The day after, read off a calendar. */
  function Next(d: Date): Date
    requires Valid(d)
  {
    if d.day < DaysIn(d.year, d.month) then d.(day := d.day + 1)
    else if d.month < 12 then Date(d.year, d.month + 1, 1)
    else Date(d.year + 1, 1, 1)
  }

  predicate Earlier(a: Date, b: Date) {
    a.year < b.year
    || (a.year == b.year && (a.month < b.month || (a.month == b.month && a.day < b.day)))
  }

  // ----- counting days by the leap-year rule -----

  /** Days from 1970-01-01 to the first of January of year `y`, year by year. */
  function YearStart(y: int): int
    decreases if y < 1970 then 1970 - y else y - 1970
  {
    if y == 1970 then 0
    else if y > 1970 then YearStart(y - 1) + 365 + LeapDay(y - 1)
    else YearStart(y + 1) - 365 - LeapDay(y)
  }

  /** Days of the year before month `m`, month by month. */
  function MonthStart(y: int, m: int): int
    requires 1 <= m <= 12
    decreases m
  {
    if m == 1 then 0 else MonthStart(y, m - 1) + DaysIn(y, m - 1)
  }

  function DayNumber(d: Date): int
    requires 1 <= d.month <= 12
  {
    YearStart(d.year) + MonthStart(d.year, d.month) + d.day - 1
  }

  /** Multiples of 4 that are leap years, up to `n`. */
  function LeapsUpTo(n: int): int {
    n / 4 - n / 100 + n / 400
  }

  lemma LeapsStep(y: int)
    ensures LeapsUpTo(y) == LeapsUpTo(y - 1) + LeapDay(y)
  {
    DivStep(y, 4);
    DivStep(y, 100);
    DivStep(y, 400);
  }

  lemma DivStep(y: int, k: int)
    requires k > 0
    ensures y / k == (y - 1) / k + if y % k == 0 then 1 else 0
  {
    var q, r := y / k, y % k;
    assert y == k * q + r;
    if r == 0 {
      DivIs(y - 1, k, q - 1, k - 1);
    } else {
      DivIs(y - 1, k, q, r - 1);
    }
  }

  lemma DivIs(n: int, k: int, q: int, r: int)
    requires k > 0 && 0 <= r < k && n == k * q + r
    ensures n / k == q && n % k == r
  {
    var d := n / k - q;
    assert n == k * (n / k) + n % k;
    assert k * d == r - n % k;
    MulGrows(k, d);
  }

  lemma MulGrows(k: int, d: int)
    requires k > 0
    ensures (d >= 1 ==> k * d >= k) && (d <= -1 ==> k * d <= -k)
  {}

  lemma {:induction false} YearStartIs(y: int)
    ensures YearStart(y) == 365 * (y - 1970) + LeapsUpTo(y - 1) - 477
    decreases if y < 1970 then 1970 - y else y - 1970
  {
    if y > 1970 {
      YearStartIs(y - 1);
      LeapsStep(y - 1);
    } else if y < 1970 {
      YearStartIs(y + 1);
      LeapsStep(y);
    }
  }

  lemma YearStep(y: int)
    ensures YearStart(y + 1) == YearStart(y) + 365 + LeapDay(y)
  {
    if y < 1970 {
      assert YearStart(y) == YearStart(y + 1) - 365 - LeapDay(y);
    }
  }

  lemma MonthStartIs(y: int, m: int)
    requires 1 <= m <= 12
    ensures MonthStart(y, m) ==
            [0, 31, 59, 90, 120, 151, 181, 212, 243, 273, 304, 334][m - 1] + if m <= 2 then 0 else LeapDay(y)
    decreases m
  {
    if m > 1 {
      MonthStartIs(y, m - 1);
    }
  }

  // ----- the conversion -----

  /** The shifted epoch puts the leap day last in its year: years run from
      March, and eras of 400 such years all have the same length. */
  function CivilFromDays(days: int): Date {
    var z := days + 719468;
    DayOfEra(z / 146097, z % 146097)
  }

  /** The date of day `doe` of era `era`. */
  function DayOfEra(era: int, doe: int): Date {
    var yoe := YearOfEra(doe);
    FromMarch(yoe + era * 400, doe - MarchStart(yoe))
  }

  /** Day `doy` of the year that starts in March of `y`. */
  function FromMarch(y: int, doy: int): Date {
    var mp := (5 * doy + 2) / 153;
    var d := doy - (153 * mp + 2) / 5 + 1;
    var m := if mp < 10 then mp + 3 else mp - 9;
    Date(if m <= 2 then y + 1 else y, m, d)
  }

  /** First day of the March-based year `yoe` of an era. */
  function MarchStart(yoe: int): int {
    365 * yoe + yoe / 4 - yoe / 100
  }

  function YearOfEra(doe: int): int {
    (doe - doe / 1460 + doe / 36524 - doe / 146096) / 365
  }

  /** Century, four-year block and day in the block give the year directly. */
  lemma YearInBlock(c: int, q: int, s: int)
    requires 0 <= c <= 3 && 0 <= q <= 24 && 0 <= s <= 1460 && 1461 * q + s < 36524
    ensures var doe := 36524 * c + 1461 * q + s;
            YearOfEra(doe) == 100 * c + 4 * q + if s == 1460 then 3 else s / 365
  {
    var doe := 36524 * c + 1461 * q + s;
    var e := if 24 * c + q + s >= 1460 then 1 else 0;
    DivIs(doe, 146096, 0, doe);
    DivIs(doe, 36524, c, 1461 * q + s);
    DivIs(doe, 1460, 25 * c + q + e, 24 * c + q + s - 1460 * e);
    var k := if s == 1460 then 3 else s / 365;
    DivIs(36500 * c + 1460 * q + s - e, 365, 100 * c + 4 * q + k, s - e - 365 * k);
  }

  lemma BlockYearStart(c: int, q: int, k: int)
    requires 0 <= c <= 3 && 0 <= q <= 24 && 0 <= k <= 3
    ensures MarchStart(100 * c + 4 * q + k) == 36524 * c + 1461 * q + 365 * k
  {
    DivIs(100 * c + 4 * q + k, 4, 25 * c + q, k);
    DivIs(100 * c + 4 * q + k, 100, c, 4 * q + k);
  }

  lemma BlockEndsInLeapYear(c: int, q: int)
    requires 0 <= c <= 3 && 0 <= q < 24
    ensures Leap(100 * c + 4 * q + 4)
  {
    DivIs(100 * c + 4 * q + 4, 4, 25 * c + q + 1, 0);
    DivIs(100 * c + 4 * q + 4, 100, c, 4 * q + 4);
  }

  lemma DayInBlock(c: int, q: int, s: int)
    requires 0 <= c <= 3 && 0 <= q <= 24 && 0 <= s <= 1460 && 1461 * q + s < 36524
    ensures var doe := 36524 * c + 1461 * q + s;
            var yoe := YearOfEra(doe);
            0 <= yoe <= 399 && 0 <= doe - MarchStart(yoe) <= 364 + LeapDay(yoe + 1)
  {
    YearInBlock(c, q, s);
    BlockYearStart(c, q, if s == 1460 then 3 else s / 365);
    if s == 1460 {
      BlockEndsInLeapYear(c, q);
    }
  }

  /** Every day of an era falls in the year computed for it, and on day 365 of
      it only when the February at its end has 29 days. */
  lemma DayInYear(doe: int)
    requires 0 <= doe < 146097
    ensures var yoe := YearOfEra(doe);
            0 <= yoe <= 399 && 0 <= doe - MarchStart(yoe) <= 364 + LeapDay(yoe + 1)
  {
    if doe == 146096 {
      assert YearOfEra(146096) == 399 && MarchStart(399) == 145731 && Leap(400);
    } else {
      var c, q, s := BlockOf(doe);
      DayInBlock(c, q, s);
    }
  }

  lemma BlockOf(doe: int) returns (c: int, q: int, s: int)
    requires 0 <= doe < 146096
    ensures 0 <= c <= 3 && 0 <= q <= 24 && 0 <= s <= 1460 && 1461 * q + s < 36524
    ensures doe == 36524 * c + 1461 * q + s
  {
    c := doe / 36524;
    q, s := doe % 36524 / 1461, doe % 36524 % 1461;
  }

  /** Month and day from the day of a March-based year. */
  lemma MonthOfYear(doy: int)
    requires 0 <= doy <= 365
    ensures var mp := (5 * doy + 2) / 153;
            var start := (153 * mp + 2) / 5;
            && 0 <= mp <= 11
            && start == [0, 31, 61, 92, 122, 153, 184, 214, 245, 275, 306, 337][mp]
            && 0 <= doy - start
            && (mp < 11 ==> doy < [31, 61, 92, 122, 153, 184, 214, 245, 275, 306, 337][mp])
  {}

  /** The number of the day `doe` of era `era`. */
  lemma MarchIs(era: int, yoe: int)
    requires 0 <= yoe <= 399
    ensures var y := yoe + 400 * era;
            YearStart(y) + 59 + LeapDay(y) == 146097 * era + MarchStart(yoe) - 719468
    ensures LeapDay(yoe + 400 * era + 1) == LeapDay(yoe + 1)
  {
    var y := yoe + 400 * era;
    YearStartIs(y);
    LeapsStep(y);
    DivIs(y, 4, yoe / 4 + 100 * era, yoe % 4);
    DivIs(y, 100, yoe / 100 + 4 * era, yoe % 100);
    DivIs(y, 400, era, yoe);
    DivIs(y + 1, 4, (yoe + 1) / 4 + 100 * era, (yoe + 1) % 4);
    DivIs(y + 1, 100, (yoe + 1) / 100 + 4 * era, (yoe + 1) % 100);
    DivIs(y + 1, 400, (yoe + 1) / 400 + era, (yoe + 1) % 400);
  }

  lemma FromMarchIs(y: int, doy: int)
    requires 0 <= doy <= 364 + LeapDay(y + 1)
    ensures Valid(FromMarch(y, doy))
    ensures DayNumber(FromMarch(y, doy)) == YearStart(y) + 59 + LeapDay(y) + doy
  {
    MonthOfYear(doy);
    var d := FromMarch(y, doy);
    MonthStartIs(d.year, d.month);
    if d.month <= 2 {
      YearStep(y);
    }
  }

  lemma DayOfEraIs(era: int, doe: int)
    requires 0 <= doe < 146097
    ensures var d := DayOfEra(era, doe); Valid(d) && DayNumber(d) == 146097 * era + doe - 719468
  {
    DayInYear(doe);
    var yoe := YearOfEra(doe);
    MarchIs(era, yoe);
    FromMarchIs(yoe + era * 400, doe - MarchStart(yoe));
  }

  /** Every day number, negative ones included, becomes a valid date, and
      counting days up to that date gives the number back. */
  lemma CivilIsInverse(days: int)
    ensures Valid(CivilFromDays(days)) && DayNumber(CivilFromDays(days)) == days
  {
    var z := days + 719468;
    DayOfEraIs(z / 146097, z % 146097);
  }

  // ----- and back -----

  lemma {:induction false} YearStartGrows(a: int, b: int)
    requires a < b
    ensures YearStart(a) + 365 + LeapDay(a) <= YearStart(b)
    decreases b - a
  {
    YearStep(a);
    if a + 1 < b {
      YearStartGrows(a + 1, b);
    }
  }

  lemma {:induction false} MonthStartGrows(y: int, a: int, b: int)
    requires 1 <= a < b <= 12
    ensures MonthStart(y, a) + DaysIn(y, a) <= MonthStart(y, b)
    decreases b - a
  {
    if a + 1 < b {
      MonthStartGrows(y, a + 1, b);
    }
  }

  /** Counting days keeps the order of dates, so no two dates share a number. */
  lemma DayNumberGrows(a: Date, b: Date)
    requires Valid(a) && Valid(b)
    ensures Earlier(a, b) <==> DayNumber(a) < DayNumber(b)
    ensures DayNumber(a) == DayNumber(b) ==> a == b
  {
    if Earlier(a, b) {
      EarlierIsLess(a, b);
    } else if Earlier(b, a) {
      EarlierIsLess(b, a);
    } else {
      assert a == b;
    }
  }

  lemma WithinYear(d: Date)
    requires Valid(d)
    ensures YearStart(d.year) <= DayNumber(d) < YearStart(d.year) + 365 + LeapDay(d.year)
  {
    MonthStartIs(d.year, d.month);
  }

  lemma EarlierIsLess(a: Date, b: Date)
    requires Valid(a) && Valid(b) && Earlier(a, b)
    ensures DayNumber(a) < DayNumber(b)
  {
    if a.year < b.year {
      YearStartGrows(a.year, b.year);
      WithinYear(a);
      WithinYear(b);
    } else if a.month < b.month {
      MonthStartGrows(a.year, a.month, b.month);
    }
  }

  /** The conversion hits every date of the calendar. */
  lemma EveryDateIsReached(d: Date)
    requires Valid(d)
    ensures CivilFromDays(DayNumber(d)) == d
  {
    CivilIsInverse(DayNumber(d));
    DayNumberGrows(CivilFromDays(DayNumber(d)), d);
  }

  lemma StrictlyIncreasing(a: int, b: int)
    ensures a < b <==> Earlier(CivilFromDays(a), CivilFromDays(b))
  {
    CivilIsInverse(a);
    CivilIsInverse(b);
    DayNumberGrows(CivilFromDays(a), CivilFromDays(b));
  }

  /** One day more is the next date of the calendar. */
  lemma OneDayLater(days: int)
    ensures Valid(CivilFromDays(days)) && CivilFromDays(days + 1) == Next(CivilFromDays(days))
  {
    CivilIsInverse(days);
    var d := CivilFromDays(days);
    NextIsOneMore(d);
    EveryDateIsReached(Next(d));
  }

  lemma EpochIsDayZero()
    ensures CivilFromDays(0) == Date(1970, 1, 1)
  {
    EveryDateIsReached(Date(1970, 1, 1));
  }

  lemma NextIsOneMore(d: Date)
    requires Valid(d)
    ensures Valid(Next(d)) && DayNumber(Next(d)) == DayNumber(d) + 1
  {
    if d.day == DaysIn(d.year, d.month) && d.month == 12 {
      YearStep(d.year);
      MonthStartIs(d.year, 12);
    }
  }

  // ----- time of day -----

  datatype Utc = Utc(date: Date, hour: int, minute: int, second: int)

  function UnixUtc(secs: int): Utc {
    var days := secs / 86400;
    var rem := secs % 86400;
    Utc(CivilFromDays(days), rem / 3600, rem % 3600 / 60, rem % 60)
  }

  /** The rendered fields are a valid date and time of day, and determine the
      timestamp. */
  lemma UnixUtcIsFaithful(secs: int)
    ensures var u := UnixUtc(secs);
            && Valid(u.date) && 0 <= u.hour < 24 && 0 <= u.minute < 60 && 0 <= u.second < 60
            && secs == 86400 * DayNumber(u.date) + 3600 * u.hour + 60 * u.minute + u.second
  {
    CivilIsInverse(secs / 86400);
    TimeOfDay(secs % 86400);
  }

  lemma TimeOfDay(rem: int)
    requires 0 <= rem < 86400
    ensures 0 <= rem / 3600 < 24 && 0 <= rem % 3600 / 60 < 60
    ensures rem == 3600 * (rem / 3600) + 60 * (rem % 3600 / 60) + rem % 60
  {
    DivIs(rem, 60, 60 * (rem / 3600) + rem % 3600 / 60, rem % 3600 % 60);
  }
}
