/**
  Civil (proleptic Gregorian) UTC date-times and their integer epoch.

  `Timegm` follows `calendar.timegm`: the day count of the date since
  1970-01-01 (through `date.toordinal`), then hours, minutes and seconds.
  `UtcFields` gives the broken-down UTC fields of an epoch value, as
  `datetime.fromtimestamp(e, UTC)` does for whole seconds; it is the unique
  inverse of `Timegm`, computed by a search over years and months.
*/
module Civil {

  /** year, month (1..12), day, hour, minute, second, as in a `datetime` */
  datatype DateTime = DateTime(year: int, month: int, day: int, hour: int, minute: int, second: int)

  /** `date(1970, 1, 1).toordinal()` */
  const EpochOrdinal: int := 719163
  /** `datetime.MINYEAR` and `datetime.MAXYEAR` */
  const MinYear: int := 1
  const MaxYear: int := 9999

  predicate IsLeapYear(y: int) {
    y % 4 == 0 && (y % 100 != 0 || y % 400 == 0)
  }

  function DaysInYear(y: int): int {
    if IsLeapYear(y) then 366 else 365
  }

  function DaysInMonth(y: int, m: int): (n: int)
    requires 1 <= m <= 12
    ensures 28 <= n <= 31
  {
    if m == 2 then (if IsLeapYear(y) then 29 else 28)
    else if m == 4 || m == 6 || m == 9 || m == 11 then 30
    else 31
  }

  /** Days from 0001-01-01 to January 1st of year `y` (floor division makes this proleptic for every `y`). */
  function DaysBeforeYear(y: int): int {
    var k := y - 1;
    365 * k + k / 4 - k / 100 + k / 400
  }

  /** Days from January 1st to the first of month `m`; `m == 13` gives the whole year. */
  function DaysBeforeMonth(y: int, m: int): int
    requires 1 <= m <= 13
  {
    [0, 0, 31, 59, 90, 120, 151, 181, 212, 243, 273, 304, 334, 365][m]
      + (if m > 2 && IsLeapYear(y) then 1 else 0)
  }

  /** `date(y, m, d).toordinal()`: 0001-01-01 is day 1 */
  function Ordinal(y: int, m: int, d: int): int
    requires 1 <= m <= 12
  {
    DaysBeforeYear(y) + DaysBeforeMonth(y, m) + d
  }

  /** The fields form a `datetime` apart from the year range. */
  predicate IsValid(t: DateTime) {
    && 1 <= t.month <= 12
    && 1 <= t.day <= DaysInMonth(t.year, t.month)
    && 0 <= t.hour < 24
    && 0 <= t.minute < 60
    && 0 <= t.second < 60
  }

  /** The year is one `datetime` can hold. */
  predicate InYearRange(t: DateTime) {
    MinYear <= t.year <= MaxYear
  }

  /** `calendar.timegm`: seconds since 1970-01-01T00:00:00 of the UTC civil time `t` */
  function Timegm(t: DateTime): int
    requires 1 <= t.month <= 12
  {
    var days := Ordinal(t.year, t.month, 1) - EpochOrdinal + t.day - 1;
    var hours := days * 24 + t.hour;
    var minutes := hours * 60 + t.minute;
    minutes * 60 + t.second
  }

  // ---------------------------------------------------------------------------
  // Lengths of years and months

  lemma {:induction false} YearLength(y: int)
    ensures DaysBeforeYear(y + 1) - DaysBeforeYear(y) == DaysInYear(y)
  {
    var k := y - 1;
    assert (k + 1) / 4 == k / 4 + (if (k + 1) % 4 == 0 then 1 else 0);
    assert (k + 1) / 100 == k / 100 + (if (k + 1) % 100 == 0 then 1 else 0);
    assert (k + 1) / 400 == k / 400 + (if (k + 1) % 400 == 0 then 1 else 0);
    assert y % 4 == 0 <==> (k + 1) % 4 == 0;
    assert y % 100 == 0 <==> (k + 1) % 100 == 0;
    assert y % 400 == 0 <==> (k + 1) % 400 == 0;
    if (k + 1) % 400 == 0 {
      assert (k + 1) % 100 == 0 && (k + 1) % 4 == 0;
    } else if (k + 1) % 100 == 0 {
      assert (k + 1) % 4 == 0;
    }
  }

  /** Years are at least 365 days long, so a later year starts later. */
  lemma {:induction false} YearsIncrease(a: int, b: int)
    requires a <= b
    ensures DaysBeforeYear(a) + 365 * (b - a) <= DaysBeforeYear(b)
    decreases b - a
  {
    if a < b {
      YearsIncrease(a, b - 1);
      YearLength(b - 1);
    }
  }

  lemma {:induction false} MonthLength(y: int, m: int)
    requires 1 <= m <= 12
    ensures DaysBeforeMonth(y, m + 1) - DaysBeforeMonth(y, m) == DaysInMonth(y, m)
  {
  }

  lemma {:induction false} MonthsIncrease(y: int, a: int, b: int)
    requires 1 <= a <= b <= 13
    ensures DaysBeforeMonth(y, a) + 28 * (b - a) <= DaysBeforeMonth(y, b)
    decreases b - a
  {
    if a < b {
      MonthsIncrease(y, a, b - 1);
      MonthLength(y, b - 1);
    }
  }

  lemma {:induction false} WholeYear(y: int)
    ensures DaysBeforeMonth(y, 13) == DaysInYear(y)
  {
  }

  // ---------------------------------------------------------------------------
  // The inverse: the year and month that contain a day count

  /**
    The year holding day `n` (0 is 0001-01-01), searched from the guess `y`;
    it is the unique year whose span contains `n` (see `YearOfUnique`).
  */
  function YearOf(n: int, y: int): (r: int)
    ensures DaysBeforeYear(r) <= n < DaysBeforeYear(r + 1)
    decreases (if n < DaysBeforeYear(y) then 1 else 0),
              (if n < DaysBeforeYear(y) then DaysBeforeYear(y) - n else n - DaysBeforeYear(y))
  {
    YearLength(y - 1);
    YearLength(y);
    if n < DaysBeforeYear(y) then YearOf(n, y - 1)
    else if n >= DaysBeforeYear(y + 1) then YearOf(n, y + 1)
    else y
  }

  lemma {:induction false} YearOfUnique(n: int, r: int, y: int)
    requires DaysBeforeYear(r) <= n < DaysBeforeYear(r + 1)
    requires DaysBeforeYear(y) <= n < DaysBeforeYear(y + 1)
    ensures r == y
  {
    if r < y {
      YearsIncrease(r + 1, y);
    } else if y < r {
      YearsIncrease(y + 1, r);
    }
  }

  /** The month of year `y` holding day-of-year `doy` (0-based), searched upwards from `m`. */
  function MonthOf(y: int, doy: int, m: int): (r: int)
    requires 1 <= m <= 12
    requires DaysBeforeMonth(y, m) <= doy < DaysInYear(y)
    ensures m <= r <= 12
    ensures DaysBeforeMonth(y, r) <= doy < DaysBeforeMonth(y, r + 1)
    decreases 12 - m
  {
    WholeYear(y);
    if doy < DaysBeforeMonth(y, m + 1) then m else MonthOf(y, doy, m + 1)
  }

  lemma {:induction false} MonthOfUnique(y: int, doy: int, r: int, m: int)
    requires 1 <= r <= 12 && 1 <= m <= 12
    requires DaysBeforeMonth(y, r) <= doy < DaysBeforeMonth(y, r + 1)
    requires DaysBeforeMonth(y, m) <= doy < DaysBeforeMonth(y, m + 1)
    ensures r == m
  {
    if r < m {
      MonthsIncrease(y, r + 1, m);
    } else if m < r {
      MonthsIncrease(y, m + 1, r);
    }
  }

  /** The calendar date of day `n` (0 is 0001-01-01), at midnight. */
  function DateOfDay(n: int): (t: DateTime)
    ensures IsValid(t) && t.hour == t.minute == t.second == 0
    ensures Ordinal(t.year, t.month, t.day) == n + 1
  {
    var y := YearOf(n, n * 400 / 146097 + 1);
    var doy := n - DaysBeforeYear(y);
    YearLength(y);
    var m := MonthOf(y, doy, 1);
    MonthLength(y, m);
    DateTime(y, m, doy - DaysBeforeMonth(y, m) + 1, 0, 0, 0)
  }

  /** Broken-down UTC fields of the epoch value `e` (whole seconds). */
  function UtcFields(e: int): (t: DateTime)
    ensures IsValid(t)
  {
    var date := DateOfDay(e / 86400 + EpochOrdinal - 1);
    var secs := e % 86400;
    DateTime(date.year, date.month, date.day, secs / 3600, secs % 3600 / 60, secs % 60)
  }

  /** A valid date is the only one with its ordinal. */
  lemma {:induction false} DateOfDayUnique(t: DateTime)
    requires IsValid(t)
    ensures var date := DateOfDay(Ordinal(t.year, t.month, t.day) - 1);
      date.year == t.year && date.month == t.month && date.day == t.day
  {
    var n := Ordinal(t.year, t.month, t.day) - 1;
    MonthLength(t.year, t.month);
    MonthsIncrease(t.year, t.month + 1, 13);
    WholeYear(t.year);
    YearLength(t.year);
    var y := YearOf(n, n * 400 / 146097 + 1);
    YearOfUnique(n, y, t.year);
    var doy := n - DaysBeforeYear(y);
    var m := MonthOf(y, doy, 1);
    MonthOfUnique(y, doy, m, t.month);
  }

  // ---------------------------------------------------------------------------
  // Round trips

  lemma {:induction false} SplitSeconds(secs: int)
    requires 0 <= secs < 86400
    ensures secs == (secs / 3600) * 3600 + (secs % 3600 / 60) * 60 + secs % 60
  {
  }

  /** Rendering an epoch in UTC and converting the fields back with `timegm` gives the epoch again. */
  lemma {:induction false} EpochRoundTrip(e: int)
    ensures Timegm(UtcFields(e)) == e
  {
    var t := UtcFields(e);
    TimegmSplit(t);
    SplitSeconds(e % 86400);
  }

  lemma {:induction false} DivModUnique(e: int, days: int, secs: int)
    requires 0 <= secs < 86400
    requires e == days * 86400 + secs
    ensures e / 86400 == days && e % 86400 == secs
  {
  }

  /** `timegm` is the day count since the epoch times 86400 plus the second of the day. */
  lemma {:induction false} TimegmSplit(t: DateTime)
    requires 1 <= t.month <= 12
    ensures Timegm(t) == (Ordinal(t.year, t.month, 1) - EpochOrdinal + t.day - 1) * 86400
                         + (t.hour * 3600 + t.minute * 60 + t.second)
  {
  }

  lemma {:induction false} SecondOfDay(h: int, m: int, s: int)
    requires 0 <= h < 24 && 0 <= m < 60 && 0 <= s < 60
    ensures var secs := h * 3600 + m * 60 + s;
      0 <= secs < 86400 && secs / 3600 == h && secs % 3600 / 60 == m && secs % 60 == s
  {
  }

  /** The UTC fields of an epoch are the date of its day and the clock of its second of the day. */
  lemma {:induction false} UtcFieldsSplit(e: int, n: int, secs: int)
    requires e / 86400 + EpochOrdinal - 1 == n && e % 86400 == secs
    ensures var date := DateOfDay(n);
      UtcFields(e) == DateTime(date.year, date.month, date.day, secs / 3600, secs % 3600 / 60, secs % 60)
  {
  }

  /** A valid civil time is the UTC rendering of its own `timegm` epoch. */
  lemma {:induction false} CivilRoundTrip(t: DateTime)
    requires IsValid(t)
    ensures UtcFields(Timegm(t)) == t
  {
    var e := Timegm(t);
    var n := Ordinal(t.year, t.month, t.day) - 1;
    var secs := t.hour * 3600 + t.minute * 60 + t.second;
    TimegmSplit(t);
    SecondOfDay(t.hour, t.minute, t.second);
    DivModUnique(e, n - EpochOrdinal + 1, secs);
    UtcFieldsSplit(e, n, secs);
    DateOfDayUnique(t);
  }

  /** `timegm` is one-to-one on valid civil times. */
  lemma {:induction false} TimegmInjective(s: DateTime, t: DateTime)
    requires IsValid(s) && IsValid(t)
    ensures Timegm(s) == Timegm(t) <==> s == t
  {
    if Timegm(s) == Timegm(t) {
      CivilRoundTrip(s);
      CivilRoundTrip(t);
    }
  }

  /** First and last epoch second whose UTC year is one `datetime` can hold. */
  const MinEpoch: int := -62135596800
  const MaxEpoch: int := 253402300799

  lemma {:induction false} EpochBounds()
    ensures Timegm(DateTime(MinYear, 1, 1, 0, 0, 0)) == MinEpoch
    ensures Timegm(DateTime(MaxYear, 12, 31, 23, 59, 59)) == MaxEpoch
  {
    assert DaysBeforeYear(MinYear) == 0;
    assert DaysBeforeYear(MaxYear) == 3651694;
    assert DaysBeforeMonth(MaxYear, 12) == 334;
    TimegmSplit(DateTime(MinYear, 1, 1, 0, 0, 0));
    TimegmSplit(DateTime(MaxYear, 12, 31, 23, 59, 59));
  }

  /** The year of day `n` is the one whose span holds `n`. */
  lemma {:induction false} DateOfDayYear(n: int)
    ensures var y := DateOfDay(n).year; DaysBeforeYear(y) <= n < DaysBeforeYear(y + 1)
  {
    var date := DateOfDay(n);
    MonthsIncrease(date.year, date.month + 1, 13);
    MonthLength(date.year, date.month);
    YearLength(date.year);
  }

  /** The UTC year of `e` lies in 1..9999 exactly when `e` lies in MinEpoch..MaxEpoch. */
  lemma {:induction false} YearRangeIff(e: int)
    ensures InYearRange(UtcFields(e)) <==> MinEpoch <= e <= MaxEpoch
  {
    var n := e / 86400 + EpochOrdinal - 1;
    UtcFieldsSplit(e, n, e % 86400);
    DayNumberRange(e, n);
    YearOfDayRange(n);
  }

  /** The epoch of a civil time in the years 1 to 9999 lies in MinEpoch..MaxEpoch. */
  lemma {:induction false} TimegmInRange(t: DateTime)
    requires IsValid(t) && InYearRange(t)
    ensures MinEpoch <= Timegm(t) <= MaxEpoch
  {
    CivilRoundTrip(t);
    YearRangeIff(Timegm(t));
  }

  /** Days 0 to 3652058 are exactly those of the years 1 to 9999. */
  lemma {:induction false} YearOfDayRange(n: int)
    ensures MinYear <= DateOfDay(n).year <= MaxYear <==> 0 <= n < 3652059
  {
    var y := DateOfDay(n).year;
    DateOfDayYear(n);
    assert DaysBeforeYear(MinYear) == 0;
    assert DaysBeforeYear(MaxYear + 1) == 3652059;
    if y < MinYear {
      YearsIncrease(y + 1, MinYear);
    } else if y > MaxYear {
      YearsIncrease(MaxYear + 1, y);
    } else {
      YearsIncrease(MinYear, y);
      YearsIncrease(y + 1, MaxYear + 1);
    }
  }

  /** The epoch seconds of days 0 to 3652058 run from MinEpoch to MaxEpoch. */
  lemma {:induction false} DayNumberRange(e: int, n: int)
    requires n == e / 86400 + EpochOrdinal - 1
    ensures 0 <= n < 3652059 <==> MinEpoch <= e <= MaxEpoch
  {
  }
}
