/**
 * Time as the Python code sees it: instants are integer UTC epoch seconds, the local timezone
 * is a fixed offset in seconds, and calendar dates follow Python's proleptic Gregorian
 * `date.toordinal()` (0001-01-01 is day 1).
 */
module Calendar {
  import opened Wrappers
  import opened Text

  const Minute := 60
  const Hour := 3600
  const Day := 86400

  /** `date(1970, 1, 1).toordinal()`. */
  const EpochOrdinal := 719163
  /** `date(9999, 12, 31).toordinal()`. */
  const MaxOrdinal := 3652059

  predicate IsLeap(y: int) { y % 4 == 0 && (y % 100 != 0 || y % 400 == 0) }

  function DaysInYear(y: int): int { if IsLeap(y) then 366 else 365 }

  function DaysInMonth(y: int, m: int): int
    requires 1 <= m <= 12
  {
    if m == 2 then (if IsLeap(y) then 29 else 28)
    else if m == 4 || m == 6 || m == 9 || m == 11 then 30
    else 31
  }

  /** Days in the months of year `y` before month `m`, as Python's `_days_before_month`. */
  function DaysBeforeMonth(y: int, m: int): int
    requires 1 <= m <= 13
  {
    [0, 0, 31, 59, 90, 120, 151, 181, 212, 243, 273, 304, 334, 365][m]
      + (if m > 2 && IsLeap(y) then 1 else 0)
  }

  /** Days in the years before `y`, as Python's `_days_before_year`. */
  function DaysBeforeYear(y: int): int
    requires y >= 1
  {
    var p := y - 1;
    365 * p + p / 4 - p / 100 + p / 400
  }

  lemma DaysBeforeMonthFull(y: int)
    ensures DaysBeforeMonth(y, 13) == DaysInYear(y)
  {
  }

  lemma DaysBeforeMonthStep(y: int, m: int)
    requires 1 <= m <= 12
    ensures DaysBeforeMonth(y, m + 1) == DaysBeforeMonth(y, m) + DaysInMonth(y, m)
  {
  }

  lemma DaysBeforeMonthIncreasing(y: int, m: int, k: int)
    requires 1 <= m < k <= 13
    ensures DaysBeforeMonth(y, m) + DaysInMonth(y, m) <= DaysBeforeMonth(y, k)
  {
  }

  /** `(p + 1) / 4` steps up by one exactly when 4 divides `p + 1`; so for 100 and 400. */
  lemma Div4Step(p: int)
    ensures (p + 1) / 4 == p / 4 + (if (p + 1) % 4 == 0 then 1 else 0)
  {
  }

  lemma Div100Step(p: int)
    ensures (p + 1) / 100 == p / 100 + (if (p + 1) % 100 == 0 then 1 else 0)
  {
  }

  lemma Div400Step(p: int)
    ensures (p + 1) / 400 == p / 400 + (if (p + 1) % 400 == 0 then 1 else 0)
  {
  }

  lemma DaysBeforeYearStep(y: int)
    requires y >= 1
    ensures DaysBeforeYear(y + 1) == DaysBeforeYear(y) + DaysInYear(y)
  {
    Div4Step(y - 1);
    Div100Step(y - 1);
    Div400Step(y - 1);
  }

  lemma {:induction false} DaysBeforeYearIncreasing(y: int, k: int)
    requires 1 <= y < k
    ensures DaysBeforeYear(y) + DaysInYear(y) <= DaysBeforeYear(k)
    decreases k - y
  {
    DaysBeforeYearStep(y);
    if k > y + 1 {
      DaysBeforeYearIncreasing(y + 1, k);
    }
  }

  lemma DaysBeforeYearMonotone(y: int, k: int)
    requires 1 <= y <= k
    ensures DaysBeforeYear(y) <= DaysBeforeYear(k)
  {
    if y < k { DaysBeforeYearIncreasing(y, k); }
  }

  datatype Date = Date(year: int, month: int, day: int)

  predicate ValidDate(d: Date) {
    1 <= d.year <= 9999 && 1 <= d.month <= 12 && 1 <= d.day <= DaysInMonth(d.year, d.month)
  }

  /** Python `date.toordinal()`. */
  function Ordinal(d: Date): (n: int)
    requires ValidDate(d)
    ensures InOrdinalRange(n)
    ensures DaysBeforeYear(d.year) < n <= DaysBeforeYear(d.year + 1)
  {
    DaysBeforeMonthIncreasing(d.year, d.month, 13);
    DaysBeforeYearStep(d.year);
    DaysBeforeYearMonotone(d.year + 1, 10000);
    DaysBeforeYear(d.year) + DaysBeforeMonth(d.year, d.month) + d.day
  }

  /** The year holding ordinal `n`, searched upwards from `y`. */
  function YearOf(n: int, y: int): (r: int)
    requires 1 <= y && DaysBeforeYear(y) < n
    ensures y <= r && DaysBeforeYear(r) < n <= DaysBeforeYear(r + 1)
    decreases n - DaysBeforeYear(y)
  {
    DaysBeforeYearStep(y);
    if n <= DaysBeforeYear(y + 1) then y else YearOf(n, y + 1)
  }

  /** The month holding day-of-year `doy` of year `y`, searched upwards from `m`. */
  function MonthOf(doy: int, y: int, m: int): (r: int)
    requires 1 <= m <= 12 && DaysBeforeMonth(y, m) < doy <= DaysInYear(y)
    ensures m <= r <= 12 && DaysBeforeMonth(y, r) < doy <= DaysBeforeMonth(y, r + 1)
    decreases 12 - m
  {
    DaysBeforeMonthFull(y);
    if doy <= DaysBeforeMonth(y, m + 1) || m == 12 then m else MonthOf(doy, y, m + 1)
  }

  predicate InOrdinalRange(n: int) { 1 <= n <= MaxOrdinal }

  lemma MaxOrdinalIsLastDay()
    ensures DaysBeforeYear(10000) == MaxOrdinal
  {
  }

  /** Python `date.fromordinal(n)`. */
  function FromOrdinal(n: int): (d: Date)
    requires InOrdinalRange(n)
    ensures ValidDate(d) && Ordinal(d) == n
  {
    var y := YearOf(n, 1);
    DaysBeforeYearStep(y);
    assert y <= 9999 by {
      if y > 9999 { DaysBeforeYearIncreasing(10000, y + 1); }
    }
    var doy := n - DaysBeforeYear(y);
    DaysBeforeMonthFull(y);
    var m := MonthOf(doy, y, 1);
    var day := doy - DaysBeforeMonth(y, m);
    DaysBeforeMonthStep(y, m);
    assert ValidDate(Date(y, m, day));
    Date(y, m, day)
  }

  lemma YearUnique(n: int, y: int, z: int)
    requires 1 <= y && 1 <= z
    requires DaysBeforeYear(y) < n <= DaysBeforeYear(y + 1)
    requires DaysBeforeYear(z) < n <= DaysBeforeYear(z + 1)
    ensures y == z
  {
    DaysBeforeYearStep(y);
    DaysBeforeYearStep(z);
    if y < z { DaysBeforeYearIncreasing(y, z); }
    if z < y { DaysBeforeYearIncreasing(z, y); }
  }

  lemma MonthUnique(doy: int, y: int, m: int, k: int)
    requires 1 <= m <= 12 && 1 <= k <= 12
    requires DaysBeforeMonth(y, m) < doy <= DaysBeforeMonth(y, m + 1)
    requires DaysBeforeMonth(y, k) < doy <= DaysBeforeMonth(y, k + 1)
    ensures m == k
  {
    if m < k { DaysBeforeMonthIncreasing(y, m, k); }
    if k < m { DaysBeforeMonthIncreasing(y, k, m); }
  }

  /** `date.fromordinal(d.toordinal()) == d`. */
  lemma FromOrdinalOrdinal(d: Date)
    requires ValidDate(d)
    ensures FromOrdinal(Ordinal(d)) == d
  {
    var n := Ordinal(d);
    DaysBeforeMonthStep(d.year, d.month);
    var y := YearOf(n, 1);
    YearUnique(n, y, d.year);
    var doy := n - DaysBeforeYear(y);
    var m := MonthOf(doy, y, 1);
    MonthUnique(doy, y, m, d.month);
  }

  /** A naive civil date and time of day, second precision. */
  datatype DateTime = DateTime(date: Date, hour: int, minute: int, second: int)

  predicate ValidDateTime(t: DateTime) {
    ValidDate(t.date) && 0 <= t.hour < 24 && 0 <= t.minute < 60 && 0 <= t.second < 60
  }

  /** Epoch seconds whose civil date Python's `datetime` can represent (years 1 to 9999). */
  predicate InDatetimeRange(t: int) { InOrdinalRange(t / Day + EpochOrdinal) }

  /** The civil date and time of epoch seconds `t` (`datetime.utcfromtimestamp`). */
  function ToCivil(t: int): (c: DateTime)
    requires InDatetimeRange(t)
    ensures ValidDateTime(c)
  {
    DateTime(FromOrdinal(t / Day + EpochOrdinal), t % Day / Hour, t % Day % Hour / Minute, t % Minute)
  }

  /** Epoch seconds of a civil date and time. */
  function FromCivil(c: DateTime): int
    requires ValidDateTime(c)
  {
    (Ordinal(c.date) - EpochOrdinal) * Day + c.hour * Hour + c.minute * Minute + c.second
  }

  lemma FromCivilToCivil(t: int)
    requires InDatetimeRange(t)
    ensures FromCivil(ToCivil(t)) == t
  {
    var q, s := t / Day, t % Day;
    var h, r := s / Hour, s % Hour;
    var m, sec := r / Minute, r % Minute;
    assert t == q * 86400 + s && s == h * 3600 + r && r == m * 60 + sec;
    assert t == (q * 1440 + h * 60 + m) * 60 + sec;
    DivModOf(t, Minute, q * 1440 + h * 60 + m, sec);
  }

  lemma DivModOf(t: int, d: int, q: int, r: int)
    requires d == Minute || d == Hour || d == Day
    requires 0 <= r < d && t == q * d + r
    ensures t / d == q && t % d == r
  {
    if d == Minute {
      assert t == q * 60 + r;
    } else if d == Hour {
      assert t == q * 3600 + r;
    } else {
      assert t == q * 86400 + r;
    }
  }

  lemma SplitSeconds(c: DateTime)
    requires ValidDateTime(c)
    ensures FromCivil(c) / Day == Ordinal(c.date) - EpochOrdinal
    ensures FromCivil(c) % Day / Hour == c.hour
    ensures FromCivil(c) % Day % Hour / Minute == c.minute
    ensures FromCivil(c) % Minute == c.second
  {
    var inHour := c.minute * 60 + c.second;
    var secs := c.hour * 3600 + inHour;
    var days := Ordinal(c.date) - EpochOrdinal;
    assert FromCivil(c) == days * 86400 + secs;
    DivModOf(FromCivil(c), Day, days, secs);
    DivModOf(secs, Hour, c.hour, inHour);
    DivModOf(inHour, Minute, c.minute, c.second);
    assert FromCivil(c) == (days * 1440 + c.hour * 60 + c.minute) * 60 + c.second;
    DivModOf(FromCivil(c), Minute, days * 1440 + c.hour * 60 + c.minute, c.second);
  }

  lemma ToCivilFromCivil(c: DateTime)
    requires ValidDateTime(c)
    ensures InDatetimeRange(FromCivil(c)) && ToCivil(FromCivil(c)) == c
  {
    SplitSeconds(c);
    FromOrdinalOrdinal(c.date);
  }

  /** `strftime("%Y-%m-%d")` of the civil date of `t`. */
  function DateString(t: int): string
    requires InDatetimeRange(t)
  {
    var c := ToCivil(t);
    Pad(c.date.year, 4) + "-" + Pad(c.date.month, 2) + "-" + Pad(c.date.day, 2)
  }

  /** `strftime("%Y-%m-%d %H:%M:%S")` of `t`. */
  function DateTimeString(t: int): string
    requires InDatetimeRange(t)
  {
    var c := ToCivil(t);
    DateString(t) + " " + Pad(c.hour, 2) + ":" + Pad(c.minute, 2) + ":" + Pad(c.second, 2)
  }

  lemma PadWidths(c: DateTime)
    requires ValidDateTime(c)
    ensures |Pad(c.date.year, 4)| == 4 && |Pad(c.date.month, 2)| == 2 && |Pad(c.date.day, 2)| == 2
    ensures |Pad(c.hour, 2)| == 2 && |Pad(c.minute, 2)| == 2 && |Pad(c.second, 2)| == 2
  {
    assert Pow10(2) == 100 && Pow10(4) == 10000;
    DigitsBelowPow10(c.date.year, 4);
    DigitsBelowPow10(c.date.month, 2);
    DigitsBelowPow10(c.date.day, 2);
    DigitsBelowPow10(c.hour, 2);
    DigitsBelowPow10(c.minute, 2);
    DigitsBelowPow10(c.second, 2);
    PadLength(c.date.year, 4);
    PadLength(c.date.month, 2);
    PadLength(c.date.day, 2);
    PadLength(c.hour, 2);
    PadLength(c.minute, 2);
    PadLength(c.second, 2);
  }

  /** `strftime("%Y%m%d")` of `t`. */
  function CompactDateString(t: int): string
    requires InDatetimeRange(t)
  {
    var c := ToCivil(t);
    Pad(c.date.year, 4) + Pad(c.date.month, 2) + Pad(c.date.day, 2)
  }

  /** `strftime("%Y")` and `strftime("%m")` of `t`. */
  function YearString(t: int): string
    requires InDatetimeRange(t)
  {
    Pad(ToCivil(t).date.year, 4)
  }

  function MonthString(t: int): string
    requires InDatetimeRange(t)
  {
    Pad(ToCivil(t).date.month, 2)
  }

  /** `"%Y%m%d"` is `"%Y-%m-%d"` without the dashes, and starts with the `"%Y"` and `"%m"` fields. */
  lemma CompactDateStringSpec(t: int)
    requires InDatetimeRange(t)
    ensures var s := CompactDateString(t);
      && |s| == 8
      && DateString(t) == s[..4] + "-" + s[4..6] + "-" + s[6..]
      && s[..4] == YearString(t) && s[4..6] == MonthString(t)
  {
    PadWidths(ToCivil(t));
    var c := ToCivil(t);
    var s := CompactDateString(t);
    assert s[..4] == Pad(c.date.year, 4);
    assert s[4..6] == Pad(c.date.month, 2);
    assert s[6..] == Pad(c.date.day, 2);
  }

  /** The first ten characters of `"%Y-%m-%d %H:%M:%S"` are the `"%Y-%m-%d"` date. */
  lemma DateTimeStringPrefix(t: int)
    requires InDatetimeRange(t)
    ensures |DateTimeString(t)| == 19 && |DateString(t)| == 10
    ensures DateTimeString(t)[..10] == DateString(t)
  {
    PadWidths(ToCivil(t));
  }

  // ---- Python's timezone helpers (src/beemeteo/utils.py) ----

  /** A Python `datetime` as the helpers see it: naive (a wall-clock reading) or aware (an instant). */
  datatype PyDateTime = Naive(wall: int) | Aware(instant: int)

  /**
   * `_datetime_to_tz(dt, tz)` for a fixed-offset zone `off` (local = UTC + off): an aware
   * value keeps its instant, a naive one is read as local wall-clock time. The result is
   * aware and is represented by its instant.
   */
  function ToTz(dt: PyDateTime, off: int): (instant: int)
    ensures dt.Aware? ==> instant == dt.instant
    ensures dt.Naive? ==> instant + off == dt.wall
  {
    match dt
    case Aware(i) => i
    case Naive(w) => w - off
  }

  /** `_datetime_dt_to_ts_utc(dt)`: epoch seconds of an aware value; naive input raises. */
  function DtToTsUtc(dt: PyDateTime): (r: Result<int>)
    ensures r.Err? <==> dt.Naive?
    ensures dt.Aware? ==> r == Ok(dt.instant)
  {
    match dt
    case Naive(_) => Err("The datetime must have a timezone")
    case Aware(i) => Ok(i)
  }

  /** `_pandas_dt_to_ts_utc(series)`: raises unless the series is timezone-aware. */
  function SeriesToTsUtc(aware: bool, instants: seq<int>): (r: Result<seq<int>>)
    ensures r.Err? <==> !aware
    ensures aware ==> r == Ok(instants)
  {
    if aware then Ok(instants) else Err("The datetime must have a timezone")
  }

  /** The local calendar day number (days since the epoch) of instant `t`. */
  function LocalDay(t: int, off: int): int { (t + off) / Day }

  /**
   * `tz.localize(datetime.combine(t.date(), time.min))`: the instant of local midnight on
   * the local date of `t`.
   */
  function LocalMidnight(t: int, off: int): (m: int)
    ensures m <= t < m + Day
    ensures (m + off) % Day == 0
    ensures LocalDay(m, off) == LocalDay(t, off)
  {
    LocalDay(t, off) * Day - off
  }

  /** `tz.localize(datetime.combine(t.date(), time.max))` with the microseconds dropped. */
  function LocalEndOfDay(t: int, off: int): (e: int)
    ensures t <= e && e == LocalMidnight(t, off) + Day - 1
    ensures LocalDay(e, off) == LocalDay(t, off)
  {
    LocalMidnight(t, off) + Day - 1
  }

  /** `timedelta.days` of a difference of `d` seconds: the floor of whole days. */
  function TimedeltaDays(d: int): (days: int)
    ensures days * Day <= d < (days + 1) * Day
  {
    d / Day
  }

  /** `pd.date_range(start, stop, freq="1d")`: every day from `start` while not after `stop`. */
  function DayRange(start: int, stop: int): seq<int>
    decreases stop - start + Day
  {
    if start > stop then [] else [start] + DayRange(start + Day, stop)
  }

  /** The range holds `start + k` days for every `k` that does not pass `stop`, in order. */
  lemma {:induction false} DayRangeSpec(start: int, stop: int)
    ensures var r := DayRange(start, stop);
      && |r| == (if start <= stop then (stop - start) / Day + 1 else 0)
      && forall k :: 0 <= k < |r| ==> r[k] == start + k * Day
    decreases stop - start + Day
  {
    if start <= stop {
      DayRangeSpec(start + Day, stop);
      var tail := DayRange(start + Day, stop);
      assert DayRange(start, stop) == [start] + tail;
      if start + Day <= stop {
        assert (stop - start) / Day == (stop - start - Day) / Day + 1;
      } else {
        assert (stop - start) / Day == 0;
      }
    }
  }
}
