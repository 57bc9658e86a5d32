/**
 * The calendar arithmetic of Python's `datetime` module, as far as the
 * decoder needs it: building a date and time from the six bytes the device
 * stores (`datetime.datetime(*dsb)` with 2000 added to the year), checking it
 * as the constructor does, and turning it into a count of seconds so that
 * `datenow += tick` is integer addition.
 */
module Calendar {
  import opened Wrappers
  import opened Bytes

  datatype DateTime = DateTime(year: int, month: int, day: int, hour: int, minute: int, second: int)

  /** Why `datetime.datetime(*dsb)` raises. */
  datatype DateError =
    | NoYearByte        // `dsb[0] += 2000` on an empty list: IndexError
    | MissingArguments  // fewer than year, month and day given: TypeError
    | OutOfRange        // a field outside its calendar range: ValueError

  predicate IsLeap(y: int)
  {
    y % 4 == 0 && (y % 100 != 0 || y % 400 == 0)
  }

  function DaysInMonth(y: int, m: int): int
    requires 1 <= m <= 12
  {
    if m == 2 then (if IsLeap(y) then 29 else 28)
    else if m == 4 || m == 6 || m == 9 || m == 11 then 30
    else 31
  }

  /** The ranges `datetime.datetime` accepts (MINYEAR 1 to MAXYEAR 9999). */
  predicate Valid(d: DateTime)
  {
    && 1 <= d.year <= 9999
    && 1 <= d.month <= 12
    && 1 <= d.day <= DaysInMonth(d.year, d.month)
    && 0 <= d.hour < 24
    && 0 <= d.minute < 60
    && 0 <= d.second < 60
  }

  /** The values `datetime.datetime` can hold. */
  type Date = d: DateTime | Valid(d) witness DateTime(2000, 1, 1, 0, 0, 0)

  /** Days in the years before `y`, counted from 0001-01-01 (proleptic Gregorian). */
  function DaysBeforeYear(y: int): int
    requires y >= 1
  {
    var p := y - 1;
    p * 365 + p / 4 - p / 100 + p / 400
  }

  function DaysBeforeMonth(y: int, m: int): int
    requires 1 <= m <= 12
  {
    [0, 31, 59, 90, 120, 151, 181, 212, 243, 273, 304, 334][m - 1]
    + (if m > 2 && IsLeap(y) then 1 else 0)
  }

  /** `date.toordinal()`: 0001-01-01 is day 1. */
  function Ordinal(d: DateTime): int
    requires Valid(d)
  {
    DaysBeforeYear(d.year) + DaysBeforeMonth(d.year, d.month) + d.day
  }

  /** The absolute time of `d` in seconds; `+ timedelta` becomes `+` on this count. */
  function Seconds(d: DateTime): int
    requires Valid(d)
  {
    Ordinal(d) * 86400 + d.hour * 3600 + d.minute * 60 + d.second
  }

  /**
   * A `datetime` reached by adding `offset` seconds of `timedelta` to the
   * date and time `base`.
   */
  datatype Clock = Clock(base: Date, offset: int)
  {
    /** `self + timedelta(seconds=s)`. */
    function Plus(s: int): Clock
    {
      Clock(base, offset + s)
    }
  }

  /** The absolute second a clock shows. */
  function Instant(c: Clock): int
  {
    Seconds(c.base) + c.offset
  }

  /** The first second of year `y`. */
  function YearStart(y: int): int
    requires y >= 1
  {
    (DaysBeforeYear(y) + 1) * 86400
  }

  /**
   * `datetime.datetime(*dsb)` where `dsb` is the list of the first six bytes
   * of `b` with 2000 added to the first; hour, minute and second default to 0
   * when the list is shorter.
   */
  function FromBytes(b: seq<byte>): (r: Result<DateTime, DateError>)
    ensures |b| == 0 <==> r == Failure(NoYearByte)
    ensures r == Failure(MissingArguments) <==> 1 <= |b| < 3
    ensures r.Success? ==> Valid(r.value) && 2000 <= r.value.year <= 2255
    ensures r.Success? ==> r.value.year - 2000 == b[0] && r.value.month == b[1] && r.value.day == b[2]
    ensures r.Success? && |b| >= 6 ==> r.value.hour == b[3] && r.value.minute == b[4] && r.value.second == b[5]
  {
    if |b| == 0 then Failure(NoYearByte)
    else if |b| < 3 then Failure(MissingArguments)
    else
      var d := DateTime(b[0] as int + 2000, b[1], b[2],
                        if |b| > 3 then b[3] else 0,
                        if |b| > 4 then b[4] else 0,
                        if |b| > 5 then b[5] else 0);
      if Valid(d) then Success(d) else Failure(OutOfRange)
  }

  /** The six bytes the device stores for `d`: its inverse. */
  function ToBytes(d: DateTime): seq<byte>
    requires 2000 <= d.year <= 2255 && 1 <= d.month <= 12 && 1 <= d.day <= 31
    requires 0 <= d.hour < 24 && 0 <= d.minute < 60 && 0 <= d.second < 60
  {
    [d.year - 2000, d.month, d.day, d.hour, d.minute, d.second]
  }

  /** Encoding a valid time stamp and decoding it again gives it back. */
  lemma FromBytesToBytes(d: DateTime)
    requires Valid(d) && 2000 <= d.year <= 2255
    ensures FromBytes(ToBytes(d)) == Success(d)
  {
  }

  /** Six stored bytes decode exactly when they form a valid date, and then encode back to themselves. */
  lemma ToBytesFromBytes(b: seq<byte>)
    requires |b| == 6
    ensures FromBytes(b).Success? <==> Valid(DateTime(b[0] as int + 2000, b[1], b[2], b[3], b[4], b[5]))
    ensures FromBytes(b).Success? ==> ToBytes(FromBytes(b).value) == b
  {
  }

  /** Each year has 365 or 366 days. */
  lemma DaysBeforeNextYear(y: int)
    requires y >= 1
    ensures DaysBeforeYear(y + 1) == DaysBeforeYear(y) + (if IsLeap(y) then 366 else 365)
  {
    MultiplesStep(y);
    DivisibleChain(y);
  }

  /** Going from `y - 1` to `y` adds one multiple of `k` exactly when `k` divides `y`. */
  lemma MultiplesStep(y: int)
    ensures y / 4 == (y - 1) / 4 + (if y % 4 == 0 then 1 else 0)
    ensures y / 100 == (y - 1) / 100 + (if y % 100 == 0 then 1 else 0)
    ensures y / 400 == (y - 1) / 400 + (if y % 400 == 0 then 1 else 0)
  {
  }

  lemma DivisibleChain(y: int)
    ensures y % 400 == 0 ==> y % 100 == 0
    ensures y % 100 == 0 ==> y % 4 == 0
  {
    if y % 400 == 0 {
      var q := y / 400;
      assert y == 400 * q;
      assert y / 100 == 4 * q;
    }
    if y % 100 == 0 {
      var q := y / 100;
      assert y == 100 * q;
      assert y / 4 == 25 * q;
    }
  }

  lemma {:induction false} DaysBeforeYearMonotone(y: int, z: int)
    requires 1 <= y <= z
    ensures DaysBeforeYear(y) <= DaysBeforeYear(z)
    decreases z - y
  {
    if y < z {
      DaysBeforeNextYear(y);
      DaysBeforeYearMonotone(y + 1, z);
    }
  }

  /** A month ends no later than its year. */
  lemma MonthWithinYear(y: int, m: int)
    requires 1 <= m <= 12
    ensures 0 <= DaysBeforeMonth(y, m)
    ensures DaysBeforeMonth(y, m) + DaysInMonth(y, m) <= (if IsLeap(y) then 366 else 365)
  {
  }

  /**
   * A valid time stamp lies within its own year, so `d.year < y` exactly
   * when its second count is below the first second of `y`: comparing second
   * counts with `YearStart` is comparing years.
   */
  lemma SecondsWithinYear(d: DateTime, y: int)
    requires Valid(d) && y >= 1
    ensures YearStart(d.year) <= Seconds(d) < YearStart(d.year + 1)
    ensures d.year < y <==> Seconds(d) < YearStart(y)
  {
    MonthWithinYear(d.year, d.month);
    DaysBeforeNextYear(d.year);
    if d.year < y {
      DaysBeforeYearMonotone(d.year + 1, y);
    } else {
      DaysBeforeYearMonotone(y, d.year);
    }
  }
}
