/** Conversions between Unix timestamps and Gregorian civil time. */
module Calendar {
  import opened Arith

  const INT_MIN: int := -0x8000_0000
  const INT_MAX: int := 0x7FFF_FFFF

  /** 2000-03-01 00:00:00, right after the leap day that closes a 400-year cycle. */
  const LEAPOCH: int := 946684800 + 86400 * (31 + 29)
  const DAYS_PER_400Y: int := 365 * 400 + 97
  const DAYS_PER_100Y: int := 365 * 100 + 24
  const DAYS_PER_4Y: int := 365 * 4 + 1

  /** C division and remainder: rounding toward zero. */
  function Div(a: int, b: int): int requires b > 0 { if a >= 0 then a / b else -((-a) / b) }
  function Rem(a: int, b: int): int requires b > 0 { a - b * Div(a, b) }

  /** Correcting a negative remainder gives the floor. */
  lemma FloorAdjust(a: int, b: int)
    requires b > 0
    ensures if Rem(a, b) < 0 then a / b == Div(a, b) - 1 && a % b == Rem(a, b) + b
            else a / b == Div(a, b) && a % b == Rem(a, b)
  {
    if a < 0 {
      var q, r := (-a) / b, (-a) % b;
      assert -a == q * b + r;
      assert b * Div(a, b) == -(q * b) by { assert b * (-q) == -(q * b); }
      if r == 0 {
        assert (-q) * b == -(q * b);
        DivModUnique(a, b, -q, 0);
      } else {
        assert (-q - 1) * b == -(q * b) - b;
        DivModUnique(a, b, -q - 1, b - r);
      }
    }
  }

  datatype Datetime = Datetime(year: nat, month: nat, day: nat, hour: nat, min: nat, sec: nat)

  // ----------------------------------------------- the reference calendar

  predicate IsLeap(y: int) { y % 4 == 0 && (y % 100 != 0 || y % 400 == 0) }

  function YearLength(y: int): int { if IsLeap(y) then 366 else 365 }

  function MonthLength(y: int, m: int): int
    requires 1 <= m <= 12
  {
    if m == 2 then (if IsLeap(y) then 29 else 28)
    else if m == 4 || m == 6 || m == 9 || m == 11 then 30 else 31
  }

  /** Days from 1970-01-01 to the first of January of year y, year by year. */
  ghost function DaysToYear(y: int): int
    decreases if y >= 1970 then y - 1970 else 1970 - y
  {
    if y == 1970 then 0
    else if y > 1970 then DaysToYear(y - 1) + YearLength(y - 1)
    else DaysToYear(y + 1) - YearLength(y)
  }

  /** Days from the first of January to the first of month m, month by month. */
  ghost function DaysToMonth(y: int, m: int): int
    requires 1 <= m <= 12
    decreases m
  {
    if m == 1 then 0 else DaysToMonth(y, m - 1) + MonthLength(y, m - 1)
  }

  ghost predicate ValidCivil(y: int, mo: int, d: int, h: int, mi: int, s: int) {
    1 <= mo <= 12 && 1 <= d <= MonthLength(y, mo) && 0 <= h < 24 && 0 <= mi < 60 && 0 <= s < 60
  }

  /** Seconds since the epoch of a civil time. */
  ghost function Epoch(y: int, mo: int, d: int, h: int, mi: int, s: int): int
    requires 1 <= mo <= 12
  {
    86400 * (DaysToYear(y) + DaysToMonth(y, mo) + d - 1) + 3600 * h + 60 * mi + s
  }

  // ---------------------------------------------------------- closed forms

  /** Leap years before year y, up to a constant. */
  function Leaps(y: int): int { (y - 1) / 4 - (y - 1) / 100 + (y - 1) / 400 }

  lemma LeapsStep(y: int)
    ensures Leaps(y + 1) == Leaps(y) + (if IsLeap(y) then 1 else 0)
  {
    QuotientStep(y, 4);
    QuotientStep(y, 100);
    QuotientStep(y, 400);
    LeapNesting(y);
  }

  lemma QuotientStep(y: int, n: int)
    requires n > 0
    ensures y / n == (y - 1) / n + (if y % n == 0 then 1 else 0)
  {
    var q, r := y / n, y % n;
    assert y == q * n + r;
    if r == 0 {
      assert (q - 1) * n == q * n - n;
      DivModUnique(y - 1, n, q - 1, n - 1);
    } else {
      DivModUnique(y - 1, n, q, r - 1);
    }
  }

  lemma LeapNesting(y: int)
    ensures (y % 400 == 0 ==> y % 100 == 0) && (y % 100 == 0 ==> y % 4 == 0)
  {
  }

  lemma {:induction false} DaysToYearClosed(y: int)
    ensures DaysToYear(y) == 365 * (y - 1970) + Leaps(y) - Leaps(1970)
    decreases if y >= 1970 then y - 1970 else 1970 - y
  {
    if y > 1970 {
      DaysToYearClosed(y - 1);
      LeapsStep(y - 1);
    } else if y < 1970 {
      DaysToYearClosed(y + 1);
      LeapsStep(y);
    }
  }

  /** Days to the first of each month of a common year. */
  const MONTH_DAYS: seq<int> := [0, 31, 59, 90, 120, 151, 181, 212, 243, 273, 304, 334]

  lemma DaysToMonthTable(y: int, m: int)
    requires 1 <= m <= 12
    ensures DaysToMonth(y, m) == MONTH_DAYS[m - 1] + (if IsLeap(y) && m > 2 then 1 else 0)
    decreases m
  {
    if m > 1 { DaysToMonthTable(y, m - 1); }
  }

  // --------------------------------------------------- civil to timestamp

  /** Between 1902 and 2038 every fourth year is leap. */
  lemma FastYear(year: int)
    requires 2 <= year <= 138
    ensures IsLeap(1900 + year) <==> (year - 68) % 4 == 0
    ensures DaysToYear(1900 + year) == 365 * (year - 70) + (year - 68) / 4 - (if (year - 68) % 4 == 0 then 1 else 0)
  {
    var y := 1900 + year;
    DaysToYearClosed(y);
    DivModUnique(y - 1, 4, (year - 69) / 4 + 492, (year - 69) % 4);
    DivModUnique(y, 4, (year - 68) / 4 + 492, (year - 68) % 4);
    QuotientStep(year - 68, 4);
    assert (y - 1) / 100 == if y <= 2000 then 19 else 20;
    assert (y - 1) / 400 == if y <= 2000 then 4 else 5;
  }

  /** A year given by its 400-year cycle, century and year of the century. */
  lemma CycleYear(cycles: int, centuries: int, r: int)
    requires 0 <= centuries <= 3 && 0 <= r < 100
    ensures var y := 2000 + 400 * cycles + 100 * centuries + r;
            && IsLeap(y) == (if r == 0 then centuries == 0 else r % 4 == 0)
            && DaysToYear(y) == 365 * (y - 2000) + 97 * cycles + 24 * centuries + r / 4 - (if IsLeap(y) then 1 else 0) + 10958
  {
    var y := 2000 + 400 * cycles + 100 * centuries + r;
    DaysToYearClosed(y);
    LeapsStep(y);
    assert y / 4 == 500 + 100 * cycles + 25 * centuries + r / 4;
    assert y / 100 == 20 + 4 * cycles + centuries;
    assert y / 400 == 5 + cycles;
    assert y % 4 == r % 4;
    assert y % 100 == r;
    assert y % 400 == 100 * centuries + r;
  }

  /** Seconds to the start of year 1900 + year, and whether that year is leap. */
  method YearToSecs(year: int) returns (secs: int, isLeap: bool)
    ensures secs == 86400 * DaysToYear(1900 + year) && isLeap == IsLeap(1900 + year)
  {
    if 2 <= year <= 138 {
      FastYear(year);
      var leaps := (year - 68) / 4;
      if (year - 68) % 4 == 0 {
        leaps := leaps - 1;
        isLeap := true;
      } else {
        isLeap := false;
      }
      secs := 31536000 * (year - 70) + 86400 * leaps;
      assert INT_MIN <= 31536000 * (year - 70) <= INT_MAX && INT_MIN <= secs <= INT_MAX;
      return;
    }
    secs, isLeap := CycleToSecs(year);
  }

  /** The branch of YearToSecs for the other years. */
  method CycleToSecs(year: int) returns (secs: int, isLeap: bool)
    ensures secs == 86400 * DaysToYear(1900 + year) && isLeap == IsLeap(1900 + year)
  {
    var cycles, rem := Div(year - 100, 400), Rem(year - 100, 400);
    FloorAdjust(year - 100, 400);
    if rem < 0 {
      cycles, rem := cycles - 1, rem + 400;
    }
    secs, isLeap := CenturyToSecs(year, cycles, rem);
  }

  method CenturyToSecs(year: int, cycles: int, rem0: int) returns (secs: int, isLeap: bool)
    requires year - 100 == 400 * cycles + rem0 && 0 <= rem0 < 400
    ensures secs == 86400 * DaysToYear(1900 + year) && isLeap == IsLeap(1900 + year)
  {
    var rem, centuries, leaps := rem0, 0, 0;
    ghost var r := rem % 100;
    CycleYear(cycles, rem / 100, r);
    if rem == 0 {
      isLeap := true;
    } else {
      if rem >= 200 {
        if rem >= 300 {
          centuries, rem := 3, rem - 300;
        } else {
          centuries, rem := 2, rem - 200;
        }
      } else if rem >= 100 {
        centuries, rem := 1, rem - 100;
      }
      assert rem == r;
      if rem == 0 {
        isLeap := false;
      } else {
        leaps := rem / 4;
        rem := rem % 4;
        isLeap := rem == 0;
      }
    }
    leaps := leaps + 97 * cycles + 24 * centuries - (if isLeap then 1 else 0);
    secs := (year - 100) * 31536000 + leaps * 86400 + 946684800 + 86400;
  }

  function MonthToSecs(month: int, isLeap: bool): int
    requires 0 <= month < 12
  {
    MONTH_DAYS[month] * 86400 + (if isLeap && month >= 2 then 86400 else 0)
  }

  /** Month numbers outside 1..12 count as months of earlier or later years. */
  function NormalYear(d: Datetime): int { d.year + (d.month - 1) / 12 }
  function NormalMonth(d: Datetime): int { (d.month - 1) % 12 + 1 }

  method DatetimeToTimestamp(d: Datetime) returns (t: int)
    ensures t == Epoch(NormalYear(d), NormalMonth(d), d.day, d.hour, d.min, d.sec)
    ensures 1 <= d.month <= 12 ==> t == Epoch(d.year, d.month, d.day, d.hour, d.min, d.sec)
  {
    var year, month := CarryMonth(d.year - 1900, d.month - 1);
    var isLeap;
    t, isLeap := YearToSecs(year);
    DaysToMonthTable(NormalYear(d), NormalMonth(d));
    t := t + MonthToSecs(month, isLeap);
    t := t + 86400 * (d.day - 1);
    t := t + 3600 * d.hour;
    t := t + 60 * d.min;
    t := t + d.sec;
  }

  /** A month outside 0 to 11 is carried into the year. */
  method CarryMonth(year0: int, month0: int) returns (year: int, month: int)
    ensures year == year0 + month0 / 12 && month == month0 % 12
  {
    year, month := year0, month0;
    if month >= 12 || month < 0 {
      FloorAdjust(month, 12);
      var adj := Div(month, 12);
      month := Rem(month, 12);
      if month < 0 {
        adj, month := adj - 1, month + 12;
      }
      year := year + adj;
    }
  }

  // --------------------------------------------------- timestamp to civil

  /** Days from 2000-03-01 to the first of March of year 2000 + y. */
  function MarchDays(y: int): int { 365 * y + y / 4 - y / 100 + y / 400 }

  lemma MarchIsMarch(y: int)
    ensures DaysToYear(2000 + y) + DaysToMonth(2000 + y, 3) == MarchDays(y) + 11017
  {
    var year := 2000 + y;
    assert DaysToYear(year) == 365 * (year - 1970) + Leaps(year) - Leaps(1970) by { DaysToYearClosed(year); }
    assert DaysToMonth(year, 3) == if IsLeap(year) then 60 else 59 by { DaysToMonthTable(year, 3); }
    LeapsStep(year);
    DivModUnique(year, 4, 500 + y / 4, y % 4);
    DivModUnique(year, 100, 20 + y / 100, y % 100);
    DivModUnique(year, 400, 5 + y / 400, y % 400);
  }

  /** The March-based year, and the day in it, of a day count from 2000-03-01. */
  method SplitDays(days: int) returns (years: int, remdays: int)
    ensures MarchDays(years) + remdays == days
    ensures 0 <= remdays < (if IsLeap(2001 + years) then 366 else 365)
  {
    var qc, rem := Div(days, DAYS_PER_400Y), Rem(days, DAYS_PER_400Y);
    FloorAdjust(days, DAYS_PER_400Y);
    if rem < 0 {
      rem, qc := rem + DAYS_PER_400Y, qc - 1;
    }
    var y, q, c;
    y, q, c, remdays := SplitCycle(rem);
    years := y + 4 * q + 100 * c + 400 * qc;
    MarchCycle(y, q, c, qc);
  }

  /** The century, the 4-year cycle and the year that a day of a 400-year cycle falls in. */
  method SplitCycle(day: int) returns (y: int, q: int, c: int, remdays: int)
    requires 0 <= day < DAYS_PER_400Y
    ensures 0 <= y <= 3 && 0 <= q <= 24 && 0 <= c <= 3
    ensures day == 365 * y + DAYS_PER_4Y * q + DAYS_PER_100Y * c + remdays
    ensures 0 <= remdays < if y == 3 && (q < 24 || c == 3) then 366 else 365
  {
    var rem := day;
    c := rem / DAYS_PER_100Y;
    if c == 4 {
      c := c - 1;
    }
    rem := rem - c * DAYS_PER_100Y;
    assert 0 <= c <= 3 && 0 <= rem <= DAYS_PER_100Y && (c < 3 ==> rem < DAYS_PER_100Y);
    q := rem / DAYS_PER_4Y;
    if q == 25 {
      q := q - 1;
    }
    rem := rem - q * DAYS_PER_4Y;
    assert 0 <= q <= 24 && 0 <= rem < DAYS_PER_4Y && (q == 24 && c < 3 ==> rem < DAYS_PER_4Y - 1);
    y := rem / 365;
    if y == 4 {
      y := y - 1;
    }
    remdays := rem - y * 365;
  }

  lemma MarchCycle(y: int, q: int, c: int, qc: int)
    requires 0 <= y <= 3 && 0 <= q <= 24 && 0 <= c <= 3
    ensures var years := y + 4 * q + 100 * c + 400 * qc;
            && MarchDays(years) == 365 * y + DAYS_PER_4Y * q + DAYS_PER_100Y * c + DAYS_PER_400Y * qc
            && (IsLeap(2001 + years) <==> y == 3 && (q < 24 || c == 3))
  {
    var years := y + 4 * q + 100 * c + 400 * qc;
    DivModUnique(years, 4, q + 25 * c + 100 * qc, y);
    DivModUnique(years, 100, c + 4 * qc, y + 4 * q);
    DivModUnique(years, 400, qc, y + 4 * q + 100 * c);
    NextRemainder(years + 2000, 4, 500 + q + 25 * c + 100 * qc, y);
    NextRemainder(years + 2000, 100, 20 + c + 4 * qc, y + 4 * q);
    NextRemainder(years + 2000, 400, 5 + qc, y + 4 * q + 100 * c);
  }

  /** The number after x is divisible by d iff x leaves the largest remainder. */
  lemma NextRemainder(x: int, d: int, q: int, r: int)
    requires 0 <= r < d && x == q * d + r
    ensures (x + 1) % d == 0 <==> r == d - 1
  {
    if r == d - 1 {
      assert (q + 1) * d == q * d + d;
      DivModUnique(x + 1, d, q + 1, 0);
    } else {
      DivModUnique(x + 1, d, q, r + 1);
    }
  }

  /** Lengths of the months from March on, February last and with its leap day. */
  const MARCH_MONTHS: seq<int> := [31, 30, 31, 30, 31, 31, 30, 31, 30, 31, 31, 29]

  /** Days from the first of March to the first of the month m months later. */
  const MARCH_DAYS: seq<int> := [0, 31, 61, 92, 122, 153, 184, 214, 245, 275, 306, 337, 366]

  method FindMonth(remdays: int) returns (months: int, rem: int)
    requires 0 <= remdays < 366
    ensures 0 <= months < 12 && 0 <= rem < MARCH_MONTHS[months] && MARCH_DAYS[months] + rem == remdays
  {
    months, rem := 0, remdays;
    while MARCH_MONTHS[months] <= rem
      invariant 0 <= months < 12 && 0 <= rem && MARCH_DAYS[months] + rem == remdays
      decreases 12 - months
    {
      assert MARCH_DAYS[months] + MARCH_MONTHS[months] == MARCH_DAYS[months + 1];
      rem := rem - MARCH_MONTHS[months];
      months := months + 1;
    }
  }

  /** The civil date of a day of a March-based year. */
  lemma MarchDate(y: int, months: int, rem: int)
    requires 0 <= months < 12 && 0 <= rem < MARCH_MONTHS[months]
    requires MARCH_DAYS[months] + rem < (if IsLeap(y + 1) then 366 else 365)
    ensures var cy, cm := if months >= 10 then y + 1 else y, if months >= 10 then months - 9 else months + 3;
            && 1 <= cm <= 12 && 1 <= rem + 1 <= MonthLength(cy, cm)
            && DaysToYear(cy) + DaysToMonth(cy, cm) == DaysToYear(y) + DaysToMonth(y, 3) + MARCH_DAYS[months]
  {
    DaysToMonthTable(y, 3);
    if months >= 10 {
      DaysToMonthTable(y + 1, months - 9);
      DaysToYearClosed(y);
      DaysToYearClosed(y + 1);
      LeapsStep(y);
    } else {
      DaysToMonthTable(y, months + 3);
    }
  }

  /** Year (from 2000), month (March is 0, January -2) and day (from 0) of a day count from 2000-03-01. */
  method CivilDate(days: int) returns (years: int, months: int, remdays: int)
    ensures -2 <= months < 10 && 0 <= remdays < MonthLength(2000 + years, months + 3)
    ensures DaysToYear(2000 + years) + DaysToMonth(2000 + years, months + 3) + remdays == days + 11017
  {
    years, remdays := SplitDays(days);
    MarchIsMarch(years);
    months, remdays := FindMonth(remdays);
    MarchDate(2000 + years, months, remdays);
    if months >= 10 {
      months, years := months - 12, years + 1;
    }
  }

  /**
   The civil time of a timestamp. `year` is the exact year; the field holds its 16 low bits.
   Fails outside the accepted range and for years whose distance to 1900 does not fit an int.
   */
  method TimestampToDatetime(t: int) returns (r: Option<Datetime>, ghost year: int)
    ensures t < INT_MIN * 31622400 || t > INT_MAX * 31622400 ==> r == None
    ensures INT_MIN * 31622400 <= t <= INT_MAX * 31622400 ==>
              86400 * DaysToYear(year) <= t < 86400 * DaysToYear(year + 1) && (r.Some? <==> INT_MIN <= year - 1900 <= INT_MAX)
    ensures r.Some? ==>
              var d := r.value;
              && ValidCivil(year, d.month, d.day, d.hour, d.min, d.sec)
              && Epoch(year, d.month, d.day, d.hour, d.min, d.sec) == t && d.year == year % 0x1_0000
  {
    year := 0;
    if t < INT_MIN * 31622400 || t > INT_MAX * 31622400 {
      return None, year;
    }
    var secs := t - LEAPOCH;
    var days, remsecs := Div(secs, 86400), Rem(secs, 86400);
    FloorAdjust(secs, 86400);
    if remsecs < 0 {
      remsecs, days := remsecs + 86400, days - 1;
    }
    var years, months, remdays := CivilDate(days);
    year := years + 2000;
    DayBounds(year, months + 3, remdays + 1);
    if years + 100 > INT_MAX || years + 100 < INT_MIN {
      return None, year;
    }
    var d := Datetime((years + 2000) % 0x1_0000, months + 3, remdays + 1, remsecs / 3600, (remsecs / 60) % 60, remsecs % 60);
    TimeOfDay(remsecs);
    r := Some(d);
  }

  lemma TimeOfDay(s: int)
    requires 0 <= s < 86400
    ensures 3600 * (s / 3600) + 60 * ((s / 60) % 60) + s % 60 == s && s / 3600 < 24
  {
  }

  // ----------------------------------------------------------- round trips

  /** A later day of the calendar has a larger day number. */
  lemma DayBounds(y: int, m: int, d: int)
    requires 1 <= m <= 12 && 1 <= d <= MonthLength(y, m)
    ensures DaysToYear(y) <= DaysToYear(y) + DaysToMonth(y, m) + d - 1 < DaysToYear(y + 1)
  {
    DaysToMonthTable(y, m);
    DaysToYearClosed(y);
    DaysToYearClosed(y + 1);
    LeapsStep(y);
  }

  lemma {:induction false} YearsIncrease(a: int, b: int)
    requires a <= b
    ensures DaysToYear(a) <= DaysToYear(b)
    decreases b - a
  {
    if a < b {
      YearsIncrease(a, b - 1);
      DaysToYearClosed(b - 1);
      DaysToYearClosed(b);
      LeapsStep(b - 1);
    }
  }

  lemma {:induction false} MonthsIncrease(y: int, a: int, b: int)
    requires 1 <= a < b <= 12
    ensures DaysToMonth(y, a) + MonthLength(y, a) <= DaysToMonth(y, b)
    decreases b - a
  {
    if a < b - 1 {
      MonthsIncrease(y, a, b - 1);
    }
  }

  /** Different civil times have different timestamps. */
  lemma EpochInjective(y: int, mo: int, d: int, h: int, mi: int, s: int, y': int, mo': int, d': int, h': int, mi': int, s': int)
    requires ValidCivil(y, mo, d, h, mi, s) && ValidCivil(y', mo', d', h', mi', s')
    requires Epoch(y, mo, d, h, mi, s) == Epoch(y', mo', d', h', mi', s')
    ensures y == y' && mo == mo' && d == d' && h == h' && mi == mi' && s == s'
  {
    var day, day' := DaysToYear(y) + DaysToMonth(y, mo) + d - 1, DaysToYear(y') + DaysToMonth(y', mo') + d' - 1;
    assert day == day' && h == h' && mi == mi' && s == s';
    DayBounds(y, mo, d);
    DayBounds(y', mo', d');
    if y < y' { YearsIncrease(y + 1, y'); }
    if y' < y { YearsIncrease(y' + 1, y); }
    if mo < mo' { MonthsIncrease(y, mo, mo'); }
    if mo' < mo { MonthsIncrease(y, mo', mo); }
  }

  /** The same date and time in two different years. */
  lemma YearsDiffer(a: int, b: int, mo: int, d: int, h: int, mi: int, s: int)
    requires a != b && 1 <= mo <= 12
    ensures Epoch(a, mo, d, h, mi, s) != Epoch(b, mo, d, h, mi, s)
  {
    DaysToMonthTable(a, mo);
    DaysToMonthTable(b, mo);
    var lo, hi := if a < b then a else b, if a < b then b else a;
    YearsIncrease(lo + 1, hi);
    DaysToYearClosed(lo);
    DaysToYearClosed(lo + 1);
    LeapsStep(lo);
  }

  /** The first second of year 0 and of year 65536. */
  const YEAR_0: int := -62167219200
  const YEAR_65536: int := 2005949145600

  /** The timestamp lies in the years from `lo` on and before `hi`. */
  ghost predicate InYears(t: int, lo: int, hi: int) {
    86400 * DaysToYear(lo) <= t < 86400 * DaysToYear(hi)
  }

  lemma YearBetween(t: int, year: int, lo: int, hi: int)
    requires 86400 * DaysToYear(year) <= t < 86400 * DaysToYear(year + 1)
    ensures lo <= year < hi <==> InYears(t, lo, hi)
  {
    if year < lo { YearsIncrease(year + 1, lo); } else { YearsIncrease(lo, year); }
    if year < hi { YearsIncrease(year + 1, hi); } else { YearsIncrease(hi, year); }
  }

  /** The year is a parameter because the solver would count from 1970 to a literal year. */
  lemma FirstSecond(year: int)
    requires year == 0 || year == 0x1_0000
    ensures 86400 * DaysToYear(year) == if year == 0 then YEAR_0 else YEAR_65536
  {
    var d := DaysToYear(year);
    assert d == 365 * (year - 1970) + Leaps(year) - Leaps(1970) by { DaysToYearClosed(year); }
    assert Leaps(1970) == 477 && Leaps(year) == if year == 0 then -1 else 15891;
  }

  lemma YearRange(t: int, year: int, lo: int, hi: int)
    requires lo == 0 && hi == 0x1_0000
    requires 86400 * DaysToYear(year) <= t < 86400 * DaysToYear(year + 1)
    ensures lo <= year < hi <==> YEAR_0 <= t < YEAR_65536
  {
    YearBetween(t, year, lo, hi);
    FirstSecond(lo);
    FirstSecond(hi);
  }

  /** A timestamp survives the round trip exactly when its year fits the 16-bit field. */
  method TimestampRoundTrip(t: int) returns (d: Option<Datetime>, back: int)
    ensures YEAR_0 <= t < YEAR_65536 ==> d.Some?
    ensures d.Some? ==> (back == t <==> YEAR_0 <= t < YEAR_65536)
    ensures d.None? <==> t < INT_MIN * 31622400 || t > INT_MAX * 31622400 || !InYears(t, INT_MIN + 1900, INT_MAX + 1901)
  {
    ghost var year;
    d, year := TimestampToDatetime(t);
    back := 0;
    if INT_MIN * 31622400 <= t <= INT_MAX * 31622400 {
      YearRange(t, year, 0, 0x1_0000);
      YearBetween(t, year, INT_MIN + 1900, INT_MAX + 1901);
    }
    if d.Some? {
      var v := d.value;
      back := DatetimeToTimestamp(v);
      TruncatedYear(year, v.year, v.month, v.day, v.hour, v.min, v.sec);
    }
  }

  /** The first second after the last year that fits comes back as one of year 0. */
  method YearWraps() returns (d: Option<Datetime>, back: int)
    ensures d.Some? && d.value.year == 0 && back != YEAR_65536
  {
    ghost var y := OverflowYear();
    ghost var year;
    d, year := TimestampToDatetime(YEAR_65536);
    FirstSecond(y);
    YearLonger(y);
    SameYear(YEAR_65536, year, y);
    back := 0;
    if d.Some? {
      var v := d.value;
      back := DatetimeToTimestamp(v);
      TruncatedYear(year, v.year, v.month, v.day, v.hour, v.min, v.sec);
    }
  }

  /** As a variable: the solver would count from 1970 to a literal year. */
  lemma OverflowYear() returns (y: int)
    ensures y == 0x1_0000
  {
    y := 0x1_0000;
  }

  lemma YearLonger(y: int)
    ensures DaysToYear(y) < DaysToYear(y + 1)
  {
    DaysToYearClosed(y);
    DaysToYearClosed(y + 1);
    LeapsStep(y);
  }

  lemma TruncatedYear(y: int, y': int, mo: int, d: int, h: int, mi: int, s: int)
    requires 1 <= mo <= 12 && y' == y % 0x1_0000
    ensures Epoch(y', mo, d, h, mi, s) == Epoch(y, mo, d, h, mi, s) <==> 0 <= y < 0x1_0000
  {
    if 0 <= y < 0x1_0000 {
      DivModUnique(y, 0x1_0000, 0, y);
    } else {
      YearsDiffer(y, y', mo, d, h, mi, s);
    }
  }

  lemma EpochRange(d: Datetime)
    requires d.year < 0x1_0000 && ValidCivil(d.year, d.month, d.day, d.hour, d.min, d.sec)
    ensures var t := Epoch(d.year, d.month, d.day, d.hour, d.min, d.sec);
            && INT_MIN * 31622400 <= t <= INT_MAX * 31622400
            && 86400 * DaysToYear(d.year) <= t < 86400 * DaysToYear(d.year + 1)
  {
    DayBounds(d.year, d.month, d.day);
    DaysToYearClosed(d.year);
    DaysToYearClosed(d.year + 1);
  }

  lemma SameYear(t: int, a: int, b: int)
    requires 86400 * DaysToYear(a) <= t < 86400 * DaysToYear(a + 1)
    requires 86400 * DaysToYear(b) <= t < 86400 * DaysToYear(b + 1)
    ensures a == b
  {
    YearBetween(t, a, b, b + 1);
  }

  /** Every valid civil time whose year fits the field survives the opposite round trip. */
  method CivilRoundTrip(d: Datetime) returns (t: int, back: Option<Datetime>)
    requires d.year < 0x1_0000 && ValidCivil(d.year, d.month, d.day, d.hour, d.min, d.sec)
    ensures t == Epoch(d.year, d.month, d.day, d.hour, d.min, d.sec) && back == Some(d)
  {
    t := DatetimeToTimestamp(d);
    ghost var year;
    EpochRange(d);
    back, year := TimestampToDatetime(t);
    SameYear(t, year, d.year);
    DivModUnique(year, 0x1_0000, 0, year);
    if back.Some? {
      var v := back.value;
      EpochInjective(d.year, d.month, d.day, d.hour, d.min, d.sec, year, v.month, v.day, v.hour, v.min, v.sec);
    }
  }
}
