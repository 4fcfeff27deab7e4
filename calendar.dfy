/** The proleptic Gregorian calendar as Python's `datetime` computes it:
    dates of years 1 to 9999 and their ordinals, day 1 being 0001-01-01.
    `ToOrdinal` is `ymd_to_ord` and `FromOrdinal` is `ord_to_ymd`, which
    counts whole 400-, 100-, 4- and 1-year cycles and then estimates the
    month from the day of the year. */
module Calendar {

  const MinYear: int := 1
  const MaxYear: int := 9999
  /** Days in 400, 100 and 4 consecutive years. */
  const DaysIn400Years: int := 146097
  const DaysIn100Years: int := 36524
  const DaysIn4Years: int := 1461
  /** The ordinal of 9999-12-31. */
  const MaxOrdinal: int := 3652059

  datatype Date = Date(year: int, month: int, day: int)

  predicate IsLeap(y: int) {
    y % 4 == 0 && (y % 100 != 0 || y % 400 == 0)
  }

  function DaysInYear(y: int): int {
    if IsLeap(y) then 366 else 365
  }

  function DaysInMonth(y: int, m: int): (n: int)
    requires 1 <= m <= 12
    ensures 28 <= n <= 31
  {
    if m == 2 then (if IsLeap(y) then 29 else 28)
    else if m == 4 || m == 6 || m == 9 || m == 11 then 30
    else 31
  }

  /** Days of a common year before month `m`. */
  function CommonDaysBefore(m: int): int
    requires 1 <= m <= 12
  {
    if m == 1 then 0 else if m == 2 then 31 else if m == 3 then 59
    else if m == 4 then 90 else if m == 5 then 120 else if m == 6 then 151
    else if m == 7 then 181 else if m == 8 then 212 else if m == 9 then 243
    else if m == 10 then 273 else if m == 11 then 304 else 334
  }

  /** Days of year `y` before month `m`: one more after February of a leap
      year. */
  function DaysBeforeMonth(y: int, m: int): int
    requires 1 <= m <= 12
  {
    CommonDaysBefore(m) + (if m > 2 && IsLeap(y) then 1 else 0)
  }

  /** Days before January 1 of year `y`. */
  function DaysBeforeYear(y: int): int
    requires y >= 1
  {
    var z := y - 1;
    z * 365 + z / 4 - z / 100 + z / 400
  }

  predicate ValidDate(d: Date) {
    && MinYear <= d.year <= MaxYear
    && 1 <= d.month <= 12
    && 1 <= d.day <= DaysInMonth(d.year, d.month)
  }

  /** `ymd_to_ord`: the ordinal of a date. */
  function ToOrdinal(d: Date): int
    requires ValidDate(d)
  {
    DaysBeforeYear(d.year) + DaysBeforeMonth(d.year, d.month) + d.day
  }

  /** The month a 0-based day of the year falls in, and the days of the year
      before that month: first estimated as `(n + 50) / 32`, then moved back
      one month when the estimate overshoots. */
  function MonthOf(n: int, leap: bool): (int, int)
    requires 0 <= n < 365
  {
    var m := (n + 50) / 32;
    var preceding := CommonDaysBefore(m) + (if m > 2 && leap then 1 else 0);
    if preceding > n then
      (m - 1, preceding - (DaysInCommonMonth(m - 1) + (if m - 1 == 2 && leap then 1 else 0)))
    else (m, preceding)
  }

  /** Days in month `m` of a common year. */
  function DaysInCommonMonth(m: int): int
    requires 1 <= m <= 12
  {
    if m == 2 then 28 else if m == 4 || m == 6 || m == 9 || m == 11 then 30 else 31
  }

  /** The whole 400-, 100-, 4- and 1-year cycles in `m` days, and the days
      left over. */
  function Cycles(m: int): (int, int, int, int, int)
    requires m >= 0
  {
    var n400, r400 := m / DaysIn400Years, m % DaysIn400Years;
    var n100, r100 := r400 / DaysIn100Years, r400 % DaysIn100Years;
    var n4, r4 := r100 / DaysIn4Years, r100 % DaysIn4Years;
    (n400, n100, n4, r4 / 365, r4 % 365)
  }

  /** `ord_to_ymd`: the date of an ordinal. The last day of a 4-year cycle
      or of a 400-year cycle comes out as a fifth year or a fourth century
      and is December 31 of the year before. */
  function FromOrdinal(n: int): Date
    requires 1 <= n <= MaxOrdinal
  {
    var (n400, n100, n4, n1, r1) := Cycles(n - 1);
    var year := n400 * 400 + 1 + n100 * 100 + n4 * 4 + n1;
    if n1 == 4 || n100 == 4 then Date(year - 1, 12, 31)
    else
      var leap := n1 == 3 && (n4 != 24 || n100 == 3);
      var (month, preceding) := MonthOf(r1, leap);
      Date(year, month, r1 - preceding + 1)
  }

  // ---------------------------------------------------------------------
  // Years

  /** A year adds its own length to the days before it. */
  lemma YearStep(y: int)
    requires y >= 1
    ensures DaysBeforeYear(y + 1) == DaysBeforeYear(y) + DaysInYear(y)
  {
    LeapCount(y);
    assert DaysBeforeYear(y + 1) - DaysBeforeYear(y) ==
      365 + (y / 4 - (y - 1) / 4) - (y / 100 - (y - 1) / 100) + (y / 400 - (y - 1) / 400);
  }

  /** A year is leap exactly when it adds one to the count of multiples of
      4, less those of 100, plus those of 400. */
  lemma LeapCount(y: int)
    requires y >= 1
    ensures DaysInYear(y) ==
      365 + (y / 4 - (y - 1) / 4) - (y / 100 - (y - 1) / 100) + (y / 400 - (y - 1) / 400)
  {
    FloorStep4(y);
    FloorStep100(y);
    FloorStep400(y);
    Multiples(y);
  }

  /** Multiples of 400 are multiples of 100, which are multiples of 4. */
  lemma Multiples(y: int)
    ensures y % 400 == 0 ==> y % 100 == 0
    ensures y % 100 == 0 ==> y % 4 == 0
  {
    if y % 400 == 0 {
      var k := y / 400;
      assert y == 100 * (4 * k);
    }
    if y % 100 == 0 {
      var k := y / 100;
      assert y == 4 * (25 * k);
    }
  }

  lemma FloorStep4(y: int)
    requires y >= 1
    ensures y / 4 == (y - 1) / 4 + (if y % 4 == 0 then 1 else 0)
  {
  }

  lemma FloorStep100(y: int)
    requires y >= 1
    ensures y / 100 == (y - 1) / 100 + (if y % 100 == 0 then 1 else 0)
  {
  }

  lemma FloorStep400(y: int)
    requires y >= 1
    ensures y / 400 == (y - 1) / 400 + (if y % 400 == 0 then 1 else 0)
  {
  }

  /** Later years begin later: the days before a year grow by at least a
      common year per year. */
  lemma {:induction false} YearsIncrease(y1: int, y2: int)
    requires 1 <= y1 < y2
    ensures DaysBeforeYear(y1) + DaysInYear(y1) <= DaysBeforeYear(y2)
    decreases y2 - y1
  {
    YearStep(y1);
    if y1 + 1 < y2 {
      YearsIncrease(y1 + 1, y2);
    }
  }

  /** The days before year `400a + 100b + 4c + e + 1` counted in whole
      cycles. */
  lemma YearCycles(a: int, b: int, c: int, e: int)
    requires a >= 0 && 0 <= b <= 3 && 0 <= c <= 24 && 0 <= e <= 3
    ensures DaysBeforeYear(400 * a + 100 * b + 4 * c + e + 1)
      == DaysIn400Years * a + DaysIn100Years * b + DaysIn4Years * c + 365 * e
  {
    var z := 400 * a + 100 * b + 4 * c + e;
    assert z == 4 * (100 * a + 25 * b + c) + e;
    assert z / 4 == 100 * a + 25 * b + c;
    assert z == 100 * (4 * a + b) + (4 * c + e);
    assert z / 100 == 4 * a + b;
    assert z == 400 * a + (100 * b + 4 * c + e);
    assert z / 400 == a;
  }

  /** Whether year `400a + 100b + 4c + e + 1` is a leap year, read off its
      cycle counts. */
  lemma LeapOfCycles(a: int, b: int, c: int, e: int)
    requires a >= 0 && 0 <= b <= 3 && 0 <= c <= 24 && 0 <= e <= 3
    ensures IsLeap(400 * a + 100 * b + 4 * c + e + 1) <==> e == 3 && (c != 24 || b == 3)
  {
    var y := 400 * a + 100 * b + 4 * c + e + 1;
    assert y == 4 * (100 * a + 25 * b + c) + (e + 1);
    if e == 3 {
      assert y == 4 * (100 * a + 25 * b + c + 1);
      if c == 24 {
        assert y == 100 * (4 * a + b + 1);
        assert y == 400 * a + 100 * (b + 1);
      } else {
        assert y == 100 * (4 * a + b) + 4 * (c + 1);
      }
    }
  }

  // ---------------------------------------------------------------------
  // Months

  lemma MonthOfLeap(m: int, y: int)
    requires 1 <= m <= 12
    ensures DaysBeforeMonth(y, m) == CommonDaysBefore(m) + (if m > 2 && IsLeap(y) then 1 else 0)
    ensures DaysInMonth(y, m) == DaysInCommonMonth(m) + (if m == 2 && IsLeap(y) then 1 else 0)
  {
  }

  /** The month estimate lands in the right month: the day falls within the
      month `MonthOf` names, counted from the days before it. */
  lemma MonthOfCorrect(n: int, leap: bool)
    requires 0 <= n < 365
    ensures 1 <= MonthOf(n, leap).0 <= 12
    ensures MonthOf(n, leap).1 == CommonDaysBefore(MonthOf(n, leap).0)
      + (if MonthOf(n, leap).0 > 2 && leap then 1 else 0)
    ensures 0 <= n - MonthOf(n, leap).1 < DaysInCommonMonth(MonthOf(n, leap).0)
      + (if MonthOf(n, leap).0 == 2 && leap then 1 else 0)
  {
  }

  /** The months of a year follow one another. */
  lemma MonthStep(y: int, m: int)
    requires 1 <= m <= 12
    ensures DaysBeforeMonth(y, m) + DaysInMonth(y, m)
      == if m == 12 then DaysInYear(y) else DaysBeforeMonth(y, m + 1)
  {
  }

  /** Later months begin later. */
  lemma {:induction false} MonthsIncrease(y: int, m1: int, m2: int)
    requires 1 <= m1 < m2 <= 12
    ensures DaysBeforeMonth(y, m1) + DaysInMonth(y, m1) <= DaysBeforeMonth(y, m2)
    decreases m2 - m1
  {
    MonthStep(y, m1);
    if m1 + 1 < m2 {
      MonthsIncrease(y, m1 + 1, m2);
    }
  }

  // ---------------------------------------------------------------------
  // Ordinals

  /** The ordinal of a date falls within its year. */
  lemma OrdinalInYear(d: Date)
    requires ValidDate(d)
    ensures DaysBeforeYear(d.year) < ToOrdinal(d) <= DaysBeforeYear(d.year) + DaysInYear(d.year)
  {
    MonthStep(d.year, d.month);
    if d.month < 12 {
      MonthsIncrease(d.year, d.month, 12);
      MonthStep(d.year, 12);
    }
  }

  /** Valid dates have ordinals 1 to `MaxOrdinal`. */
  lemma OrdinalRange(d: Date)
    requires ValidDate(d)
    ensures 1 <= ToOrdinal(d) <= MaxOrdinal
  {
    OrdinalInYear(d);
    YearStep(d.year);
    if d.year < MaxYear {
      YearsIncrease(d.year, MaxYear);
    }
    YearStep(MaxYear);
  }

  /** Different dates have different ordinals. */
  lemma ToOrdinalInjective(d1: Date, d2: Date)
    requires ValidDate(d1) && ValidDate(d2) && ToOrdinal(d1) == ToOrdinal(d2)
    ensures d1 == d2
  {
    OrdinalInYear(d1);
    OrdinalInYear(d2);
    if d1.year < d2.year {
      YearsIncrease(d1.year, d2.year);
    } else if d2.year < d1.year {
      YearsIncrease(d2.year, d1.year);
    }
    assert d1.year == d2.year;
    if d1.month < d2.month {
      MonthsIncrease(d1.year, d1.month, d2.month);
    } else if d2.month < d1.month {
      MonthsIncrease(d1.year, d2.month, d1.month);
    }
  }

  /** The cycle counts of `m` days recompose `m`, and a full fourth
      century or fifth year can only be the very last day of a cycle. */
  lemma CycleBounds(m: int)
    requires 0 <= m
    ensures
      var (n400, n100, n4, n1, r1) := Cycles(m);
      && m == DaysIn400Years * n400 + DaysIn100Years * n100 + DaysIn4Years * n4 + 365 * n1 + r1
      && n400 >= 0 && 0 <= n100 <= 4 && 0 <= n4 <= 24 && 0 <= n1 <= 4 && 0 <= r1 < 365
      && (n100 == 4 ==> n4 == 0 && n1 == 0 && r1 == 0)
      && (n1 == 4 ==> r1 == 0 && n4 <= 23)
  {
  }

  /** `ord_to_ymd` gives a valid date whose ordinal is the one it was
      given. */
  lemma ToOrdinalFromOrdinal(n: int)
    requires 1 <= n <= MaxOrdinal
    ensures ValidDate(FromOrdinal(n))
    ensures ToOrdinal(FromOrdinal(n)) == n
  {
    CycleBounds(n - 1);
    var (n400, n100, n4, n1, r1) := Cycles(n - 1);
    if n100 == 4 || n1 == 4 {
      LastDayOfCycle(n, n400, n100, n4, n1);
    } else {
      DayOfYear(n, n400, n100, n4, n1, r1);
    }
  }

  /** The last day of a 400-year or 4-year cycle: December 31 of the year
      before the one the counts name. */
  lemma LastDayOfCycle(n: int, a: int, b: int, c: int, e: int)
    requires 1 <= n <= MaxOrdinal && Cycles(n - 1) == (a, b, c, e, 0)
    requires n - 1 == DaysIn400Years * a + DaysIn100Years * b + DaysIn4Years * c + 365 * e
    requires a >= 0 && 0 <= b <= 4 && 0 <= c <= 24 && 0 <= e <= 4
    requires b == 4 ==> c == 0 && e == 0
    requires e == 4 ==> c <= 23
    requires b == 4 || e == 4
    ensures ValidDate(FromOrdinal(n)) && ToOrdinal(FromOrdinal(n)) == n
  {
    var y := 400 * a + 100 * b + 4 * c + e;
    assert FromOrdinal(n) == Date(y, 12, 31);
    if b == 4 {
      YearCycles(a + 1, 0, 0, 0);
      assert y == 400 * (a + 1);
    } else {
      YearCycles(a, b, c + 1, 0);
      assert y == 400 * a + 100 * b + 4 * (c + 1);
    }
    LastDayOfYear(y, n);
  }

  /** An ordinal that is not the last day of a cycle: its date lies in year
      `400a + 100b + 4c + e + 1`, on day `r` of that year counted from 0. */
  lemma DayOfYear(n: int, a: int, b: int, c: int, e: int, r: int)
    requires 1 <= n <= MaxOrdinal && Cycles(n - 1) == (a, b, c, e, r)
    requires n - 1 == DaysIn400Years * a + DaysIn100Years * b + DaysIn4Years * c + 365 * e + r
    requires a >= 0 && 0 <= b <= 3 && 0 <= c <= 24 && 0 <= e <= 3 && 0 <= r < 365
    ensures ValidDate(FromOrdinal(n)) && ToOrdinal(FromOrdinal(n)) == n
  {
    var year := 400 * a + 100 * b + 4 * c + e + 1;
    YearCycles(a, b, c, e);
    LeapOfCycles(a, b, c, e);
    var leap := e == 3 && (c != 24 || b == 3);
    MonthOfCorrect(r, leap);
    var (month, preceding) := MonthOf(r, leap);
    assert FromOrdinal(n) == Date(year, month, r - preceding + 1);
    MonthOfLeap(month, year);
    if year > MaxYear {
      YearsIncrease(MaxYear, year);
      YearStep(MaxYear);
    }
  }

  /** December 31 of the year whose end is day `n`. */
  lemma LastDayOfYear(y: int, n: int)
    requires y >= 1 && DaysBeforeYear(y + 1) == n && n <= MaxOrdinal
    ensures ValidDate(Date(y, 12, 31)) && ToOrdinal(Date(y, 12, 31)) == n
  {
    YearStep(y);
    if y > MaxYear {
      YearsIncrease(MaxYear + 1, y + 1);
      YearStep(MaxYear);
    }
  }

  /** `ord_to_ymd` undoes `ymd_to_ord`. */
  lemma FromOrdinalToOrdinal(d: Date)
    requires ValidDate(d)
    ensures FromOrdinal(ToOrdinal(d)) == d
  {
    OrdinalRange(d);
    ToOrdinalFromOrdinal(ToOrdinal(d));
    ToOrdinalInjective(FromOrdinal(ToOrdinal(d)), d);
  }
}
