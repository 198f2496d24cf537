/** Calendar arithmetic behind the position estimate: the proleptic Gregorian
    calendar of Python's `datetime`, the day difference taken by subtracting
    two `datetime` values, and the strict `YYYY-MM-DD` form of the target. */
module Calendar {
  import opened Lines

  datatype Option<T> = None | Some(value: T)

  datatype Date = Date(year: int, month: int, day: int)

  /** The range of years `datetime` accepts. */
  const MIN_YEAR := 1
  const MAX_YEAR := 9999

  /** The Gregorian leap-year rule. */
  predicate IsLeap(y: int)
  {
    y % 4 == 0 && (y % 100 != 0 || y % 400 == 0)
  }

  function YearLength(y: int): int
  {
    if IsLeap(y) then 366 else 365
  }

  function DaysInMonth(y: int, m: int): int
    requires 1 <= m <= 12
  {
    if m == 2 then (if IsLeap(y) then 29 else 28)
    else if m == 4 || m == 6 || m == 9 || m == 11 then 30
    else 31
  }

  /** A date that `datetime` can represent; any other triple raises
      `ValueError` when the `datetime` is built. */
  predicate ValidDate(d: Date)
  {
    MIN_YEAR <= d.year <= MAX_YEAR && 1 <= d.month <= 12 &&
    1 <= d.day <= DaysInMonth(d.year, d.month)
  }

  /** Days in the years before year `y`, in closed form. */
  function DaysBeforeYear(y: int): int
  {
    var p := y - 1;
    p * 365 + p / 4 - p / 100 + p / 400
  }

  /** Days in the months of year `y` before month `m`, from a table. */
  function DaysBeforeMonth(y: int, m: int): int
    requires 1 <= m <= 12
  {
    var table := [0, 31, 59, 90, 120, 151, 181, 212, 243, 273, 304, 334];
    table[m - 1] + (if m > 2 && IsLeap(y) then 1 else 0)
  }

  /** The proleptic Gregorian day number; 1 January of year 1 is day 1. */
  function Ordinal(d: Date): int
    requires 1 <= d.month <= 12
  {
    DaysBeforeYear(d.year) + DaysBeforeMonth(d.year, d.month) + d.day
  }

  /** `(datetime(t.year, t.month, t.day) - datetime(refYear, 1, 1)).days`. */
  function DaysDiff(target: Date, refYear: int): int
    requires 1 <= target.month <= 12
  {
    Ordinal(target) - Ordinal(Date(refYear, 1, 1))
  }

  // ---------------------------------------------------------------------
  // Reference definitions: the day count obtained by adding up the lengths
  // of the years and months one by one.

  /** Days in the years 1 .. y-1, added up one year at a time. */
  function YearsTotal(y: int): int
    requires y >= 1
    decreases y
  {
    if y == 1 then 0 else YearsTotal(y - 1) + YearLength(y - 1)
  }

  /** Days in the months 1 .. m-1 of year `y`, added up one month at a time. */
  function MonthsTotal(y: int, m: int): int
    requires 1 <= m <= 12
    decreases m
  {
    if m == 1 then 0 else MonthsTotal(y, m - 1) + DaysInMonth(y, m - 1)
  }

  /** The day after `d` in the calendar. */
  function NextDay(d: Date): Date
    requires ValidDate(d)
  {
    if d.day < DaysInMonth(d.year, d.month) then Date(d.year, d.month, d.day + 1)
    else if d.month < 12 then Date(d.year, d.month + 1, 1)
    else Date(d.year + 1, 1, 1)
  }

  /** `a` comes before `b` in the calendar (lexicographic on year, month, day). */
  predicate Before(a: Date, b: Date)
  {
    a.year < b.year ||
    (a.year == b.year && (a.month < b.month || (a.month == b.month && a.day < b.day)))
  }

  lemma MulSub(a: int, b: int, k: int)
    ensures a * k - b * k == (a - b) * k
  {
  }

  lemma {:induction false} MulAtLeast(m: int, k: int)
    requires m >= 1 && k > 0
    ensures m * k >= k
    decreases m
  {
    if m > 1 {
      MulAtLeast(m - 1, k);
      assert m * k == (m - 1) * k + k;
    }
  }

  /** Euclidean division leaves one quotient and one remainder. */
  lemma DivUnique(a: int, k: int, q: int, r: int)
    requires k > 0 && a == q * k + r && 0 <= r < k
    ensures a / k == q && a % k == r
  {
    var q', r' := a / k, a % k;
    assert a == q' * k + r';
    MulSub(q, q', k);
    if q > q' {
      MulAtLeast(q - q', k);
    } else if q < q' {
      MulAtLeast(q' - q, k);
    }
  }

  /** Going from `p` to `p + 1` raises `p / k` by one exactly at a multiple of `k`. */
  lemma DivStep(p: int, k: int)
    requires k > 0
    ensures (p + 1) / k == p / k + (if (p + 1) % k == 0 then 1 else 0)
  {
    var q, r := p / k, p % k;
    if r == k - 1 {
      DivUnique(p + 1, k, q + 1, 0);
    } else {
      DivUnique(p + 1, k, q, r + 1);
    }
  }

  lemma DaysBeforeYearStep(y: int)
    ensures DaysBeforeYear(y + 1) == DaysBeforeYear(y) + YearLength(y)
  {
    DivStep(y - 1, 4);
    DivStep(y - 1, 100);
    DivStep(y - 1, 400);
  }

  /** The closed form counts the days of the preceding years. */
  lemma {:induction false} DaysBeforeYearCounts(y: int)
    requires y >= 1
    ensures DaysBeforeYear(y) == YearsTotal(y)
    decreases y
  {
    if y > 1 {
      DaysBeforeYearCounts(y - 1);
      DaysBeforeYearStep(y - 1);
    }
  }

  lemma DaysBeforeMonthStep(y: int, m: int)
    requires 1 <= m < 12
    ensures DaysBeforeMonth(y, m + 1) == DaysBeforeMonth(y, m) + DaysInMonth(y, m)
  {
  }

  /** The month table counts the days of the preceding months. */
  lemma {:induction false} DaysBeforeMonthCounts(y: int, m: int)
    requires 1 <= m <= 12
    ensures DaysBeforeMonth(y, m) == MonthsTotal(y, m)
    decreases m
  {
    if m > 1 {
      DaysBeforeMonthCounts(y, m - 1);
      DaysBeforeMonthStep(y, m - 1);
    }
  }

  /** The day number is the count of days from 1 January of year 1. */
  lemma OrdinalCounts(d: Date)
    requires ValidDate(d)
    ensures Ordinal(d) == YearsTotal(d.year) + MonthsTotal(d.year, d.month) + d.day
  {
    DaysBeforeYearCounts(d.year);
    DaysBeforeMonthCounts(d.year, d.month);
  }

  /** Consecutive days have consecutive day numbers, across month and year ends. */
  lemma OrdinalNextDay(d: Date)
    requires ValidDate(d) && d != Date(MAX_YEAR, 12, 31)
    ensures ValidDate(NextDay(d)) && Ordinal(NextDay(d)) == Ordinal(d) + 1
  {
    if d.day == DaysInMonth(d.year, d.month) {
      if d.month < 12 {
        DaysBeforeMonthStep(d.year, d.month);
      } else {
        DaysBeforeYearStep(d.year);
      }
    }
  }

  /** A day number lies inside the span of its own year. */
  lemma OrdinalWithinYear(d: Date)
    requires ValidDate(d)
    ensures DaysBeforeYear(d.year) < Ordinal(d) <= DaysBeforeYear(d.year + 1)
  {
    DaysBeforeYearStep(d.year);
  }

  lemma {:induction false} DaysBeforeYearMonotone(a: int, b: int)
    requires a <= b
    ensures DaysBeforeYear(a) <= DaysBeforeYear(b)
    decreases b - a
  {
    if a < b {
      DaysBeforeYearStep(a);
      DaysBeforeYearMonotone(a + 1, b);
    }
  }

  lemma {:induction false} DaysBeforeMonthMonotone(y: int, a: int, b: int)
    requires 1 <= a < b <= 12
    ensures DaysBeforeMonth(y, a) + DaysInMonth(y, a) <= DaysBeforeMonth(y, b)
    decreases b - a
  {
    DaysBeforeMonthStep(y, a);
    if a + 1 < b {
      DaysBeforeMonthMonotone(y, a + 1, b);
    }
  }

  lemma OrdinalStrictlyIncreasing(a: Date, b: Date)
    requires ValidDate(a) && ValidDate(b) && Before(a, b)
    ensures Ordinal(a) < Ordinal(b)
  {
    if a.year < b.year {
      OrdinalWithinYear(a);
      OrdinalWithinYear(b);
      DaysBeforeYearMonotone(a.year + 1, b.year);
    } else if a.month < b.month {
      DaysBeforeMonthMonotone(a.year, a.month, b.month);
    }
  }

  /** Day numbers order valid dates exactly as the calendar does. */
  lemma OrdinalOrder(a: Date, b: Date)
    requires ValidDate(a) && ValidDate(b)
    ensures Before(a, b) <==> Ordinal(a) < Ordinal(b)
  {
    if Before(a, b) {
      OrdinalStrictlyIncreasing(a, b);
    } else if a != b {
      OrdinalStrictlyIncreasing(b, a);
    }
  }

  /** The day difference is negative exactly when the target lies in a year
      before the reference year. */
  lemma DaysDiffSign(target: Date, refYear: int)
    requires ValidDate(target) && ValidDate(Date(refYear, 1, 1))
    ensures DaysDiff(target, refYear) < 0 <==> target.year < refYear
  {
    OrdinalOrder(target, Date(refYear, 1, 1));
  }

  // ---------------------------------------------------------------------
  // The target date as text.

  const DASH: byte := 45
  const ZERO: byte := 48

  predicate IsDigit(b: byte)
  {
    ZERO <= b <= ZERO + 9
  }

  predicate AllDigits(s: Bytes)
  {
    forall i :: 0 <= i < |s| ==> IsDigit(s[i])
  }

  /** The decimal value of a string of digits. */
  function DecimalValue(s: Bytes): nat
    requires AllDigits(s)
    decreases |s|
  {
    if s == [] then 0 else DecimalValue(s[..|s| - 1]) * 10 + (s[|s| - 1] - ZERO)
  }

  function Pow10(w: nat): nat
  {
    if w == 0 then 1 else 10 * Pow10(w - 1)
  }

  /** `n` written in decimal with exactly `width` digits, zero-padded. */
  function Decimal(n: nat, width: nat): (s: Bytes)
    ensures |s| == width && AllDigits(s)
  {
    if width == 0 then [] else Decimal(n / 10, width - 1) + [(n % 10 + ZERO) as byte]
  }

  /** `strptime(s, '%Y-%m-%d')` in its strict form: four digits, dash, two
      digits, dash, two digits, naming a date `datetime` accepts. */
  function ParseDate(s: Bytes): (r: Option<Date>)
    ensures r.Some? ==> ValidDate(r.value)
  {
    if |s| == 10 && s[4] == DASH && s[7] == DASH &&
       AllDigits(s[..4]) && AllDigits(s[5..7]) && AllDigits(s[8..])
    then
      var d := Date(DecimalValue(s[..4]), DecimalValue(s[5..7]), DecimalValue(s[8..]));
      if ValidDate(d) then Some(d) else None
    else None
  }

  /** The strict text form of a date: the inverse of `ParseDate`, used only
      to state that the parse loses nothing (the source never formats a date). */
  function FormatDate(d: Date): (s: Bytes)
    requires ValidDate(d)
    ensures |s| == 10
  {
    Decimal(d.year, 4) + [DASH] + Decimal(d.month, 2) + [DASH] + Decimal(d.day, 2)
  }

  lemma {:induction false} DecimalRoundTrip(n: nat, width: nat)
    requires n < Pow10(width)
    ensures DecimalValue(Decimal(n, width)) == n
  {
    if width > 0 {
      var s := Decimal(n, width);
      assert s[..|s| - 1] == Decimal(n / 10, width - 1);
      DecimalRoundTrip(n / 10, width - 1);
    }
  }

  lemma {:induction false} DecimalOfValue(s: Bytes)
    requires AllDigits(s)
    ensures Decimal(DecimalValue(s), |s|) == s
    decreases |s|
  {
    if s != [] {
      var init := s[..|s| - 1];
      DecimalOfValue(init);
      assert s == init + [s[|s| - 1]];
    }
  }

  /** Formatting a valid date and parsing it back gives the date. */
  lemma ParseFormat(d: Date)
    requires ValidDate(d)
    ensures ParseDate(FormatDate(d)) == Some(d)
  {
    var s := FormatDate(d);
    assert s[..4] == Decimal(d.year, 4);
    assert s[5..7] == Decimal(d.month, 2);
    assert s[8..] == Decimal(d.day, 2);
    DecimalRoundTrip(d.year, 4);
    DecimalRoundTrip(d.month, 2);
    DecimalRoundTrip(d.day, 2);
  }

  /** A parsed date prints back as exactly the text it was parsed from, so
      the target text and the target date determine each other. */
  lemma FormatParse(s: Bytes)
    requires ParseDate(s).Some?
    ensures FormatDate(ParseDate(s).value) == s
  {
    DecimalOfValue(s[..4]);
    DecimalOfValue(s[5..7]);
    DecimalOfValue(s[8..]);
    assert s == s[..4] + [s[4]] + s[5..7] + [s[7]] + s[8..];
  }
}
