/** The Gregorian calendar, counted one day at a time, and the loop-free
    conversion that the logger uses instead of localtime. */
module Calendar {
  import opened Division

  // ---------------------------------------------------------------- reference

  datatype Date = Date(year: int, month: int, day: int)

  predicate Leap(y: int) {
    y % 4 == 0 && (y % 100 != 0 || y % 400 == 0)
  }

  function DaysInMonth(y: int, m: int): (n: int)
    ensures 28 <= n <= 31
  {
    if m == 2 then (if Leap(y) then 29 else 28)
    else if m == 4 || m == 6 || m == 9 || m == 11 then 30
    else 31
  }

  predicate ValidDate(d: Date) {
    1 <= d.month <= 12 && 1 <= d.day <= DaysInMonth(d.year, d.month)
  }

  function NextDay(d: Date): Date {
    if d.day < DaysInMonth(d.year, d.month) then d.(day := d.day + 1)
    else if d.month < 12 then Date(d.year, d.month + 1, 1)
    else Date(d.year + 1, 1, 1)
  }

  /** The date `n` days after `d`. */
  function DaysAfter(d: Date, n: nat): Date {
    if n == 0 then d else NextDay(DaysAfter(d, n - 1))
  }

  function DaysBeforeMonth(y: int, m: int): int
    decreases m
  {
    if m <= 1 then 0 else DaysBeforeMonth(y, m - 1) + DaysInMonth(y, m - 1)
  }

  /** Days since 1970-01-01: the day part of the formula in section 4.16 of the
      POSIX.1-2017 Base Definitions, written with full years. */
  function DayNumber(d: Date): int {
    DaysBeforeMonth(d.year, d.month) + d.day - 1 + 365 * (d.year - 1970) + LeapDaysBefore(d.year)
  }

  function LeapDaysBefore(y: int): int {
    (y - 1969) / 4 - (y - 1901) / 100 + (y - 1601) / 400
  }

  const UNIX_EPOCH := Date(1970, 1, 1)

  lemma YearLength(y: int)
    ensures DaysBeforeMonth(y, 12) + 31 == if Leap(y) then 366 else 365
  {
    assert DaysBeforeMonth(y, 3) == 31 + DaysInMonth(y, 2) by {
      assert DaysBeforeMonth(y, 2) == 31;
    }
    assert DaysBeforeMonth(y, 6) == DaysBeforeMonth(y, 3) + 92 by {
      assert DaysBeforeMonth(y, 5) == DaysBeforeMonth(y, 3) + 61;
    }
    assert DaysBeforeMonth(y, 9) == DaysBeforeMonth(y, 6) + 92 by {
      assert DaysBeforeMonth(y, 8) == DaysBeforeMonth(y, 6) + 61;
    }
    assert DaysBeforeMonth(y, 12) == DaysBeforeMonth(y, 9) + 91 by {
      assert DaysBeforeMonth(y, 11) == DaysBeforeMonth(y, 9) + 61;
    }
  }

  lemma {:induction false} DayNumberStep(d: Date)
    requires ValidDate(d)
    ensures ValidDate(NextDay(d))
    ensures DayNumber(NextDay(d)) == DayNumber(d) + 1
  {
    if d.day == DaysInMonth(d.year, d.month) {
      if d.month == 12 {
        YearEnd(d.year);
      } else {
        assert DaysBeforeMonth(d.year, d.month + 1) == DaysBeforeMonth(d.year, d.month) + d.day;
      }
    }
  }

  lemma YearEnd(y: int)
    ensures DayNumber(Date(y + 1, 1, 1)) == DayNumber(Date(y, 12, 31)) + 1
  {
    YearLength(y);
    LeapCount(y);
  }

  lemma LeapCount(y: int)
    ensures LeapDaysBefore(y + 1) == LeapDaysBefore(y) + if Leap(y) then 1 else 0
  {
    Nested(y, 100, 4);
    Nested(y, 4, 25);
    MultiplesStep(y, 4, 492);
    MultiplesStep(y, 100, 19);
    MultiplesStep(y, 400, 4);
  }

  lemma Nested(y: int, k: int, j: int)
    requires k > 0 && j > 0
    ensures k * j > 0 && (y % (k * j) == 0 ==> y % k == 0)
  {
    assert k * j > 0;
    if y % (k * j) == 0 {
      var q := y / (k * j);
      assert y == (k * j) * q == k * (j * q);
      DivUnique(y, k, j * q, 0);
    }
  }

  lemma MultiplesStep(y: int, k: int, j: int)
    requires k > 1
    ensures (y - k * j) / k - (y - k * j - 1) / k == if y % k == 0 then 1 else 0
  {
    var q, r := y / k, y % k;
    assert y == k * q + r;
    assert k * (q - j) == k * q - k * j;
    DivUnique(y - k * j, k, q - j, r);
    if r > 0 {
      DivUnique(y - k * j - 1, k, q - j, r - 1);
    } else {
      assert k * (q - j - 1) == k * q - k * j - k;
      DivUnique(y - k * j - 1, k, q - j - 1, k - 1);
    }
  }

  /** The two references agree: `n` single days further is `n` more in the formula. */
  lemma {:induction false} DaysAfterCounts(d: Date, n: nat)
    requires ValidDate(d)
    ensures ValidDate(DaysAfter(d, n))
    ensures DayNumber(DaysAfter(d, n)) == DayNumber(d) + n
  {
    if n == 0 {
    } else {
      DaysAfterCounts(d, n - 1);
      DayNumberStep(DaysAfter(d, n - 1));
    }
  }

  // ----------------------------------------------------- the magic constants

  /** Division and remainder of C++: both truncate toward zero. */
  function TruncDiv(x: int, y: int): int
    requires y > 0
  {
    if x >= 0 then x / y else -((-x) / y)
  }

  function TruncMod(x: int, y: int): int
    requires y > 0
  {
    if x >= 0 then x % y else -((-x) % y)
  }

  lemma TruncDivMod(x: int, y: int)
    requires y > 0
    ensures x == y * TruncDiv(x, y) + TruncMod(x, y)
    ensures -y < TruncMod(x, y) < y
    ensures TruncMod(x, y) >= 0 <==> x >= 0 || x % y == 0
  {
    if x < 0 {
      var q, r := (-x) / y, (-x) % y;
      assert -x == y * q + r;
      assert y * (-q) == -(y * q);
      if r == 0 {
        DivUnique(x, y, -q, 0);
      } else {
        assert y * (-q - 1) == -(y * q) - y;
        DivUnique(x, y, -q - 1, y - r);
      }
    }
  }

  // Day counts of the algorithm start on 1 March of the year -4800.  A day
  // splits into a century, a year of the century and a month of the year, each
  // beginning in March, so that a leap day is always the last day of its year.

  function CenturyOf(a: int): int { (4 * a + 3) / 146097 }
  function CenturyStart(b: int): int { 146097 * b / 4 }
  function YearOf(c: int): int { (4 * c + 3) / 1461 }
  function YearStart(d: int): int { 1461 * d / 4 }
  function MonthOf(e: int): int { (5 * e + 2) / 153 }
  function MonthStart(m: int): int { (153 * m + 2) / 5 }

  /** The date on day `e` of the March-based year `y`. */
  function DateInYear(y: int, e: int): Date {
    DateInMonth(y, MonthOf(e), e - MonthStart(MonthOf(e)))
  }

  function DateInMonth(y: int, m: int, k: int): Date {
    if m >= 10 then Date(y + 1, m - 9, k + 1) else Date(y, m + 3, k + 1)
  }

  /** The date that the algorithm assigns to a shifted day count. */
  function Civil(a: nat): Date {
    var b := CenturyOf(a);
    var c := a - CenturyStart(b);
    var d := YearOf(c);
    DateInYear(100 * b + d - 4800, c - YearStart(d))
  }

  lemma CenturyStartIs(b: int)
    ensures CenturyStart(b) == 36524 * b + b / 4
  {
    DivUnique(146097 * b, 4, 36524 * b + b / 4, b % 4);
  }

  lemma YearStartIs(d: int)
    ensures YearStart(d) == 365 * d + d / 4
  {
    DivUnique(1461 * d, 4, 365 * d + d / 4, d % 4);
  }

  lemma QuarterStep(b: int)
    ensures 4 * (b / 4) <= b < 4 * (b / 4) + 4
    ensures (b + 1) / 4 == b / 4 + if b % 4 == 3 then 1 else 0
  {
  }

  lemma CenturyOfIs(a: int, b: int)
    ensures CenturyOf(a) == b <==> 146097 * b <= 4 * a + 3 < 146097 * b + 146097
  {
  }

  lemma YearOfIs(c: int, d: int)
    ensures YearOf(c) == d <==> 1461 * d <= 4 * c + 3 < 1461 * d + 1461
  {
  }

  lemma CenturyStep(a: nat)
    ensures 0 <= a - CenturyStart(CenturyOf(a)) < CenturyStart(CenturyOf(a) + 1) - CenturyStart(CenturyOf(a))
    ensures CenturyStart(CenturyOf(a) + 1) - CenturyStart(CenturyOf(a)) ==
            if CenturyOf(a) % 4 == 3 then 36525 else 36524
    ensures if a + 1 == CenturyStart(CenturyOf(a) + 1)
            then CenturyOf(a + 1) == CenturyOf(a) + 1
            else CenturyOf(a + 1) == CenturyOf(a)
  {
    hide CenturyOf, CenturyStart;
    var b := CenturyOf(a);
    CenturyOfIs(a, b);
    CenturyStartIs(b);
    CenturyStartIs(b + 1);
    QuarterStep(b);
    CenturyOfIs(a + 1, b);
    CenturyOfIs(a + 1, b + 1);
  }

  lemma YearStep(c: nat)
    requires c < 36525
    ensures 0 <= YearOf(c) <= 99
    ensures 0 <= c - YearStart(YearOf(c)) < YearStart(YearOf(c) + 1) - YearStart(YearOf(c))
    ensures YearStart(YearOf(c) + 1) - YearStart(YearOf(c)) == if YearOf(c) % 4 == 3 then 366 else 365
    ensures if c + 1 == YearStart(YearOf(c) + 1)
            then YearOf(c + 1) == YearOf(c) + 1
            else YearOf(c + 1) == YearOf(c)
    ensures YearStart(99) == 36159
  {
    hide YearOf, YearStart;
    var d := YearOf(c);
    YearOfIs(c, d);
    YearStartIs(d);
    YearStartIs(d + 1);
    YearStartIs(99);
    QuarterStep(d);
    YearOfIs(c + 1, d);
    YearOfIs(c + 1, d + 1);
  }

  /** Length of the `m`-th month of a year beginning in March; February is open-ended. */
  function MonthSize(m: int): int {
    if m == 1 || m == 3 || m == 6 || m == 8 then 30 else 31
  }

  lemma MonthStarts()
    ensures MonthStart(0) == 0 && MonthStart(11) == 337
    ensures forall m :: 0 <= m < 11 ==> MonthStart(m + 1) == MonthStart(m) + MonthSize(m)
  {
  }

  lemma DayInMonth(e: nat)
    requires e < 366
    ensures 0 <= MonthOf(e) <= 11
    ensures 0 <= e - MonthStart(MonthOf(e)) < MonthSize(MonthOf(e))
  {
    var m := MonthOf(e);
    assert 153 * m <= 5 * e + 2 < 153 * m + 153;
  }

  lemma InMonth(y: int, m: int, k: int)
    requires 0 <= m <= 11 && 0 <= k < MonthSize(m) && MonthStart(m) + k < 366
    ensures DateInYear(y, MonthStart(m) + k) == DateInMonth(y, m, k)
  {
    assert MonthOf(MonthStart(m) + k) == m by {
      assert 153 * m <= 5 * (MonthStart(m) + k) + 2 < 153 * m + 153;
    }
  }

  /** A March-based year is as long as the February at its end makes it. */
  function YearSize(y: int): int { if Leap(y + 1) then 366 else 365 }

  lemma YearSizeOfParts(b: int, d: int)
    requires 0 <= d <= 99
    ensures YearSize(100 * b + d - 4800) == if (if d < 99 then d % 4 == 3 else b % 4 == 3) then 366 else 365
  {
    var y := 100 * b + d - 4799;
    ModShift(d + 1, 4, 25 * b - 1200);
    if d < 99 {
      DivUnique(y, 100, b - 48, d + 1);
    } else {
      DivUnique(y, 100, b - 47, 0);
      QuarterCentury(b);
    }
  }

  lemma QuarterCentury(b: int)
    ensures (100 * b - 4700) % 400 == 0 <==> b % 4 == 3
  {
    var q, r := (b + 1) / 4, (b + 1) % 4;
    DivUnique(100 * b - 4700, 400, q - 12, 100 * r);
  }

  lemma ModShift(x: int, k: int, q: int)
    requires k > 0
    ensures (k * q + x) % k == x % k
  {
    assert k * (q + x / k) == k * q + k * (x / k);
    DivUnique(k * q + x, k, q + x / k, x % k);
  }

  lemma YearPartStep(a: nat)
    ensures var b := CenturyOf(a);
            var d := YearOf(a - CenturyStart(b));
            var e := a - CenturyStart(b) - YearStart(d);
            var b' := CenturyOf(a + 1);
            var d' := YearOf(a + 1 - CenturyStart(b'));
            var e' := a + 1 - CenturyStart(b') - YearStart(d');
            && 0 <= e < YearSize(100 * b + d - 4800)
            && if e + 1 < YearSize(100 * b + d - 4800) then 100 * b' + d' == 100 * b + d && e' == e + 1
               else 100 * b' + d' == 100 * b + d + 1 && e' == 0
  {
    CenturyStep(a);
    var b := CenturyOf(a);
    var c := a - CenturyStart(b);
    YearStep(c);
    YearSizeOfParts(b, YearOf(c));
    assert YearOf(0) == 0 && YearStart(0) == 0;
  }

  lemma DateInMonthStep(y: int, m: int, k: nat)
    requires 0 <= m <= 11
    requires k < if m == 11 then YearSize(y) - 337 else MonthSize(m)
    ensures ValidDate(DateInMonth(y, m, k))
    ensures NextDay(DateInMonth(y, m, k)) ==
            if k + 1 < (if m == 11 then YearSize(y) - 337 else MonthSize(m)) then DateInMonth(y, m, k + 1)
            else if m < 11 then DateInMonth(y, m + 1, 0)
            else DateInMonth(y + 1, 0, 0)
  {
  }

  /** Which month and day follow day `k` of month `m`, in a year of `size` days. */
  lemma DayAfter(y: int, m: int, k: nat, size: int)
    requires 365 <= size <= 366 && 0 <= m <= 11 && MonthStart(m) + k < size && k < MonthSize(m)
    ensures DateInYear(y, MonthStart(m) + k) == DateInMonth(y, m, k)
    ensures MonthStart(m) + k + 1 < size ==>
              DateInYear(y, MonthStart(m) + k + 1) ==
              if k + 1 < MonthSize(m) then DateInMonth(y, m, k + 1) else DateInMonth(y, m + 1, 0)
    ensures MonthStart(m) + k + 1 >= size ==> m == 11 && k + 1 == size - 337
    ensures m == 11 ==> k < size - 337
  {
    MonthStarts();
    InMonth(y, m, k);
    if k + 1 < MonthSize(m) {
      if MonthStart(m) + k + 1 < size {
        InMonth(y, m, k + 1);
      }
    } else if m < 11 {
      InMonth(y, m + 1, 0);
    }
  }

  lemma DateInYearStep(y: int, e: nat)
    requires e < YearSize(y)
    ensures ValidDate(DateInYear(y, e))
    ensures NextDay(DateInYear(y, e)) == if e + 1 < YearSize(y) then DateInYear(y, e + 1) else DateInYear(y + 1, 0)
  {
    hide Leap, MonthOf, MonthStart;
    var m := MonthOf(e);
    DayInMonth(e);
    DayAfter(y, m, e - MonthStart(m), YearSize(y));
    DateInMonthStep(y, m, e - MonthStart(m));
    MonthStarts();
    InMonth(y + 1, 0, 0);
  }

  /** The magic constants walk the calendar: one more day count is the next day. */
  lemma CivilStep(a: nat)
    ensures ValidDate(Civil(a))
    ensures Civil(a + 1) == NextDay(Civil(a))
  {
    hide Leap, MonthOf, MonthStart, YearStart, YearOf, CenturyStart, CenturyOf;
    YearPartStep(a);
    var b := CenturyOf(a);
    var d := YearOf(a - CenturyStart(b));
    var y := 100 * b + d - 4800;
    DateInYearStep(y, a - CenturyStart(b) - YearStart(d));
  }

  // ------------------------------------------------ what the algorithm means

  const ALGORITHM_EPOCH := Date(-4800, 3, 1)
  const DAYS_FROM_UNIX_TIME := 2472632

  lemma AlgorithmEpochIsCivil()
    ensures Civil(0) == ALGORITHM_EPOCH
  {
    hide CenturyOf, CenturyStart, YearOf, YearStart, DateInYear;
    CenturyOfIs(0, 0);
    CenturyStartIs(0);
    YearOfIs(0, 0);
    YearStartIs(0);
    MonthStarts();
    InMonth(-4800, 0, 0);
  }

  lemma {:induction false} CivilIsCalendar(a: nat)
    ensures Civil(a) == DaysAfter(ALGORITHM_EPOCH, a)
  {
    hide Civil;
    if a == 0 {
      AlgorithmEpochIsCivil();
    } else {
      CivilIsCalendar(a - 1);
      CivilStep(a - 1);
    }
  }

  lemma CivilDayNumber(a: nat)
    ensures ValidDate(Civil(a))
    ensures DayNumber(Civil(a)) == a - DAYS_FROM_UNIX_TIME
  {
    hide LeapDaysBefore;
    CivilIsCalendar(a);
    EpochDayNumber();
    DaysAfterCounts(ALGORITHM_EPOCH, a);
  }

  lemma EpochDayNumber()
    ensures DayNumber(ALGORITHM_EPOCH) == -DAYS_FROM_UNIX_TIME
  {
    assert DaysBeforeMonth(-4800, 3) == 60 by {
      assert DaysBeforeMonth(-4800, 2) == 31;
    }
    DivUnique(-4800 - 1969, 4, -1693, 3);
    DivUnique(-4800 - 1901, 100, -68, 99);
    DivUnique(-4800 - 1601, 400, -17, 399);
  }

  lemma UnixEpochIsCivil()
    ensures Civil(DAYS_FROM_UNIX_TIME) == UNIX_EPOCH
  {
    CenturyOfIs(2472632, 67);
    CenturyStartIs(67);
    YearOfIs(2472632 - 2447124, 69);
    YearStartIs(69);
  }

  /** The magic constants are the calendar: `n` days after 1970-01-01. */
  lemma {:induction false} CivilFromUnixEpoch(n: nat)
    ensures Civil(DAYS_FROM_UNIX_TIME + n) == DaysAfter(UNIX_EPOCH, n)
  {
    hide Civil;
    if n == 0 {
      UnixEpochIsCivil();
    } else {
      CivilFromUnixEpoch(n - 1);
      CivilStep(DAYS_FROM_UNIX_TIME + n - 1);
    }
  }

  // ------------------------------------------------------- FastSecondToDate

  /** A 32-bit `int`. */
  type Int32 = x: int | FitsInt32(x)

  predicate FitsInt32(x: int) { -0x8000_0000 <= x < 0x8000_0000 }

  /** Conversion of a 64-bit value to `int`: it keeps the low 32 bits. */
  function Wrap32(x: int): Int32 {
    (x + 0x8000_0000) % 0x1_0000_0000 - 0x8000_0000
  }

  /** The only `int` with the same low 32 bits. */
  lemma WrapIs(x: int, y: Int32)
    ensures (x - Wrap32(x)) % 0x1_0000_0000 == 0
    ensures (x - y) % 0x1_0000_0000 == 0 ==> y == Wrap32(x)
    ensures FitsInt32(x) ==> Wrap32(x) == x
  {
    var z := x + 0x8000_0000;
    assert z == 0x1_0000_0000 * (z / 0x1_0000_0000) + z % 0x1_0000_0000;
    if (x - y) % 0x1_0000_0000 == 0 {
      assert FitsInt32(y);
      DivUnique(z, 0x1_0000_0000, (x - y) / 0x1_0000_0000, y + 0x8000_0000);
    }
  }

  /** The fields of `struct tm` that the conversion sets. */
  datatype BrokenDown = BrokenDown(sec: int, min: int, hour: int, mday: int, mon: int, year: int) {
    function CalendarDate(): Date { Date(year + 1900, mon + 1, mday) }

    predicate Valid() {
      0 <= sec < 60 && 0 <= min < 60 && 0 <= hour < 24 && ValidDate(CalendarDate())
    }

    /** "Seconds Since the Epoch", section 4.16 of the POSIX.1-2017 Base Definitions. */
    function Seconds(): int {
      sec + 60 * min + 3600 * hour + 86400 * DayNumber(CalendarDate())
    }
  }

  function ShiftedHour(unixSec: int, zone: int): int {
    TruncDiv(Wrap32(TruncDiv(unixSec, 60)), 60) + zone
  }

  /** The sum of hours and zone is an `int`; otherwise C++ gives the call no meaning. */
  predicate Defined(unixSec: int, zone: int) { FitsInt32(ShiftedHour(unixSec, zone)) }

  /** The intermediate values for a day count, with the divisions of C++. */
  datatype Parts = Parts(b: int, c: int, d: int, e: int, m: int) {
    function ToDate(): Date {
      Date(b * 100 + d - 6700 + TruncDiv(m, 10) + 1900,
           TruncDiv(-m, 10) * 12 + m + 3,
           TruncDiv(-(153 * m + 2), 5) + e + 1)
    }

    predicate Small() {
      -2738 <= b <= 2738 && -36530 <= c < 36525 && -100 <= d <= 99 && -370 <= e < 366 && -12 <= m <= 11
    }
  }

  function PartsOf(a: int): Parts {
    var b := TruncDiv(a * 4 + 3, 146097);
    var c := TruncDiv(-b * 146097, 4) + a;
    var d := TruncDiv(c * 4 + 3, 1461);
    var e := TruncDiv(-d * 1461, 4) + c;
    Parts(b, c, d, e, TruncDiv(5 * e + 2, 153))
  }

  /** From the algorithm's epoch on, that is the date by the calendar. */
  lemma PartsAreCivil(a: nat)
    requires a < 100_000_000
    ensures PartsOf(a).Small() && PartsOf(a).ToDate() == Civil(a)
  {
    hide TruncDiv, DateInMonth, MonthStart, Civil;
    var p, b := PartsOf(a), CenturyOf(a);
    PartsInOrder(a);
    NegatedDiv(a * 4 + 3, 146097);
    NegatedDiv(b * 146097, 4);
    assert p.b == b && p.c == a - CenturyStart(b);
    var d := YearOf(p.c);
    NegatedDiv(p.c * 4 + 3, 1461);
    NegatedDiv(d * 1461, 4);
    assert p.d == d && p.e == p.c - YearStart(d);
    NegatedDiv(5 * p.e + 2, 153);
    assert p.m == MonthOf(p.e);
    DayInMonth(p.e);
    CivilParts(a);
    MonthFields(b, d, p.e, p.m);
    NegatedDiv(153 * p.m + 2, 5);
    NegatedDiv(p.m, 10);
  }

  /** Before it, truncation never gives a date: the day of the month is not positive. */
  lemma NoDateBeforeEra(a: int)
    requires -100_000_000 < a < 0
    ensures PartsOf(a).Small() && PartsOf(a).ToDate().day <= 0
  {
    var p := PartsOf(a);
    BelowZero(a);
    assert -36530 <= p.c < 0 && -2738 <= p.b <= 0;
    BelowZeroYear(p.c);
    assert -370 <= p.e < 0 && -100 <= p.d <= 0;
    BelowZeroMonth(p.e);
  }

  lemma BelowZero(a: int)
    requires -100_000_000 < a < 0
    ensures -2738 <= PartsOf(a).b <= 0 && -36530 <= PartsOf(a).c < 0
  {
    var n := (-4 * a - 3) / 146097;
    assert PartsOf(a).b == -n && PartsOf(a).c == n * 146097 / 4 + a;
  }

  lemma BelowZeroYear(c: int)
    requires -36530 <= c < 0
    ensures var d := TruncDiv(c * 4 + 3, 1461);
            -100 <= d <= 0 && -370 <= TruncDiv(-d * 1461, 4) + c < 0
  {
    var n := (-4 * c - 3) / 1461;
    assert TruncDiv(c * 4 + 3, 1461) == -n;
  }

  lemma BelowZeroMonth(e: int)
    requires -370 <= e < 0
    ensures var m := TruncDiv(5 * e + 2, 153);
            -12 <= m <= 0 && TruncDiv(-(153 * m + 2), 5) + e + 1 <= 0
  {
    var n := (-5 * e - 2) / 153;
    assert TruncDiv(5 * e + 2, 153) == -n;
  }

  /** The day count for the algorithm. */
  function DayCount(unixSec: int, zone: int): int {
    TruncDiv(ShiftedHour(unixSec, zone), 24) + DAYS_FROM_UNIX_TIME
  }

  /** The state that `FastSecondToDate` leaves in its `tm` argument. */
  function Converted(unixSec: int, zone: int): BrokenDown {
    var h := ShiftedHour(unixSec, zone);
    var date := PartsOf(DayCount(unixSec, zone)).ToDate();
    BrokenDown(TruncMod(unixSec, 60), TruncMod(Wrap32(TruncDiv(unixSec, 60)), 60), TruncMod(h, 24),
               date.day, date.month - 1, date.year - 1900)
  }

  lemma DayCountRange(unixSec: int, zone: int)
    requires Defined(unixSec, zone)
    ensures -100_000_000 < DayCount(unixSec, zone) < 100_000_000
  {
  }

  class Tm {
    var sec: Int32
    var min: Int32
    var hour: Int32
    var mday: Int32
    var mon: Int32
    var year: Int32

    function Fields(): BrokenDown
      reads this
    {
      BrokenDown(sec, min, hour, mday, mon, year)
    }
  }

  /** The date of a day count by its parts. */
  lemma CivilParts(a: nat)
    ensures var b := CenturyOf(a);
            var d := YearOf(a - CenturyStart(b));
            var e := a - CenturyStart(b) - YearStart(d);
            Civil(a) == DateInMonth(100 * b + d - 4800, MonthOf(e), e - MonthStart(MonthOf(e)))
  {
  }

  lemma PartsInOrder(a: nat)
    requires a < 100_000_000
    ensures var b := CenturyOf(a);
            var c := a - CenturyStart(b);
            var d := YearOf(c);
            var e := c - YearStart(d);
            0 <= b <= 2738 && 0 <= c < 36525 && 0 <= d <= 99 && 0 <= e < 366
  {
    hide CenturyOf, CenturyStart, YearOf, YearStart;
    var b := CenturyOf(a);
    var c := a - CenturyStart(b);
    PartRanges(a, b, c, YearOf(c), c - YearStart(YearOf(c)));
  }

  lemma PartRanges(a: nat, b: int, c: int, d: int, e: int)
    requires a < 100_000_000
    requires b == CenturyOf(a) && c == a - CenturyStart(b) && d == YearOf(c) && e == c - YearStart(d)
    ensures 0 <= b <= 2738 && 0 <= c < 36525 && 0 <= d <= 99 && 0 <= e < 366
  {
    hide CenturyStart, YearStart, YearOf, YearSize;
    CenturyStep(a);
    assert 0 <= b <= 2738;
    YearStep(c);
    YearPartStep(a);
    YearSizeRange(100 * b + d - 4800);
  }

  lemma MonthFields(b: int, d: int, e: int, m: int)
    requires 0 <= m <= 11
    ensures DateInMonth(100 * b + d - 4800, m, e - MonthStart(m)) ==
            Date(b * 100 + d - 6700 + m / 10 + 1900, -(m / 10) * 12 + m + 3, -((153 * m + 2) / 5) + e + 1)
  {
  }

  lemma YearSizeRange(y: int)
    ensures 365 <= YearSize(y) <= 366
  {
  }

  /** No overflow: the value of an `int` expression of the source. */
  function Checked(x: int): int
    requires FitsInt32(x)
  {
    x
  }

  lemma NegatedDiv(x: int, y: int)
    requires x >= 0 && y > 0
    ensures TruncDiv(-x, y) == -(x / y) && TruncDiv(x, y) == x / y
  {
    if x == 0 {
      DivUnique(0, y, 0, 0);
    }
  }

  method FastSecondToDate(unixSec: int, tm: Tm, zone: int) returns (status: int)
    requires Defined(unixSec, zone)
    modifies tm
    ensures status == 0 && tm.Fields() == Converted(unixSec, zone)
  {
    hide TruncDiv, TruncMod, Wrap32, PartsOf;
    DayCountRange(unixSec, zone);
    TruncRange(unixSec, zone);
    tm.sec := TruncMod(unixSec, 60);
    var i: int := Wrap32(TruncDiv(unixSec, 60));
    tm.min := TruncMod(i, 60);
    i := TruncDiv(i, 60);
    tm.hour := TruncMod(Checked(i + zone), 24);
    tm.mday := TruncDiv(Checked(i + zone), 24);
    SetDate(tm);
    status := 0;
  }

  /** The second half of the conversion, from the day count left in `mday`. */
  method SetDate(tm: Tm)
    requires -100_000_000 < tm.mday + DAYS_FROM_UNIX_TIME < 100_000_000
    modifies tm`mday, tm`mon, tm`year
    ensures var a := old(tm.mday) + DAYS_FROM_UNIX_TIME;
            && tm.Fields().CalendarDate() == PartsOf(a).ToDate()
            && (a >= 0 ==> tm.Fields().CalendarDate() == Civil(a))
            && (a < 0 ==> tm.Fields().CalendarDate().day <= 0)
  {
    hide TruncDiv, Civil;
    var a := Checked(tm.mday + 2472632);
    if a >= 0 { PartsAreCivil(a); } else { NoDateBeforeEra(a); }
    var b := TruncDiv(Checked(a * 4 + 3), 146097);
    var c := Checked(TruncDiv(Checked(-b * 146097), 4) + a);
    var d := TruncDiv(Checked(c * 4 + 3), 1461);
    var e := Checked(-d * 1461);
    e := Checked(TruncDiv(e, 4) + c);
    var m := TruncDiv(Checked(5 * e + 2), 153);
    TenthRange(m);
    tm.mday := Checked(TruncDiv(-Checked(153 * m + 2), 5) + e + 1);
    tm.mon := Checked(TruncDiv(-m, 10) * 12 + m + 2);
    tm.year := Checked(b * 100 + d - 6700 + TruncDiv(m, 10));
  }

  lemma TenthRange(m: int)
    requires -12 <= m <= 11
    ensures -1 <= TruncDiv(m, 10) <= 1 && -1 <= TruncDiv(-m, 10) <= 1
    ensures -340 <= TruncDiv(-(153 * m + 2), 5) <= 367
  {
  }

  lemma TruncRange(unixSec: int, zone: int)
    ensures -60 < TruncMod(unixSec, 60) < 60
    ensures var i := Wrap32(TruncDiv(unixSec, 60));
            -60 < TruncMod(i, 60) < 60 && FitsInt32(TruncDiv(i, 60))
    ensures -24 < TruncMod(ShiftedHour(unixSec, zone), 24) < 24
  {
  }

  /** The guard under which the code is right; a caller can check it beforehand. */
  predicate ConvertsExactly(unixSec: int, zone: int) {
    && FitsInt32(TruncDiv(unixSec, 60))
    && (unixSec >= 0 || unixSec % 3600 == 0)
    && (unixSec / 3600 + zone >= 0 || (unixSec / 3600 + zone) % 24 == 0)
    && unixSec / 3600 + zone >= -24 * DAYS_FROM_UNIX_TIME
  }

  /** Within the algorithm's era, the fields add up to the truncated minute count. */
  lemma ConvertedSeconds(unixSec: int, zone: int)
    requires Defined(unixSec, zone) && DayCount(unixSec, zone) >= 0
    ensures Converted(unixSec, zone).CalendarDate() == Civil(DayCount(unixSec, zone))
    ensures Converted(unixSec, zone).Seconds() ==
            TruncMod(unixSec, 60) + 60 * Wrap32(TruncDiv(unixSec, 60)) + 3600 * zone
    ensures ValidDate(Converted(unixSec, zone).CalendarDate())
  {
    hide Civil, TruncDiv, TruncMod, Wrap32, DayNumber, PartsOf;
    DayCountRange(unixSec, zone);
    var h := ShiftedHour(unixSec, zone);
    PartsAreCivil(DayCount(unixSec, zone));
    CivilDayNumber(DayCount(unixSec, zone));
    TruncDivMod(h, 24);
    TruncDivMod(Wrap32(TruncDiv(unixSec, 60)), 60);
  }

  /** When the guard holds, nothing has been cut off on the way to the day count. */
  lemma ExactParts(unixSec: int, zone: int)
    requires Defined(unixSec, zone) && ConvertsExactly(unixSec, zone)
    ensures var h := ShiftedHour(unixSec, zone);
            && h == unixSec / 3600 + zone && TruncMod(h, 24) >= 0
            && Wrap32(TruncDiv(unixSec, 60)) == TruncDiv(unixSec, 60)
            && TruncMod(unixSec, 60) >= 0 && TruncMod(TruncDiv(unixSec, 60), 60) >= 0
            && DayCount(unixSec, zone) >= 0
  {
    hide TruncDiv, TruncMod;
    HourOf(unixSec);
    TruncDivMod(ShiftedHour(unixSec, zone), 24);
  }

  lemma HourOf(unixSec: int)
    requires unixSec >= 0 || unixSec % 3600 == 0
    ensures TruncDiv(TruncDiv(unixSec, 60), 60) == unixSec / 3600
    ensures TruncMod(unixSec, 60) >= 0 && TruncMod(TruncDiv(unixSec, 60), 60) >= 0
  {
    var q, r := unixSec / 3600, unixSec % 3600;
    if unixSec >= 0 {
      DivUnique(unixSec, 60, 60 * q + r / 60, r % 60);
      DivUnique(60 * q + r / 60, 60, q, r / 60);
    } else {
      DivUnique(-unixSec, 60, 60 * -q, 0);
      DivUnique(60 * -q, 60, -q, 0);
    }
  }

  lemma NoNegativePart(unixSec: int)
    requires TruncMod(unixSec, 60) >= 0 && TruncMod(TruncDiv(unixSec, 60), 60) >= 0
    ensures unixSec >= 0 || unixSec % 3600 == 0
  {
    if unixSec < 0 {
      var s := -unixSec;
      TruncDivMod(unixSec, 60);
      TruncDivMod(TruncDiv(unixSec, 60), 60);
      assert s % 60 == 0 && (s / 60) % 60 == 0;
      DivUnique(unixSec, 3600, -(s / 60 / 60), 0);
    }
  }

  /** The conversion is exact if and only if the guard holds, on every input. */
  lemma ConversionIsExact(unixSec: int, zone: int)
    requires Defined(unixSec, zone)
    ensures Converted(unixSec, zone).Valid() && Converted(unixSec, zone).Seconds() == unixSec + 3600 * zone
            <==> ConvertsExactly(unixSec, zone)
  {
    hide Civil, TruncDiv, TruncMod, DayNumber, ValidDate, PartsOf, ConvertsExactly;
    if ConvertsExactly(unixSec, zone) {
      ExactParts(unixSec, zone);
      ConvertedSeconds(unixSec, zone);
      FieldsInRange(unixSec, zone);
      TruncDivMod(unixSec, 60);
    } else if DayCount(unixSec, zone) < 0 {
      DayCountRange(unixSec, zone);
      NoDateBeforeEra(DayCount(unixSec, zone));
      NotPositive(PartsOf(DayCount(unixSec, zone)).ToDate());
    } else {
      ConvertedSeconds(unixSec, zone);
      var f := Converted(unixSec, zone);
      if f.sec >= 0 && f.min >= 0 && f.hour >= 0 {
        NotExact(unixSec, zone);
      }
    }
  }

  lemma NotPositive(d: Date)
    requires d.day <= 0
    ensures !ValidDate(d)
  {
  }

  lemma FieldsInRange(unixSec: int, zone: int)
    ensures TruncMod(unixSec, 60) < 60 && TruncMod(ShiftedHour(unixSec, zone), 24) < 24
    ensures TruncMod(Wrap32(TruncDiv(unixSec, 60)), 60) < 60
  {
  }

  /** Where the guard fails inside the era, a field is negative or minutes have been cut off. */
  lemma NotExact(unixSec: int, zone: int)
    requires DayCount(unixSec, zone) >= 0 && !ConvertsExactly(unixSec, zone)
    requires TruncMod(unixSec, 60) >= 0 && TruncMod(ShiftedHour(unixSec, zone), 24) >= 0
    requires TruncMod(Wrap32(TruncDiv(unixSec, 60)), 60) >= 0
    ensures TruncMod(unixSec, 60) + 60 * Wrap32(TruncDiv(unixSec, 60)) != unixSec
  {
    hide TruncDiv, TruncMod;
    var q := TruncDiv(unixSec, 60);
    TruncDivMod(unixSec, 60);
    TruncDivMod(ShiftedHour(unixSec, zone), 24);
    if FitsInt32(q) {
      assert Wrap32(q) == q;
      NoNegativePart(unixSec);
      HourOf(unixSec);
    }
  }

  /** When exact, the fields are the `t / 86400`-th day counted from 1970-01-01 and the time of that
      day; days before it are counted from the algorithm's epoch. */
  lemma ConversionIsCalendar(unixSec: int, zone: int)
    requires Defined(unixSec, zone) && ConvertsExactly(unixSec, zone)
    ensures var t := unixSec + 3600 * zone;
            var f := Converted(unixSec, zone);
            && t / 86400 + DAYS_FROM_UNIX_TIME >= 0
            && f.CalendarDate() == DaysAfter(ALGORITHM_EPOCH, t / 86400 + DAYS_FROM_UNIX_TIME)
            && (t >= 0 ==> f.CalendarDate() == DaysAfter(UNIX_EPOCH, t / 86400))
            && f.hour == t % 86400 / 3600 && f.min == t % 3600 / 60 && f.sec == t % 60
  {
    hide Civil, TruncDiv, TruncMod, DayNumber, ValidDate, PartsOf, ConvertsExactly;
    var t := unixSec + 3600 * zone;
    var f := Converted(unixSec, zone);
    ExactParts(unixSec, zone);
    ConvertedSeconds(unixSec, zone);
    FieldsInRange(unixSec, zone);
    var h := ShiftedHour(unixSec, zone);
    TruncDivMod(h, 24);
    TruncDivMod(unixSec, 60);
    TruncDivMod(TruncDiv(unixSec, 60), 60);
    var day := TruncDiv(h, 24);
    assert t == 86400 * day + 3600 * f.hour + 60 * f.min + f.sec;
    TimeOfDay(t, day, f.hour, f.min, f.sec);
    CivilIsCalendar(day + DAYS_FROM_UNIX_TIME);
    if t >= 0 {
      CivilFromUnixEpoch(day);
    }
  }

  lemma TimeOfDay(t: int, day: int, hour: int, min: int, sec: int)
    requires t == 86400 * day + 3600 * hour + 60 * min + sec
    requires 0 <= hour < 24 && 0 <= min < 60 && 0 <= sec < 60
    ensures t / 86400 == day && t % 86400 / 3600 == hour && t % 3600 / 60 == min && t % 60 == sec
  {
    DivUnique(t, 86400, day, 3600 * hour + 60 * min + sec);
    DivUnique(t % 86400, 3600, hour, 60 * min + sec);
    DivUnique(t, 3600, 24 * day + hour, 60 * min + sec);
    DivUnique(t % 3600, 60, min, sec);
    DivUnique(t, 60, 60 * (24 * day + hour) + min, sec);
  }

  /** Half past midnight on 1 January 1970, seen one hour further west: hour 0 - 1 stays negative. */
  lemma WestOfTheEpochFails()
    ensures !ConvertsExactly(1800, -1)
    ensures Converted(1800, -1).hour == -1
  {
    hide Civil, PartsOf;
  }
}
