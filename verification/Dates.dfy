/** Dates as keys: validation (src/utility/time/date_validator.h) and packing into 32 bits
    (src/utility/memory/value_decoder.h). */
module Dates {
  import opened KeyOrder

  predicate LeapYear(y: int) { (y % 100 != 0 && y % 4 == 0) || y % 400 == 0 }

  const DAYS_IN_MONTH := [0, 31, 28, 31, 30, 31, 30, 31, 31, 30, 31, 30, 31]

  function MonthLength(y: int, m: int): int
    requires 1 <= m <= 12
  {
    DAYS_IN_MONTH[m] + if m == 2 && LeapYear(y) then 1 else 0
  }

  predicate Validate(y: int, m: int, d: int) {
    0 <= y <= 9999 && 0 < m <= 12 && 0 < d <= MonthLength(y, m)
  }

  /** Year, month and day in bits 16 and up, 8 to 15, 0 to 7. */
  function PackBits(y: bv32, m: bv32, d: bv32): bv32 {
    (y << 16) | (m << 8) | d
  }

  function Pack(y: int, m: int, d: int): int
    requires Validate(y, m, d)
  {
    y * 65536 + m * 256 + d
  }

  /** The shifted fields do not overlap: packing is addition, and the result is a positive
      signed 32-bit number. */
  lemma PackBitsIsPack(y: bv32, m: bv32, d: bv32)
    requires y <= 9999 && m <= 12 && d <= 31
    ensures PackBits(y, m, d) == y * 65536 + m * 256 + d
    ensures PackBits(y, m, d) < 0x8000_0000
  {
  }

  // ---------------------------------------------------------------- the calendar

  /** Days before year y, counted from year 0. */
  function YearStart(y: nat): nat {
    if y == 0 then 0 else YearStart(y - 1) + 365 + if LeapYear(y - 1) then 1 else 0
  }

  function MonthStart(y: int, m: int): nat
    requires 1 <= m <= 13
  {
    if m == 1 then 0 else MonthStart(y, m - 1) + MonthLength(y, m - 1)
  }

  /** The day's number in the calendar. */
  function DayNumber(y: int, m: int, d: int): int
    requires Validate(y, m, d)
  {
    YearStart(y) + MonthStart(y, m) + d
  }

  lemma YearLength(y: int)
    ensures MonthStart(y, 13) == 365 + if LeapYear(y) then 1 else 0
  {
    var leap := if LeapYear(y) then 1 else 0;
    assert MonthStart(y, 2) == 31;
    assert MonthStart(y, 3) == 59 + leap;
    assert MonthStart(y, 4) == 90 + leap;
    assert MonthStart(y, 5) == 120 + leap;
    assert MonthStart(y, 6) == 151 + leap;
    assert MonthStart(y, 7) == 181 + leap;
    assert MonthStart(y, 8) == 212 + leap;
    assert MonthStart(y, 9) == 243 + leap;
    assert MonthStart(y, 10) == 273 + leap;
    assert MonthStart(y, 11) == 304 + leap;
    assert MonthStart(y, 12) == 334 + leap;
  }

  lemma {:induction false} MonthsGrow(y: int, m: int, n: int)
    requires 1 <= m < n <= 13
    ensures MonthStart(y, m) + MonthLength(y, m) <= MonthStart(y, n)
    decreases n
  {
    if m < n - 1 { MonthsGrow(y, m, n - 1); }
  }

  lemma {:induction false} YearsGrow(x: nat, y: nat)
    requires x < y
    ensures YearStart(x + 1) <= YearStart(y)
    decreases y
  {
    if x + 1 < y { YearsGrow(x, y - 1); }
  }

  // ---------------------------------------------------------------- closed forms

  // Passing a multiple of k.
  lemma OneMultiple(y: nat, k: nat)
    requires k > 0
    ensures (y + k) / k == (y + k - 1) / k + if y % k == 0 then 1 else 0
  {
    var q, r := y / k, y % k;
    assert y == q * k + r;
    QuotientIs(y + k, k, q + 1, r);
    if r == 0 {
      QuotientIs(y + k - 1, k, q, k - 1);
    } else {
      QuotientIs(y + k - 1, k, q + 1, r - 1);
    }
  }

  lemma QuotientIs(n: nat, k: nat, q: nat, r: nat)
    requires r < k && n == q * k + r
    ensures n / k == q
  {
    var e := n / k - q;
    assert e * k == r - n % k;
    MultiplesApart(e, k);
  }

  lemma MultiplesApart(e: int, k: nat)
    ensures (e > 0 ==> e * k >= k) && (e < 0 ==> e * k + k <= 0)
  {
  }

  /** The days before a year: 365 for each year, one more for each multiple of 4 that is not one of 100 or is one of
      400, year 0 included. */
  lemma {:induction false} YearStartClosed(y: nat)
    ensures YearStart(y) == 365 * y + (y + 3) / 4 - (y + 99) / 100 + (y + 399) / 400
  {
    hide LeapYear;
    if y > 0 {
      YearStartClosed(y - 1);
      OneMultiple(y - 1, 4);
      OneMultiple(y - 1, 100);
      OneMultiple(y - 1, 400);
      LeapIs(y - 1);
    }
  }

  lemma LeapIs(y: nat)
    ensures (if LeapYear(y) then 1 else 0) ==
            (if y % 4 == 0 then 1 else 0) - (if y % 100 == 0 then 1 else 0) + (if y % 400 == 0 then 1 else 0)
  {
    if y % 100 == 0 { assert y == 4 * (25 * (y / 100)); }
    if y % 400 == 0 { assert y == 100 * (4 * (y / 400)); }
  }

  /** The days before a month: 31 before February, and from March on an average of 30.6 a month, up to the end of the
      year. */
  lemma MonthStartClosed(y: nat, m: int)
    requires 3 <= m <= 13
    ensures MonthStart(y, 1) == 0 && MonthStart(y, 2) == 31
    ensures MonthStart(y, m) == MonthStart(y, 3) + (153 * (m - 3) + 2) / 5
    ensures MonthStart(y, 3) == YearStart(y + 1) - YearStart(y) - 306
  {
    YearLength(y);
    MonthsAre(y);
  }

  lemma MonthsAre(y: nat)
    ensures var march := MonthStart(y, 3);
            && MonthStart(y, 4) == march + 31 && MonthStart(y, 5) == march + 61 && MonthStart(y, 6) == march + 92
            && MonthStart(y, 7) == march + 122 && MonthStart(y, 8) == march + 153 && MonthStart(y, 9) == march + 184
            && MonthStart(y, 10) == march + 214 && MonthStart(y, 11) == march + 245 && MonthStart(y, 12) == march + 275
            && MonthStart(y, 13) == march + 306 && MonthStart(y, 2) == 31
  {
  }

  /** The valid dates are exactly the days from the start of a month to the start of the next. */
  lemma ValidateIff(y: int, m: int, d: int)
    ensures Validate(y, m, d) <==>
              0 <= y <= 9999 && 1 <= m <= 12 && MonthStart(y, m) < MonthStart(y, m) + d <= MonthStart(y, m + 1)
  {
  }

  /** Every day of the years 0 to 9999 has a valid date. */
  lemma EveryDay(n: int) returns (y: int, m: int, d: int)
    requires 0 < n <= YearStart(10000)
    ensures Validate(y, m, d) && DayNumber(y, m, d) == n
  {
    y := 0;
    while YearStart(y + 1) < n
      invariant 0 <= y <= 9999 && YearStart(y) < n
      decreases 9999 - y
    {
      y := y + 1;
    }
    YearLength(y);
    m := 1;
    while MonthStart(y, m + 1) < n - YearStart(y)
      invariant 1 <= m <= 12 && MonthStart(y, m) < n - YearStart(y)
      decreases 12 - m
    {
      m := m + 1;
    }
    d := n - YearStart(y) - MonthStart(y, m);
  }

  predicate Earlier(y: int, m: int, d: int, y': int, m': int, d': int) {
    y < y' || (y == y' && (m < m' || (m == m' && d < d')))
  }

  lemma EarlierDay(y: int, m: int, d: int, y': int, m': int, d': int)
    requires Validate(y, m, d) && Validate(y', m', d') && Earlier(y, m, d, y', m', d')
    ensures DayNumber(y, m, d) < DayNumber(y', m', d')
  {
    if y < y' {
      YearLength(y);
      MonthsGrow(y, m, 13);
      YearsGrow(y, y');
    } else if m < m' {
      MonthsGrow(y, m, m');
    }
  }

  /** Packed valid dates compare as the days they name, and no subtraction of two of them leaves
      the 32-bit range. */
  lemma PackedChronological(y: int, m: int, d: int, y': int, m': int, d': int)
    requires Validate(y, m, d) && Validate(y', m', d')
    ensures Comparable(Number(Pack(y, m, d)), Number(Pack(y', m', d')))
    ensures Compare(Number(Pack(y, m, d)), Number(Pack(y', m', d'))) < 0 <==> DayNumber(y, m, d) < DayNumber(y', m', d')
    ensures Pack(y, m, d) == Pack(y', m', d') <==> y == y' && m == m' && d == d'
  {
    assert d <= 31 && d' <= 31;
    NumbersComparedIff(Pack(y, m, d), Pack(y', m', d'));
    if Earlier(y, m, d, y', m', d') {
      EarlierDay(y, m, d, y', m', d');
    } else if Earlier(y', m', d', y, m, d) {
      EarlierDay(y', m', d', y, m, d);
    }
  }
}
