/**
 * Calendar dates and the whole-year difference the eligibility rules use
 * (`ChronoUnit.YEARS.between`). The difference follows java.time's
 * `LocalDate.until`: both dates are packed as `prolepticMonth * 32 + day`,
 * the packed difference is divided by 32 into whole months and the months by
 * 12 into whole years, each division truncating toward zero.
 */
module Dates {

  import JavaInt

  datatype Date = Date(year: int, month: int, day: int)

  /** A date whose month and day are within the calendar's bounds. */
  predicate ValidDate(d: Date) {
    1 <= d.month <= 12 && 1 <= d.day <= 31
  }

  /** Strict chronological order on dates. */
  predicate Before(a: Date, b: Date) {
    a.year < b.year
    || (a.year == b.year && a.month < b.month)
    || (a.year == b.year && a.month == b.month && a.day < b.day)
  }

  /** Months elapsed since January of year 0. */
  function ProlepticMonth(d: Date): int {
    d.year * 12 + d.month - 1
  }

  function Packed(d: Date): int {
    ProlepticMonth(d) * 32 + d.day
  }

  /** Whole months from `start` to `end` (negative when `end` is earlier). */
  function MonthsBetween(start: Date, end: Date): int {
    JavaInt.TruncDiv(Packed(end) - Packed(start), 32)
  }

  /** Whole years from `start` to `end`: `ChronoUnit.YEARS.between(start, end)`. */
  function YearsBetween(start: Date, end: Date): int {
    JavaInt.TruncDiv(MonthsBetween(start, end), 12)
  }

  /** The date `k` years after `d`, on the same month and day. */
  function Anniversary(d: Date, k: nat): Date {
    Date(d.year + k, d.month, d.day)
  }

  /** On the k-th anniversary exactly `k` whole years have elapsed. */
  lemma YearsOnAnniversary(d: Date, k: nat)
    ensures YearsBetween(d, Anniversary(d, k)) == k
  {
    var e := Anniversary(d, k);
    assert Packed(e) - Packed(d) == 32 * (12 * k);
    assert MonthsBetween(d, e) == 12 * k;
  }

  /** The day before the k-th anniversary only `k - 1` whole years have elapsed. */
  lemma YearsOnDayBeforeAnniversary(d: Date, k: nat)
    requires k >= 1 && d.day >= 2
    ensures YearsBetween(d, Date(d.year + k, d.month, d.day - 1)) == k - 1
  {
    var e := Date(d.year + k, d.month, d.day - 1);
    assert Packed(e) - Packed(d) == 32 * (12 * k - 1) + 31;
    assert MonthsBetween(d, e) == 12 * k - 1;
    assert 12 * k - 1 == 12 * (k - 1) + 11;
  }

  /** No date is a negative number of years after an earlier or equal date. */
  lemma YearsBetweenNonNegative(start: Date, end: Date)
    requires ValidDate(start) && ValidDate(end) && !Before(end, start)
    ensures YearsBetween(start, end) >= 0
  {
    var months := ProlepticMonth(end) - ProlepticMonth(start);
    if months == 0 {
      assert Packed(end) - Packed(start) == end.day - start.day >= 0;
    } else {
      assert months >= 1;
      assert Packed(end) - Packed(start) == 32 * months + (end.day - start.day);
    }
  }

  /** On valid dates, chronological order is the order of the packed values. */
  lemma BeforeIffPackedLess(a: Date, b: Date)
    requires ValidDate(a) && ValidDate(b)
    ensures Before(a, b) <==> Packed(a) < Packed(b)
  {
    if ProlepticMonth(a) < ProlepticMonth(b) {
      assert Packed(b) - Packed(a) >= 32 * (ProlepticMonth(b) - ProlepticMonth(a)) - 30 > 0;
    } else if ProlepticMonth(b) < ProlepticMonth(a) {
      assert Packed(a) - Packed(b) >= 32 * (ProlepticMonth(a) - ProlepticMonth(b)) - 30 > 0;
    }
  }

  /** The whole-year difference never decreases as the end date moves later. */
  lemma YearsBetweenMonotone(start: Date, e1: Date, e2: Date)
    requires ValidDate(e1) && ValidDate(e2) && !Before(e2, e1)
    ensures YearsBetween(start, e1) <= YearsBetween(start, e2)
  {
    BeforeIffPackedLess(e2, e1);
    JavaInt.TruncDivMonotone(Packed(e1) - Packed(start), Packed(e2) - Packed(start), 32);
    JavaInt.TruncDivMonotone(MonthsBetween(start, e1), MonthsBetween(start, e2), 12);
  }

  /**
   * On every date before the k-th anniversary, for any birthday (the 1st of a
   * month included), fewer than `k` whole years have elapsed.
   */
  lemma YearsBelowBeforeAnniversary(d: Date, e: Date, k: nat)
    requires ValidDate(d) && ValidDate(e) && k >= 1 && Before(e, Anniversary(d, k))
    ensures YearsBetween(d, e) <= k - 1
  {
    var a := Anniversary(d, k);
    BeforeIffPackedLess(e, a);
    assert Packed(a) - Packed(d) == 32 * (12 * k);
    JavaInt.TruncDivMonotone(Packed(e) - Packed(d), 32 * (12 * k) - 1, 32);
    JavaInt.TruncDivExact(32 * (12 * k) - 1, 32, 12 * k - 1);
    JavaInt.TruncDivMonotone(MonthsBetween(d, e), 12 * k - 1, 12);
    JavaInt.TruncDivExact(12 * k - 1, 12, k - 1);
  }

  /**
   * At least `k >= 1` whole years have elapsed exactly from the k-th
   * anniversary on.
   */
  lemma YearsReachedIffFromAnniversary(d: Date, e: Date, k: nat)
    requires ValidDate(d) && ValidDate(e) && k >= 1
    ensures YearsBetween(d, e) >= k <==> !Before(e, Anniversary(d, k))
  {
    if Before(e, Anniversary(d, k)) {
      YearsBelowBeforeAnniversary(d, e, k);
    } else {
      YearsOnAnniversary(d, k);
      YearsBetweenMonotone(d, Anniversary(d, k), e);
    }
  }
}
