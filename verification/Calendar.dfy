/** Gregorian dates with the three movements the asset engine makes: one day
    forward or back, whole months or years with the day clipped to the month's
    length, and "day 31" (end of the month). */
module Calendar {

  datatype Date = Date(year: int, month: int, day: int) {
    predicate Valid() {
      1 <= month <= 12 && 1 <= day <= DaysInMonth(year, month)
    }

    /** The day number: consecutive dates have consecutive numbers. */
    function Ord(): int
      requires 1 <= month <= 12
    {
      DaysBeforeYear(year) + DaysBeforeMonth(year, month) + day
    }
  }

  predicate IsLeap(year: int) {
    year % 4 == 0 && (year % 100 != 0 || year % 400 == 0)
  }

  function YearLength(year: int): (n: int)
    ensures 365 <= n <= 366
  {
    if IsLeap(year) then 366 else 365
  }

  function DaysInMonth(year: int, month: int): (n: int)
    requires 1 <= month <= 12
    ensures 28 <= n <= 31
  {
    if month == 2 then (if IsLeap(year) then 29 else 28)
    else if month in {4, 6, 9, 11} then 30
    else 31
  }

  function DaysBeforeYear(year: int): int {
    365 * (year - 1) + (year - 1) / 4 - (year - 1) / 100 + (year - 1) / 400
  }

  function DaysBeforeMonth(year: int, month: int): (n: int)
    requires 1 <= month <= 13
    decreases month
  {
    if month == 1 then 0 else DaysBeforeMonth(year, month - 1) + DaysInMonth(year, month - 1)
  }

  function NextDay(date: Date): (r: Date)
    requires date.Valid()
    ensures r.Valid() && r.Ord() == date.Ord() + 1
  {
    if date.day < DaysInMonth(date.year, date.month) then date.(day := date.day + 1)
    else if date.month < 12 then Date(date.year, date.month + 1, 1)
    else
      YearSpan(date.year);
      Date(date.year + 1, 1, 1)
  }

  function PrevDay(date: Date): (r: Date)
    requires date.Valid()
    ensures r.Valid() && r.Ord() == date.Ord() - 1
  {
    if date.day > 1 then date.(day := date.day - 1)
    else if date.month > 1 then
      Date(date.year, date.month - 1, DaysInMonth(date.year, date.month - 1))
    else
      YearSpan(date.year - 1);
      Date(date.year - 1, 12, 31)
  }

  /** Months counted from year 0, and the day number of the first of a month. */
  function MonthIndex(date: Date): int {
    12 * date.year + date.month - 1
  }

  function MonthLength(k: int): (n: int)
    ensures 28 <= n <= 31
  {
    DaysInMonth(k / 12, k % 12 + 1)
  }

  function MonthStart(k: int): int {
    DaysBeforeYear(k / 12) + DaysBeforeMonth(k / 12, k % 12 + 1) + 1
  }

  lemma MonthStartStep(k: int)
    ensures MonthStart(k + 1) == MonthStart(k) + MonthLength(k)
  {
    hide DaysBeforeYear, IsLeap, YearLength;
    var y, m := k / 12, k % 12;
    if m == 11 {
      YearSpan(y);
      DivUnique(k + 1, 12, y + 1, 0);
      assert MonthStart(k + 1) == DaysBeforeYear(y + 1) + DaysBeforeMonth(y + 1, 1) + 1;
    } else {
      DivUnique(k + 1, 12, y, m + 1);
      hide DaysInMonth;
      assert DaysBeforeMonth(y, m + 2) == DaysBeforeMonth(y, m + 1) + DaysInMonth(y, m + 1);
    }
  }

  lemma MonthStartGrows(j: int, k: int)
    requires j < k
    ensures MonthStart(j) + MonthLength(j) <= MonthStart(k)
    decreases k - j
  {
    MonthStartStep(k - 1);
    if j < k - 1 {
      MonthStartGrows(j, k - 1);
    }
  }

  lemma OrdInMonth(date: Date)
    requires date.Valid()
    ensures date.Ord() == MonthStart(MonthIndex(date)) + date.day - 1
    ensures date.day <= MonthLength(MonthIndex(date))
  {
    assert MonthIndex(date) / 12 == date.year && MonthIndex(date) % 12 == date.month - 1;
  }

  /** The day number of the last day of a month. */
  function MonthStop(k: int): int {
    MonthStart(k) + MonthLength(k) - 1
  }

  lemma MonthOf(d: Date)
    requires d.Valid()
    ensures d.day == 1 ==> d.Ord() == MonthStart(MonthIndex(d))
    ensures !NextInMonth(d) ==> d.Ord() == MonthStop(MonthIndex(d))
    ensures MonthStart(MonthIndex(d)) <= d.Ord() <= MonthStop(MonthIndex(d))
  {
    OrdInMonth(d);
    hide Date.Ord, MonthStart;
    assert MonthIndex(d) / 12 == d.year && MonthIndex(d) % 12 == d.month - 1;
  }

  lemma MonthsGrow(j: int, k: int)
    requires j < k
    ensures MonthStart(j) <= MonthStop(j) < MonthStart(k) <= MonthStop(k)
    ensures k == j + 1 ==> MonthStart(k) == MonthStop(j) + 1
  {
    MonthStartGrows(j, k);
    MonthStartStep(j);
  }

  function Clip(k: int, day: int): (r: Date)
    requires 1 <= day
    ensures r.Valid() && r.day <= day && MonthIndex(r) == k
    ensures r.day == day || (r.day == MonthLength(k) && MonthLength(k) < day)
  {
    Date(k / 12, k % 12 + 1, if day <= MonthLength(k) then day else MonthLength(k))
  }

  /** `relativedelta(months=n)`: the same day, clipped to the month's length. */
  function AddMonths(date: Date, n: int): (r: Date)
    requires date.Valid()
    ensures r.Valid() && MonthIndex(r) == MonthIndex(date) + n
    ensures r.day == date.day || (r.day == MonthLength(MonthIndex(r)) && MonthLength(MonthIndex(r)) < date.day)
  {
    Clip(MonthIndex(date) + n, date.day)
  }

  function AddYears(date: Date, n: int): (r: Date)
    requires date.Valid()
    ensures r.Valid()
  {
    AddMonths(date, 12 * n)
  }

  /** The month has a day after this one. */
  predicate NextInMonth(date: Date)
    requires date.Valid()
  {
    date.(day := date.day + 1).Valid()
  }

  /** `relativedelta(day=31)`. */
  function MonthEnd(date: Date): (r: Date)
    requires date.Valid()
    ensures r.Valid() && r.Ord() >= date.Ord() && MonthIndex(r) == MonthIndex(date)
    ensures !NextInMonth(r)
  {
    date.(day := DaysInMonth(date.year, date.month))
  }

  /** The last day of the quarter the date lies in. */
  function QuarterEnd(date: Date): (r: Date)
    requires date.Valid()
    ensures r.Valid() && r.Ord() >= date.Ord()
  {
    var m := if date.month <= 3 then 3 else if date.month <= 6 then 6 else if date.month <= 9 then 9 else 12;
    var r := MonthEnd(Date(date.year, m, 1));
    LaterMonth(date, r);
    r
  }

  /** A date in a later month is a later date; month ends are the last of theirs. */
  lemma LaterMonth(d: Date, e: Date)
    requires d.Valid() && e.Valid()
    ensures MonthIndex(d) < MonthIndex(e) ==> d.Ord() < e.Ord()
    ensures MonthIndex(d) == MonthIndex(e) && d.day <= e.day ==> d.Ord() <= e.Ord()
  {
    OrdInMonth(d);
    OrdInMonth(e);
    if MonthIndex(d) < MonthIndex(e) {
      MonthStartGrows(MonthIndex(d), MonthIndex(e));
    }
  }

  /** A year is as long as its calendar says. */
  lemma YearSpan(year: int)
    ensures DaysBeforeYear(year + 1) == DaysBeforeYear(year) + YearLength(year)
    ensures DaysBeforeMonth(year, 13) == YearLength(year)
    ensures DaysBeforeMonth(year, 12) == YearLength(year) - 31
  {
    Multiples(year, 4);
    Multiples(year, 100);
    Multiples(year, 400);
    LeapCycle(year);
    Months(year);
  }

  /** One more multiple of `k` is passed exactly when `n` is one. */
  lemma Multiples(n: int, k: int)
    requires k > 1
    ensures n / k == (n - 1) / k + if n % k == 0 then 1 else 0
  {
    var q, r := n / k, n % k;
    assert n == k * q + r;
    if r == 0 {
      DivUnique(n - 1, k, q - 1, k - 1);
    } else {
      DivUnique(n - 1, k, q, r - 1);
    }
  }

  lemma DivUnique(n: int, k: int, q: int, r: int)
    requires k > 0 && n == k * q + r && 0 <= r < k
    ensures n / k == q
  {
    var q', r' := n / k, n % k;
    var d := q - q';
    assert k * q == k * q' + k * d by { Distribute(k, q', d); }
    assert k * d == r' - r;
    if d > 0 {
      Grows(k, d);
    }
  }

  lemma Distribute(k: int, a: int, d: int)
    ensures k * (a + d) == k * a + k * d
  {}

  lemma Grows(k: int, d: int)
    requires k > 0 && d > 0
    ensures k * d >= k
  {}

  lemma LeapCycle(year: int)
    ensures year % 400 == 0 ==> year % 100 == 0
    ensures year % 100 == 0 ==> year % 4 == 0
  {
    var q := year / 400;
    if year % 400 == 0 {
      DivUnique(year, 100, 4 * q, 0);
    }
    var h := year / 100;
    if year % 100 == 0 {
      DivUnique(year, 4, 25 * h, 0);
    }
  }

  lemma Months(year: int)
    ensures DaysBeforeMonth(year, 13) == YearLength(year)
    ensures DaysBeforeMonth(year, 12) == YearLength(year) - 31
  {
    assert DaysBeforeMonth(year, 3) == 31 + DaysInMonth(year, 2);
    assert DaysBeforeMonth(year, 5) == DaysBeforeMonth(year, 3) + 61;
    assert DaysBeforeMonth(year, 7) == DaysBeforeMonth(year, 5) + 61;
    assert DaysBeforeMonth(year, 9) == DaysBeforeMonth(year, 7) + 62;
    assert DaysBeforeMonth(year, 11) == DaysBeforeMonth(year, 9) + 61;
    assert DaysBeforeMonth(year, 13) == DaysBeforeMonth(year, 11) + 61;
  }
}
