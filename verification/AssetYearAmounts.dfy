/** What the five methods yield, year by year, and how long a fiscal year counts. */
module AssetYearAmounts {
  import opened Rounding
  import opened Calendar
  import opened Outcome
  import opened AssetTypes
  import opened AssetAmounts

  /* ---- the amount of a full year ---- */

  /** The yearly share of the base: so much that all years together make it up. */
  ghost predicate LinearShare(a: Asset, share: real) {
    a.number as real * share == a.base as real
  }

  ghost predicate Smaller(x: real, y: real, z: real) {
    x <= y && x <= z && (x == y || x == z)
  }

  ghost predicate Larger(x: real, y: real, z: real) {
    x >= y && x >= z && (x == y || x == z)
  }

  /** The amount of a full year, before it is rounded, when `residual` is left. */
  ghost predicate Yields(a: Asset, residual: real, amount: real) {
    match a.way
    case Linear => LinearShare(a, amount)
    case Degressive => amount == Times(residual, a.progress)
    case DegressiveLinear =>
      exists share, larger :: LinearShare(a, share) && Larger(larger, share, Times(residual, a.progress))
        && Smaller(amount, larger, residual)
    case LinearLimit => exists share :: LinearShare(a, share) && Smaller(amount, share, residual - a.salvage as real)
    case DegressiveLimit => Smaller(amount, Times(residual, a.progress), residual - a.salvage as real)
  }

  lemma YearYields(a: Asset, residual: int)
    requires a.number > 0
    ensures Yields(a, residual as real, YearAmount(a, residual))
  {
    var share, degressive := a.base as real / a.number as real, residual as real * a.progress;
    assert LinearShare(a, share);
    if a.way == DegressiveLinear {
      var larger := if share > degressive then share else degressive;
      assert Larger(larger, share, degressive) && Smaller(YearAmount(a, residual), larger, residual as real);
    }
  }

  /** There is only one such amount. */
  lemma YieldsOne(a: Asset, residual: real, x: real, y: real)
    requires a.number > 0 && Yields(a, residual, x) && Yields(a, residual, y)
    ensures x == y
  {
    forall s, t | LinearShare(a, s) && LinearShare(a, t)
      ensures s == t
    {
      SameShare(a.number as real, s, t);
    }
  }

  lemma SameShare(n: real, s: real, t: real)
    requires n > 0.0 && n * s == n * t
    ensures s == t
  {}

  /* ---- the rows of a table ---- */

  function Times(x: real, y: real): real {
    x * y
  }

  /** A whole number no further than half from the value. */
  ghost predicate Nearest(n: int, x: real) {
    x - 0.5 <= n as real <= x + 0.5
  }

  /** What a year with this amount takes when `residual` is left: no more than that, in the
      direction of the base. */
  ghost predicate TakesAtMost(a: Asset, taken: real, amount: real, residual: real) {
    if a.base >= 0 then Smaller(taken, amount, residual) else Larger(taken, amount, residual)
  }

  /** A row when `residual` is left before it: its amount is that of a full year times the
      length of the year, no more than what is left, rounded; in the last fiscal year it is
      all that is left but the salvage value to be kept.  Its period amount is that of a full
      year over 1, 4 or 12 periods, rounded. */
  ghost predicate RowYields(a: Asset, row: Row, residual: int, factor: real, last: bool, full: real, taken: real) {
    && Yields(a, residual as real, full)
    && (if last then row.fyAmount == residual - LeftAtEnd(a)
        else TakesAtMost(a, taken, Times(full, factor), residual as real) && Nearest(row.fyAmount, taken))
    && Nearest(row.periodAmount, full / (match a.period case Monthly => 12.0 case Quarterly => 4.0 case Yearly => 1.0))
  }

  lemma RowOfYields(a: Asset, span: Span, first: bool, last: bool, residual: int, dates: int, day: int)
    returns (full: real, taken: real)
    requires a.Valid() && span.Valid() && a.time == Years && a.number > 0 && dates > 0
    ensures RowYields(a, RowOf(a, span, first, last, residual, dates, day), residual, DurationFactor(a, span, first),
      last, full, taken)
  {
    hide Date.Ord, DurationFactor, YearAmount, Yields, Clamp, Round, Nearest, TakesAtMost, Scale, Times, LeftAtEnd;
    LastYearLeaves(a, residual);
    var factor := DurationFactor(a, span, first);
    full := YearAmount(a, residual);
    taken := Clamp(a, Scale(full, factor), residual as real);
    YearYields(a, residual);
    ScaleTimes(full, factor);
    ClampTakes(a, Scale(full, factor), residual as real);
    RoundNear(taken);
    RoundNear(full / PeriodsPerYear(a.period) as real);
  }

  lemma ScaleTimes(x: real, y: real)
    ensures Scale(x, y) == Times(x, y)
  {}

  lemma ClampTakes(a: Asset, amount: real, residual: real)
    ensures TakesAtMost(a, Clamp(a, amount, residual), amount, residual)
  {
    ClampBounds(a, amount, residual);
  }

  lemma RoundNear(x: real)
    ensures Nearest(Round(x), x)
  {}

  /** Every row of a table, against what the rows before it leave. */
  lemma {:induction false} RowsYield(a: Asset, spans: seq<Span>, i: nat, residual: int, dates: int, day: int, k: nat)
    returns (full: real, taken: real)
    requires a.Valid() && a.time == Years && a.number > 0 && dates > 0 && i <= |spans|
    requires forall j :: 0 <= j < |spans| ==> spans[j].Valid()
    requires k < |Rows(a, spans, i, residual, dates, day)| && i + k < |spans|
    ensures var rows := Rows(a, spans, i, residual, dates, day);
      RowYields(a, rows[k], residual - SumFy(rows[..k]), DurationFactor(a, spans[i + k], i + k == 0),
        i + k == |spans| - 1, full, taken)
    decreases k
  {
    hide Date.Ord, DurationFactor, RowOf, RowYields, SumFy, Rows;
    if k == 0 {
      FirstRow(a, spans, i, residual, dates, day);
      full, taken := RowOfYields(a, spans[i], i == 0, i == |spans| - 1, residual, dates, day);
    } else {
      LaterRow(a, spans, i, residual, dates, day, k);
      var row := RowOf(a, spans[i], i == 0, i == |spans| - 1, residual, dates, day);
      full, taken := RowsYield(a, spans, i + 1, residual - row.fyAmount, dates, day, k - 1);
      assert i + 1 + (k - 1) == i + k;
    }
  }

  lemma FirstRow(a: Asset, spans: seq<Span>, i: nat, residual: int, dates: int, day: int)
    requires a.Valid() && a.time == Years && a.number > 0 && dates > 0 && i < |spans|
    requires forall j :: 0 <= j < |spans| ==> spans[j].Valid()
    ensures var rows := Rows(a, spans, i, residual, dates, day);
      && rows != [] && rows[0] == RowOf(a, spans[i], i == 0, i == |spans| - 1, residual, dates, day)
      && SumFy(rows[..0]) == 0
  {
    hide Date.Ord, DurationFactor, RowOf;
  }

  /** Row `k` of a table that starts with a row, among the rest. */
  ghost predicate FollowsRow(rows: seq<Row>, row: Row, rest: seq<Row>, k: nat) {
    && 0 < k < |rows| == |rest| + 1 && rows[k] == rest[k - 1]
    && SumFy(rows[..k]) == row.fyAmount + SumFy(rest[..k - 1])
  }

  lemma LaterRow(a: Asset, spans: seq<Span>, i: nat, residual: int, dates: int, day: int, k: nat)
    requires a.Valid() && a.time == Years && a.number > 0 && dates > 0 && i < |spans|
    requires forall j :: 0 <= j < |spans| ==> spans[j].Valid()
    requires 0 < k < |Rows(a, spans, i, residual, dates, day)|
    ensures var rows := Rows(a, spans, i, residual, dates, day);
      var row := RowOf(a, spans[i], i == 0, i == |spans| - 1, residual, dates, day);
      var rest := Rows(a, spans, i + 1, residual - row.fyAmount, dates, day);
      FollowsRow(rows, row, rest, k)
  {
    hide Date.Ord, DurationFactor, RowOf, SumFy;
    var row := RowOf(a, spans[i], i == 0, i == |spans| - 1, residual, dates, day);
    SumOnward(row, Rows(a, spans, i + 1, residual - row.fyAmount, dates, day), k);
  }

  lemma SumOnward(row: Row, rest: seq<Row>, k: nat)
    requires 0 < k <= |rest|
    ensures SumFy(([row] + rest)[..k]) == row.fyAmount + SumFy(rest[..k - 1])
  {
    assert ([row] + rest)[..k] == [row] + rest[..k - 1];
  }

  /** Whatever the method, the rows are the fiscal years one after the other, each an
      initial-balance year or not as that one is, with the one day amount. */
  lemma {:induction false} RowsAreSpans(a: Asset, spans: seq<Span>, i: nat, residual: int, dates: int, day: int, k: nat)
    requires a.Valid() && (a.number > 0 || a.time == End) && dates > 0 && i <= |spans|
    requires forall j :: 0 <= j < |spans| ==> spans[j].Valid()
    requires k < |Rows(a, spans, i, residual, dates, day)|
    ensures i + k < |spans|
    ensures IsSpan(Rows(a, spans, i, residual, dates, day)[k], spans[i + k], day)
    decreases k
  {
    hide Date.Ord, DurationFactor, FyAmount, YearAmount;
    if k > 0 {
      var row := RowOf(a, spans[i], i == 0, i == |spans| - 1, residual, dates, day);
      var left := if a.time == Years then residual - row.fyAmount else residual;
      assert Rows(a, spans, i, residual, dates, day) == [row] + Rows(a, spans, i + 1, left, dates, day);
      RowsAreSpans(a, spans, i + 1, left, dates, day, k - 1);
      assert spans[i + k] == spans[i + 1 + (k - 1)];
    }
  }

  ghost predicate IsSpan(row: Row, span: Span, day: int)
    requires span.Valid()
  {
    row.start == span.start.Ord() && row.stop == span.stop.Ord() && row.init == span.init && row.dayAmount == day
  }

  /* ---- degressive depreciation in closed form ---- */

  /** `x` to the power of `k`. */
  function Power(x: real, k: nat): real {
    if k == 0 then 1.0 else Power(x, k - 1) * x
  }

  /** Degressive depreciation over full years: after `k` of them what is left is the base
      times the `k`-th power of what a year leaves, give or take half a minor unit a year. */
  lemma {:induction false} DegressiveLeaves(a: Asset, spans: seq<Span>, dates: int, day: int, k: nat)
    requires a.Valid() && a.time == Years && a.number > 0 && dates > 0 && a.way == Degressive
    requires 0.0 <= a.progress <= 1.0
    requires forall j :: 0 <= j < |spans| ==> spans[j].Valid() && DurationFactor(a, spans[j], j == 0) == 1.0
    requires k <= |Rows(a, spans, 0, a.base, dates, day)| && k < |spans|
    ensures var exact := Times(a.base as real, Power(1.0 - a.progress, k));
      var left := Residual(a, Rows(a, spans, 0, a.base, dates, day), k);
      && a.Sign() * left >= 0
      && exact - k as real / 2.0 <= left as real <= exact + k as real / 2.0
    decreases k
  {
    hide Date.Ord, DurationFactor, Rows, Times, Residual, RowYields, Power;
    var rows, keeps := Rows(a, spans, 0, a.base, dates, day), 1.0 - a.progress;
    if k == 0 {
      NothingTaken(a, rows);
      PowerStep(a.base as real, keeps, 0);
    } else {
      DegressiveLeaves(a, spans, dates, day, k - 1);
      var full, taken := RowsYield(a, spans, 0, a.base, dates, day, k - 1);
      ResidualNext(a, rows, k - 1);
      assert spans[0 + (k - 1)] == spans[k - 1] && DurationFactor(a, spans[k - 1], k - 1 == 0) == 1.0;
      var before := Residual(a, rows, k - 1);
      DegressiveRow(a, rows[k - 1], before, full, taken);
      DegressiveStep(before as real, Residual(a, rows, k) as real, Times(a.base as real, Power(keeps, k - 1)), keeps,
        (k - 1) as real / 2.0);
      PowerStep(a.base as real, keeps, k);
    }
  }

  lemma NothingTaken(a: Asset, rows: seq<Row>)
    ensures Residual(a, rows, 0) == a.base
  {
    assert rows[..0] == [];
  }

  lemma ResidualNext(a: Asset, rows: seq<Row>, k: nat)
    requires k < |rows|
    ensures Residual(a, rows, k) == a.base - SumFy(rows[..k])
    ensures Residual(a, rows, k + 1) == Residual(a, rows, k) - rows[k].fyAmount
  {
    assert rows[..k + 1] == rows[..k] + [rows[k]];
    SumFySnoc(rows[..k], rows[k]);
  }

  lemma PowerStep(x: real, y: real, k: nat)
    ensures k == 0 ==> Times(x, Power(y, k)) == x
    ensures k > 0 ==> Times(x, Power(y, k)) == Times(Times(x, Power(y, k - 1)), y)
  {
    if k > 0 {
      Regroup(x, Power(y, k - 1), y);
    }
  }

  lemma Regroup(x: real, y: real, z: real)
    ensures x * (y * z) == (x * y) * z
  {}

  /** A full year leaves the rest, give or take half a unit, and never passes zero. */
  lemma DegressiveRow(a: Asset, row: Row, residual: int, full: real, taken: real)
    requires a.way == Degressive && 0.0 <= a.progress <= 1.0 && RowYields(a, row, residual, 1.0, false, full, taken)
    requires a.Sign() * residual >= 0
    ensures var left := Times(residual as real, 1.0 - a.progress);
      left - 0.5 <= (residual - row.fyAmount) as real <= left + 0.5
    ensures a.Sign() * (residual - row.fyAmount) >= 0
  {
    Splits(residual as real, a.progress);
    OneTimes(full);
    hide Times;
  }

  lemma OneTimes(x: real)
    ensures Times(x, 1.0) == x
  {}

  /** What is taken and what is left, and their signs. */
  lemma Splits(x: real, part: real)
    requires 0.0 <= part <= 1.0
    ensures Times(x, part) + Times(x, 1.0 - part) == x
    ensures x >= 0.0 ==> Times(x, part) >= 0.0 && Times(x, 1.0 - part) >= 0.0
    ensures x <= 0.0 ==> Times(x, part) <= 0.0 && Times(x, 1.0 - part) <= 0.0
  {
    if x >= 0.0 {
      NotNegative(x, part);
      NotNegative(x, 1.0 - part);
    } else {
      NotNegative(-x, part);
      NotNegative(-x, 1.0 - part);
    }
  }

  lemma NotNegative(x: real, y: real)
    requires x >= 0.0 && y >= 0.0
    ensures x * y >= 0.0
  {}

  lemma DegressiveStep(before: real, after: real, exact: real, keeps: real, off: real)
    requires 0.0 <= keeps <= 1.0 && off >= 0.0 && exact - off <= before <= exact + off
    requires Times(before, keeps) - 0.5 <= after <= Times(before, keeps) + 0.5
    ensures Times(exact, keeps) - off - 0.5 <= after <= Times(exact, keeps) + off + 0.5
  {
    ScaledWithin(before - exact, keeps, off);
    TimesMinus(before, exact, keeps);
    hide Times;
  }

  lemma TimesMinus(x: real, y: real, z: real)
    ensures Times(x - y, z) == Times(x, z) - Times(y, z)
  {}

  lemma ScaledWithin(d: real, keeps: real, off: real)
    requires 0.0 <= keeps <= 1.0 && off >= 0.0 && -off <= d <= off
    ensures -off <= Times(d, keeps) <= off
  {
    NotNegative(off - d, keeps);
    NotNegative(off + d, keeps);
    NotNegative(off, 1.0 - keeps);
    TimesMinus(off, d, keeps);
    TimesMinus(-off, d, keeps);
    assert Times(-off, keeps) == -Times(off, keeps) && Times(off, keeps) + off * (1.0 - keeps) == off;
    assert Times(-off - d, keeps) == -((off + d) * keeps);
  }

  /* ---- the length of a fiscal year ---- */

  /** Where a day begins, in calendar years. */
  function Beginning(d: Date): real
    requires d.Valid()
  {
    d.year as real + Fraction(d.Ord() - Date(d.year, 1, 1).Ord(), d.year)
  }

  /** Where it ends. */
  function Ending(d: Date): real
    requires d.Valid()
  {
    d.year as real + Fraction(d.Ord() + 1 - Date(d.year, 1, 1).Ord(), d.year)
  }

  lemma FractionAdds(x: int, y: int, year: int)
    ensures Fraction(x + y, year) == Fraction(x, year) + Fraction(y, year)
  {}

  lemma WholeYear(year: int)
    ensures Fraction(YearLength(year), year) == 1.0
    ensures Date(year, 12, 31).Ord() - Date(year, 1, 1).Ord() + 1 == YearLength(year)
    ensures Date(year + 1, 1, 1).Ord() == Date(year, 1, 1).Ord() + YearLength(year)
  {
    YearSpan(year);
  }

  lemma YearsBetween(fy: FiscalYear)
    requires fy.Valid()
    ensures YearsOf(fy) == Ending(fy.stop) - Beginning(fy.start)
  {
    hide Date.Ord, Fraction, YearLength;
    YearsNotBackwards(fy);
    var (x, z) := (fy.start, fy.stop);
    var (first, last) := (Date(x.year, 1, 1).Ord(), Date(z.year, 1, 1).Ord());
    if x.year == z.year {
      FractionAdds(DaysFromTo(x, z), x.Ord() - first, x.year);
    } else {
      WholeYear(x.year);
      FractionAdds(DaysFromTo(x, Date(x.year, 12, 31)), x.Ord() - first, x.year);
      assert DaysFromTo(x, Date(x.year, 12, 31)) + (x.Ord() - first) == YearLength(x.year);
    }
  }

  lemma NextBeginning(d: Date)
    requires d.Valid()
    ensures Beginning(NextDay(d)) == Ending(d)
  {
    hide Date.Ord, Fraction, YearLength;
    var next := NextDay(d);
    if next.year != d.year {
      WholeYear(d.year);
      NoDays(next.year);
      assert next == Date(d.year + 1, 1, 1);
    }
  }

  lemma NoDays(year: int)
    ensures Fraction(0, year) == 0.0
  {}

  /** Fiscal years are measured without gaps: one and the next measure what both together
      do; and a calendar year counts as one. */
  lemma YearsOfAdds(start: Date, mid: Date, stop: Date)
    requires FiscalYear(start, mid, false).Valid() && FiscalYear(NextDay(mid), stop, false).Valid()
    ensures FiscalYear(start, stop, false).Valid()
    ensures YearsOf(FiscalYear(start, mid, false)) + YearsOf(FiscalYear(NextDay(mid), stop, false))
      == YearsOf(FiscalYear(start, stop, false))
    ensures FiscalYear(Date(start.year, 1, 1), Date(start.year, 12, 31), false).Valid()
    ensures YearsOf(FiscalYear(Date(start.year, 1, 1), Date(start.year, 12, 31), false)) == 1.0
  {
    WholeYear(start.year);
    hide Date.Ord, YearsOf, Fraction, YearLength, Beginning, Ending;
    YearsBetween(FiscalYear(start, mid, false));
    YearsBetween(FiscalYear(NextDay(mid), stop, false));
    YearsBetween(FiscalYear(start, stop, false));
    NextBeginning(mid);
    CalendarYearCounts(start.year);
  }

  lemma CalendarYearCounts(year: int)
    ensures FiscalYear(Date(year, 1, 1), Date(year, 12, 31), false).Valid()
    ensures YearsOf(FiscalYear(Date(year, 1, 1), Date(year, 12, 31), false)) == 1.0
  {
    WholeYear(year);
    hide Date.Ord;
  }

  /** The day and the fiscal year from it on lie in one calendar year. */
  predicate SameYear(day: Date, fy: FiscalYear)
    requires day.Valid() && fy.Valid()
  {
    fy.start.year == fy.stop.year == day.year && day.Ord() <= fy.stop.Ord()
  }

  /** What a fiscal year of the table counts for.  Pro rata it is its length in calendar
      years, and for the first one the share of it that the asset's days are of its days; if
      that year lies in one calendar year, the length from the start date on.  Otherwise it
      is a twelfth for each month it touches.  A year that is not defined counts as one, and
      its part from the start date on as that part of a calendar year. */
  lemma FactorMeans(a: Asset, span: Span, first: bool)
    requires a.Valid() && span.Valid()
    ensures var factor := DurationFactor(a, span, first);
      match span.fy
      case Some(fy) =>
        if a.prorata then
          && (!first ==> factor == YearsOf(fy))
          && (first ==> Times(factor, DaysFromTo(fy.start, fy.stop) as real)
                        == Times(DaysFromTo(a.dateStart, span.stop) as real, YearsOf(fy)))
          && (first && span.stop == fy.stop && SameYear(a.dateStart, fy) ==>
                factor == YearsOf(FiscalYear(a.dateStart, fy.stop, false)))
        else 12.0 * factor == MonthsOf(fy) as real
      case None =>
        if a.prorata && first then
          Times(factor, YearLength(span.start.year) as real) == DaysFromTo(a.dateStart, span.stop) as real
        else factor == 1.0
  {
    hide Date.Ord, MonthsOf, Times, YearsOf, YearLength, Fraction, Share;
    if a.prorata && first {
      var days := DaysFromTo(a.dateStart, span.stop);
      if span.fy.Some? {
        var fy := span.fy.value;
        FirstShare(a, span, fy);
        hide DurationFactor;
        ShareOf(days as real, DaysFromTo(fy.start, fy.stop) as real, YearsOf(fy));
        if span.stop == fy.stop && SameYear(a.dateStart, fy) {
          ShareOfYear(a.dateStart, fy);
        }
      } else {
        FractionTimes(days, span.start.year);
      }
    }
  }

  /** The share of a length. */
  function Share(days: real, all: real, years: real): real
    requires all != 0.0
  {
    days / all * years
  }

  lemma FirstShare(a: Asset, span: Span, fy: FiscalYear)
    requires a.Valid() && span.Valid() && a.prorata && span.fy == Some(fy)
    ensures DaysFromTo(fy.start, fy.stop) > 0
    ensures DurationFactor(a, span, true)
      == Share(DaysFromTo(a.dateStart, span.stop) as real, DaysFromTo(fy.start, fy.stop) as real, YearsOf(fy))
  {
    hide Date.Ord, YearsOf;
  }

  lemma FractionTimes(days: int, year: int)
    ensures Times(Fraction(days, year), YearLength(year) as real) == days as real
  {}

  lemma ShareOf(days: real, all: real, years: real)
    requires all > 0.0
    ensures Times(Share(days, all, years), all) == Times(days, years)
  {
    Regroup(days / all, years, all);
    assert days / all * all == days;
    assert days / all * years * all == days / all * all * years;
  }

  /** In one calendar year the share is the length from the start on. */
  lemma ShareOfYear(start: Date, fy: FiscalYear)
    requires start.Valid() && fy.Valid() && SameYear(start, fy)
    ensures Share(DaysFromTo(start, fy.stop) as real, DaysFromTo(fy.start, fy.stop) as real, YearsOf(fy))
      == YearsOf(FiscalYear(start, fy.stop, false))
  {
    hide Date.Ord, YearLength;
    ShareOfPart(DaysFromTo(start, fy.stop) as real, DaysFromTo(fy.start, fy.stop) as real,
      YearLength(fy.start.year) as real);
  }

  lemma ShareOfPart(days: real, all: real, year: real)
    requires all > 0.0 && year > 0.0
    ensures Share(days, all, all / year) == days / year
  {
    Regroup(days / all, all, 1.0 / year);
    assert all / year == all * (1.0 / year) && days / all * all == days;
    assert days * (1.0 / year) == days / year;
  }
}
