/** How much is depreciated in each fiscal year. */
module AssetAmounts {
  import opened Rounding
  import opened Calendar
  import opened Outcome
  import opened AssetTypes

  /** One entry of the depreciation table before its lines are made; dates are
      day numbers and amounts are rounded. */
  datatype Row = Row(start: int, stop: int, init: bool, periodAmount: int, fyAmount: int, dayAmount: int)

  /* ---- length of a fiscal year ---- */

  function DaysFromTo(start: Date, stop: Date): int
    requires start.Valid() && stop.Valid()
  {
    stop.Ord() - start.Ord() + 1
  }

  function MonthsOf(fy: FiscalYear): (n: int)
    requires fy.Valid()
    ensures n >= 1
  {
    LaterMonth(fy.stop, fy.start);
    assert MonthIndex(fy.start) <= MonthIndex(fy.stop);
    12 * (fy.stop.year - fy.start.year) + (fy.stop.month - fy.start.month) + 1
  }

  function Fraction(days: int, year: int): real {
    days as real / YearLength(year) as real
  }

  /** A fiscal year measured in calendar years: the parts of its first and last
      calendar year plus the whole years between them. */
  function YearsOf(fy: FiscalYear): real
    requires fy.Valid()
  {
    if fy.start.year == fy.stop.year then Fraction(DaysFromTo(fy.start, fy.stop), fy.start.year)
    else
      Fraction(DaysFromTo(fy.start, Date(fy.start.year, 12, 31)), fy.start.year)
      + (fy.stop.year - fy.start.year - 1) as real
      + Fraction(DaysFromTo(Date(fy.stop.year, 1, 1), fy.stop), fy.stop.year)
  }

  lemma YearsNotBackwards(fy: FiscalYear)
    requires fy.Valid()
    ensures fy.start.year <= fy.stop.year
  {
    LaterMonth(fy.stop, fy.start);
  }

  /** The running sum over the calendar years the fiscal year touches. */
  method ComputeYearsOf(fy: FiscalYear) returns (factor: real)
    requires fy.Valid()
    ensures factor == YearsOf(fy)
  {
    hide Date.Ord;
    YearsNotBackwards(fy);
    var cnt := fy.stop.year - fy.start.year + 1;
    factor := 0.0;
    var year := fy.start.year;
    for i := 0 to cnt
      invariant year == fy.start.year + i
      invariant i == 0 ==> factor == 0.0
      invariant 0 < i < cnt ==>
          factor == Fraction(DaysFromTo(fy.start, Date(fy.start.year, 12, 31)), fy.start.year) + (i - 1) as real
      invariant i == cnt ==> factor == YearsOf(fy)
    {
      if i == 0 {
        if fy.stop.year == year {
          factor := Fraction(DaysFromTo(fy.start, fy.stop), year);
        } else {
          factor := Fraction(DaysFromTo(fy.start, Date(year, 12, 31)), year);
        }
      } else if i == cnt - 1 {
        factor := factor + Fraction(DaysFromTo(Date(year, 1, 1), fy.stop), year);
      } else {
        factor := factor + 1.0;
      }
      year := year + 1;
    }
  }

  /** The correction for extended or shortened fiscal years. */
  function DurationFactor(a: Asset, span: Span, first: bool): real
    requires a.Valid() && span.Valid()
  {
    if a.prorata then
      if first then
        var days := DaysFromTo(a.dateStart, span.stop);
        if span.fy.Some? then
          days as real / DaysFromTo(span.fy.value.start, span.fy.value.stop) as real * YearsOf(span.fy.value)
        else Fraction(days, span.start.year)
      else if span.fy.Some? then YearsOf(span.fy.value)
      else 1.0
    else if span.fy.Some? then MonthsOf(span.fy.value) as real / 12.0
    else 1.0
  }

  lemma YearsOfPositive(fy: FiscalYear)
    requires fy.Valid()
    ensures YearsOf(fy) > 0.0
  {
    hide Date.Ord, Fraction;
    YearsNotBackwards(fy);
    var (a, b, y, z) := (fy.start, fy.stop, fy.start.year, fy.stop.year);
    if y == z {
      FractionPositive(DaysFromTo(a, b), y);
    } else {
      LaterMonth(a, Date(y, 12, 31));
      LaterMonth(Date(z, 1, 1), b);
      FractionPositive(DaysFromTo(a, Date(y, 12, 31)), y);
      FractionPositive(DaysFromTo(Date(z, 1, 1), b), z);
    }
  }

  lemma FractionPositive(days: int, year: int)
    requires days >= 1
    ensures Fraction(days, year) > 0.0
  {}

  lemma FactorNotNegative(a: Asset, span: Span, first: bool)
    requires a.Valid() && span.Valid()
    requires first ==> a.dateStart.Ord() <= span.stop.Ord() + 1
    ensures DurationFactor(a, span, first) >= 0.0
  {
    hide Date.Ord;
    if span.fy.Some? {
      YearsOfPositive(span.fy.value);
      if a.prorata && first {
        var part := DaysFromTo(a.dateStart, span.stop) as real / DaysFromTo(span.fy.value.start,
          span.fy.value.stop) as real;
        assert part >= 0.0;
        assert part * YearsOf(span.fy.value) >= 0.0;
      }
    }
  }

  /* ---- amount of a year ---- */

  function Min(x: real, y: real): real {
    if x <= y then x else y
  }

  /** The unrounded yearly amount under the five methods, given what is left. */
  function YearAmount(a: Asset, residual: int): real
    requires a.number > 0
  {
    var linear := a.base as real / a.number as real;
    var degressive := residual as real * a.progress;
    match a.way
    case Linear => linear
    case LinearLimit =>
      if residual as real - linear < a.salvage as real then (residual - a.salvage) as real else linear
    case Degressive => degressive
    case DegressiveLinear =>
      if linear > degressive then Min(linear, residual as real) else Min(degressive, residual as real)
    case DegressiveLimit =>
      if residual as real - degressive < a.salvage as real then (residual - a.salvage) as real else degressive
  }

  function PeriodsPerYear(period: Period): int {
    match period case Yearly => 1 case Quarterly => 4 case Monthly => 12
  }

  /** The rounded amount of one fiscal year: everything that is left in the last
      one, never more than what is left. */
  function FyAmount(a: Asset, factor: real, last: bool, residual: int): int
    requires a.number > 0
  {
    RoundedYear(a, if last then a.LastYear(residual) as real else Scale(YearAmount(a, residual), factor), residual)
  }

  function Scale(amount: real, factor: real): real {
    amount * factor
  }

  function RoundedYear(a: Asset, raw: real, residual: int): int {
    Round(Clamp(a, raw, residual as real))
  }

  /** Never more than what is left, in the direction of the depreciation base. */
  function Clamp(a: Asset, raw: real, residual: real): real {
    if a.Sign() as real * (raw - residual) > 0.0 then residual else raw
  }

  function RowOf(a: Asset, span: Span, first: bool, last: bool, residual: int, dates: int, day: int): Row
    requires a.Valid() && span.Valid()
    requires a.number > 0 || a.time == End
    requires dates > 0
  {
    if a.time == Years then
      Row(span.start.Ord(), span.stop.Ord(), span.init,
          Round(YearAmount(a, residual) / PeriodsPerYear(a.period) as real),
          FyAmount(a, DurationFactor(a, span, first), last, residual), day)
    else
      Row(span.start.Ord(), span.stop.Ord(), span.init,
          Round(a.base as real / (if a.time == Number then a.number else dates) as real), 0, day)
  }

  /** The table from year `i` on; it ends early when nothing is left. */
  function Rows(a: Asset, spans: seq<Span>, i: nat, residual: int, dates: int, day: int): (rows: seq<Row>)
    requires a.Valid() && (forall k :: 0 <= k < |spans| ==> spans[k].Valid())
    requires a.number > 0 || a.time == End
    requires dates > 0 && i <= |spans|
    ensures |rows| <= |spans| - i
    decreases |spans| - i
  {
    if i == |spans| then []
    else
      var row := RowOf(a, spans[i], i == 0, i == |spans| - 1, residual, dates, day);
      if a.time == Years && residual - row.fyAmount == 0 then [row]
      else [row] + Rows(a, spans, i + 1, if a.time == Years then residual - row.fyAmount else residual, dates, day)
  }

  /** The row of year `i`, and the rows after it. */
  lemma RowsNext(a: Asset, spans: seq<Span>, i: nat, residual: int, dates: int, day: int, before: seq<Row>)
    requires a.Valid() && (forall k :: 0 <= k < |spans| ==> spans[k].Valid())
    requires a.number > 0 || a.time == End
    requires dates > 0 && i < |spans|
    ensures var row := RowOf(a, spans[i], i == 0, i == |spans| - 1, residual, dates, day);
      var rest := if a.time == Years && residual - row.fyAmount == 0 then []
                  else Rows(a, spans, i + 1, if a.time == Years then residual - row.fyAmount else residual, dates, day);
      before + Rows(a, spans, i, residual, dates, day) == (before + [row]) + rest
  {
    hide RowOf, Date.Ord, DurationFactor;
  }

  lemma RowsEnd(a: Asset, spans: seq<Span>, residual: int, dates: int, day: int)
    requires a.Valid() && (forall k :: 0 <= k < |spans| ==> spans[k].Valid())
    requires (a.number > 0 || a.time == End) && dates > 0
    ensures Rows(a, spans, |spans|, residual, dates, day) == []
  {}

  method ComputeRows(a: Asset, spans: seq<Span>, dates: int, day: int) returns (rows: seq<Row>)
    requires a.Valid() && (forall k :: 0 <= k < |spans| ==> spans[k].Valid())
    requires a.number > 0 || a.time == End
    requires dates > 0
    ensures rows == Rows(a, spans, 0, a.base, dates, day)
  {
    hide Date.Ord, RowOf, DurationFactor, Rows;
    rows := [];
    var residual := a.base;
    assert [] + Rows(a, spans, 0, a.base, dates, day) == Rows(a, spans, 0, a.base, dates, day);
    var i := 0;
    while i < |spans|
      invariant i <= |spans|
      invariant Rows(a, spans, 0, a.base, dates, day) == rows + Rows(a, spans, i, residual, dates, day)
    {
      var row := RowOf(a, spans[i], i == 0, i == |spans| - 1, residual, dates, day);
      RowsNext(a, spans, i, residual, dates, day, rows);
      rows := rows + [row];
      if a.time == Years {
        residual := residual - row.fyAmount;
        if residual == 0 {
          assert rows + [] == rows;
          return;
        }
      }
      i := i + 1;
    }
    RowsEnd(a, spans, residual, dates, day);
    assert rows + [] == rows;
  }

  /* ---- what is left, year by year ---- */

  function SumFy(rows: seq<Row>): int {
    if rows == [] then 0 else rows[0].fyAmount + SumFy(rows[1..])
  }

  /** An asset whose parameters make sense: degressive factors are not negative, and
      the limit methods keep a salvage value within the base.  The base has either sign. */
  ghost predicate Sound(a: Asset) {
    && a.Valid() && a.time == Years && a.number > 0
    && (a.way == Degressive || a.way == DegressiveLimit ==> a.progress >= 0.0)
    && (a.Limited() ==> 0 <= a.salvage <= a.base)
  }

  /** What a year may leave: nothing beyond zero, never below salvage for the two limit
      methods. */
  function Floor(a: Asset): int {
    if a.Limited() then a.salvage else 0
  }

  /** The residual has not passed the floor, seen in the direction of the base. */
  predicate Above(a: Asset, residual: int) {
    a.Sign() * (residual - Floor(a)) >= 0
  }

  /** An amount that takes from the residual, and leaves the floor. */
  predicate Takes(a: Asset, amount: int, residual: int) {
    a.Sign() * amount >= 0 && Above(a, residual - amount)
  }

  lemma SignOfSound(a: Asset)
    requires Sound(a)
    ensures a.Limited() ==> a.base >= 0
    ensures a.base >= 0 ==> a.Sign() == 1
    ensures a.base < 0 ==> a.Sign() == -1 && Floor(a) == 0
  {}

  lemma YearAmountBounds(a: Asset, residual: int)
    requires Sound(a) && Above(a, residual)
    ensures a.base >= 0 ==> YearAmount(a, residual) >= 0.0
    ensures a.base < 0 ==> YearAmount(a, residual) <= 0.0
    ensures a.Limited() ==> YearAmount(a, residual) <= (residual - a.salvage) as real
  {
    assert a.base >= 0 ==> a.base as real / a.number as real >= 0.0;
    assert a.base < 0 ==> a.base as real / a.number as real <= 0.0;
    ProductSign(residual, a.progress);
  }

  lemma ProductSign(residual: int, progress: real)
    ensures progress >= 0.0 && residual >= 0 ==> residual as real * progress >= 0.0
    ensures progress >= 0.0 && residual <= 0 ==> residual as real * progress <= 0.0
  {}

  /** The amount of a year takes from what is left, and no more than what is above the
      floor; the last year takes exactly that. */
  lemma FyAmountBounds(a: Asset, factor: real, last: bool, residual: int)
    requires Sound(a) && Above(a, residual)
    requires factor >= 0.0
    requires a.Limited() && !last ==> factor <= 1.0
    ensures Takes(a, FyAmount(a, factor, last, residual), residual)
    ensures last ==> FyAmount(a, factor, last, residual) == residual - Floor(a)
  {
    hide Date.Ord, YearAmount, RoundedYear, Scale;
    if last {
      LastYearExact(a, residual);
    } else {
      YearAmountBounds(a, residual);
      ScaleBounds(YearAmount(a, residual), factor);
      RoundedYearBounds(a, Scale(YearAmount(a, residual), factor), residual);
    }
  }

  lemma RoundedYearBounds(a: Asset, raw: real, residual: int)
    requires Sound(a) && Above(a, residual)
    requires (a.base >= 0 ==> raw >= 0.0) && (a.base < 0 ==> raw <= 0.0)
    requires a.Limited() ==> raw <= (residual - a.salvage) as real
    ensures Takes(a, RoundedYear(a, raw, residual), residual)
  {
    ClampBounds(a, raw, residual as real);
    if a.base >= 0 {
      RoundBetween(0, Min(raw, residual as real), residual - Floor(a));
    } else {
      RoundBetween(residual, Max(raw, residual as real), 0);
    }
  }

  lemma LastYearExact(a: Asset, residual: int)
    requires Sound(a) && Above(a, residual)
    ensures RoundedYear(a, a.LastYear(residual) as real, residual) == residual - Floor(a)
  {
    ClampBounds(a, a.LastYear(residual) as real, residual as real);
    RoundOfInt(residual - Floor(a));
  }

  function Max(x: real, y: real): real {
    if x >= y then x else y
  }

  lemma ClampBounds(a: Asset, raw: real, residual: real)
    ensures Clamp(a, raw, residual) == if a.base >= 0 then Min(raw, residual) else Max(raw, residual)
  {
    assert a.Sign() as real * (raw - residual) == if a.base >= 0 then raw - residual else residual - raw;
  }

  lemma ScaleBounds(x: real, f: real)
    requires f >= 0.0
    ensures x >= 0.0 ==> Scale(x, f) >= 0.0 && (f <= 1.0 ==> Scale(x, f) <= x)
    ensures x <= 0.0 ==> Scale(x, f) <= 0.0
  {}

  /** The years of a table the asset starts in; for the limit methods no year
      counts for more than one. */
  ghost predicate Spanned(a: Asset, spans: seq<Span>)
    requires a.Valid()
  {
    && |spans| > 0
    && (forall k :: 0 <= k < |spans| ==> spans[k].Valid())
    && a.dateStart.Ord() <= spans[0].stop.Ord() + 1
    && (a.Limited() ==> forall i :: 0 <= i < |spans| ==> DurationFactor(a, spans[i], i == 0) <= 1.0)
  }

  /** The residual after `k` years of the table. */
  function Residual(a: Asset, rows: seq<Row>, k: nat): int
    requires k <= |rows|
  {
    a.base - SumFy(rows[..k])
  }

  lemma {:induction false} SumFySnoc(rows: seq<Row>, row: Row)
    ensures SumFy(rows + [row]) == SumFy(rows) + row.fyAmount
  {
    if rows != [] {
      assert (rows + [row])[1..] == rows[1..] + [row];
      SumFySnoc(rows[1..], row);
    }
  }

  lemma RowStep(a: Asset, spans: seq<Span>, i: nat, residual: int, dates: int, day: int)
    requires Sound(a) && Spanned(a, spans) && dates > 0 && i < |spans|
    requires Above(a, residual)
    ensures var last := i == |spans| - 1; var row := RowOf(a, spans[i], i == 0, last, residual, dates, day);
      && RowFollows(a, row, spans[i], day)
      && Above(a, residual - row.fyAmount)
      && (last ==> row.fyAmount == residual - Floor(a))
  {
    hide Date.Ord;
    FactorNotNegative(a, spans[i], i == 0);
    FyAmountBounds(a, DurationFactor(a, spans[i], i == 0), i == |spans| - 1, residual);
  }

  ghost predicate RowsFollow(a: Asset, rows: seq<Row>, spans: seq<Span>, i: nat, day: int)
  {
    && i + |rows| <= |spans|
    && forall k :: 0 <= k < |rows| ==> RowFollows(a, rows[k], spans[i + k], day)
  }

  /** The row of a year; its amount is in the direction of the base. */
  ghost predicate RowFollows(a: Asset, row: Row, span: Span, day: int) {
    && span.Valid()
    && row.start == span.start.Ord() && row.stop == span.stop.Ord()
    && a.Sign() * row.fyAmount >= 0 && row.dayAmount == day
  }

  /** From any point of the table on: the yearly amounts take from what is left, what
      they leave never passes the floor, and together they use up the residual down to
      the floor. */
  lemma {:induction false} RowsUseResidual(a: Asset, spans: seq<Span>, i: nat, residual: int, dates: int, day: int)
    requires Sound(a) && Spanned(a, spans) && dates > 0 && i < |spans|
    requires Above(a, residual)
    ensures var rows := Rows(a, spans, i, residual, dates, day);
      |rows| > 0 && RowsFollow(a, rows, spans, i, day) && SumFy(rows) == residual - Floor(a)
    decreases |spans| - i
  {
    hide Date.Ord, RowOf, Floor, DurationFactor, RowFollows, Above, RowsFollow;
    RowStep(a, spans, i, residual, dates, day);
    var last := i == |spans| - 1;
    var row := RowOf(a, spans[i], i == 0, last, residual, dates, day);
    var rows := Rows(a, spans, i, residual, dates, day);
    if residual - row.fyAmount == 0 {
      NothingLeft(a);
      assert rows == [row] + [];
      RowsFollowCons(a, row, [], spans, i, day);
    } else if last {
      assert Rows(a, spans, i + 1, residual - row.fyAmount, dates, day) == [];
      assert rows == [row] + [];
      RowsFollowCons(a, row, [], spans, i, day);
    } else {
      RowsUseResidual(a, spans, i + 1, residual - row.fyAmount, dates, day);
      var rest := Rows(a, spans, i + 1, residual - row.fyAmount, dates, day);
      assert rows == [row] + rest;
      RowsFollowCons(a, row, rest, spans, i, day);
    }
  }

  lemma RowsFollowCons(a: Asset, row: Row, rest: seq<Row>, spans: seq<Span>, i: nat, day: int)
    requires i < |spans| && RowFollows(a, row, spans[i], day) && (rest != [] ==> RowsFollow(a, rest, spans, i + 1, day))
    ensures RowsFollow(a, [row] + rest, spans, i, day) && SumFy([row] + rest) == row.fyAmount + SumFy(rest)
  {
    hide RowFollows;
    var rows := [row] + rest;
    assert rows[1..] == rest;
    forall k | 0 < k < |rows|
      ensures RowFollows(a, rows[k], spans[i + k], day)
    {
      assert rows[k] == rest[k - 1] && RowFollows(a, rest[k - 1], spans[i + 1 + (k - 1)], day);
    }
  }

  /** Nothing is left only where the floor is zero. */
  lemma NothingLeft(a: Asset)
    requires Sound(a)
    ensures Above(a, 0) ==> Floor(a) == 0
  {}

  lemma {:induction false} SumFyPrefix(rows: seq<Row>, sign: int, k: nat)
    requires sign == 1 || sign == -1
    requires k <= |rows| && forall i :: 0 <= i < |rows| ==> sign * rows[i].fyAmount >= 0
    ensures 0 <= sign * SumFy(rows[..k]) <= sign * SumFy(rows)
    ensures k > 0 ==> sign * SumFy(rows[..k - 1]) <= sign * SumFy(rows[..k])
    decreases |rows|
  {
    if rows != [] {
      if k > 0 {
        assert rows[..k][1..] == rows[1..][..k - 1];
        SumFyPrefix(rows[1..], sign, k - 1);
        if k > 1 {
          assert rows[..k - 1][1..] == rows[1..][..k - 2];
        }
      } else {
        SumFyPrefix(rows[1..], sign, 0);
      }
    }
  }

  /** Seen in the direction of the base, the yearly residual never rises, never leaves
      the range from the floor to the base, and ends at the floor: the years together
      depreciate exactly the depreciable amount. */
  lemma ResidualDescends(a: Asset, spans: seq<Span>, dates: int, day: int, k: nat)
    requires Sound(a) && Spanned(a, spans) && dates > 0
    requires k <= |Rows(a, spans, 0, a.base, dates, day)|
    ensures var rows := Rows(a, spans, 0, a.base, dates, day);
      && Above(a, Residual(a, rows, k)) && a.Sign() * Residual(a, rows, k) <= a.Sign() * a.base
      && (k > 0 ==> a.Sign() * Residual(a, rows, k) <= a.Sign() * Residual(a, rows, k - 1))
      && (k == |rows| ==> Residual(a, rows, k) == Floor(a) && SumFy(rows) == a.Depreciable())
  {
    hide Date.Ord, Rows, RowsFollow, SumFy, DurationFactor, Above, Floor;
    var rows := Rows(a, spans, 0, a.base, dates, day);
    AboveBase(a);
    RowsUseResidual(a, spans, 0, a.base, dates, day);
    RowsSigned(a, rows, spans, day);
    SumFyPrefix(rows, a.Sign(), k);
    assert rows[..|rows|] == rows;
    SignOfSound(a);
    AboveOf(a, Residual(a, rows, k));
  }

  lemma RowsSigned(a: Asset, rows: seq<Row>, spans: seq<Span>, day: int)
    requires RowsFollow(a, rows, spans, 0, day)
    ensures forall i :: 0 <= i < |rows| ==> a.Sign() * rows[i].fyAmount >= 0
  {
    hide Date.Ord;
    assert forall i :: 0 <= i < |rows| ==> RowFollows(a, rows[i], spans[0 + i], day);
  }

  lemma AboveBase(a: Asset)
    requires Sound(a)
    ensures Above(a, a.base)
    ensures a.Depreciable() == a.base - Floor(a)
  {}

  lemma AboveOf(a: Asset, residual: int)
    ensures Above(a, residual) <==> if a.base >= 0 then residual >= Floor(a) else residual <= Floor(a)
  {}

  /* ---- totals without conditions ---- */

  /** What the last fiscal year leaves: the salvage of a limit method, if it lies in the
      direction of the base, and else nothing. */
  function LeftAtEnd(a: Asset): int {
    if a.Limited() && a.Sign() * a.salvage >= 0 then a.salvage else 0
  }

  lemma LastYearLeaves(a: Asset, residual: int)
    ensures RoundedYear(a, a.LastYear(residual) as real, residual) == residual - LeftAtEnd(a)
  {
    ClampBounds(a, a.LastYear(residual) as real, residual as real);
    RoundOfInt(residual);
    RoundOfInt(a.LastYear(residual));
  }

  /** For every asset of the year method: the yearly amounts add up to the residual, less
      what the last fiscal year leaves if the table comes to it. */
  lemma {:induction false} RowsTotal(a: Asset, spans: seq<Span>, i: nat, residual: int, dates: int, day: int)
    requires a.Valid() && a.time == Years && a.number > 0 && dates > 0 && i < |spans|
    requires forall k :: 0 <= k < |spans| ==> spans[k].Valid()
    ensures var rows := Rows(a, spans, i, residual, dates, day);
      && 0 < |rows| <= |spans| - i
      && SumFy(rows) == residual - (if i + |rows| == |spans| then LeftAtEnd(a) else 0)
    decreases |spans| - i
  {
    hide Date.Ord, DurationFactor, LeftAtEnd, RoundedYear, YearAmount;
    var last := i == |spans| - 1;
    var row := RowOf(a, spans[i], i == 0, last, residual, dates, day);
    var rows := Rows(a, spans, i, residual, dates, day);
    LastYearLeaves(a, residual);
    if residual - row.fyAmount == 0 {
      assert rows == [row];
    } else if last {
      assert Rows(a, spans, i + 1, residual - row.fyAmount, dates, day) == [];
      assert rows == [row];
    } else {
      RowsTotal(a, spans, i + 1, residual - row.fyAmount, dates, day);
      assert rows == [row] + Rows(a, spans, i + 1, residual - row.fyAmount, dates, day);
    }
  }

  /** The table ends where it should: nothing is kept back, or the salvage of a limit
      method lies in the direction of the base and no year before the last fiscal year
      has used up everything. */
  predicate KeepsSalvage(a: Asset, rows: seq<Row>, spans: seq<Span>) {
    a.Limited() && a.salvage != 0 ==> a.Sign() * a.salvage > 0 && |rows| == |spans|
  }

  /** The yearly amounts add up to the depreciable amount exactly if the table keeps the
      salvage value. */
  lemma YearsUseDepreciable(a: Asset, spans: seq<Span>, dates: int, day: int)
    requires a.Valid() && a.time == Years && a.number > 0 && dates > 0 && |spans| > 0
    requires forall k :: 0 <= k < |spans| ==> spans[k].Valid()
    ensures var rows := Rows(a, spans, 0, a.base, dates, day);
      SumFy(rows) == a.Depreciable() <==> KeepsSalvage(a, rows, spans)
  {
    hide Rows, Date.Ord;
    RowsTotal(a, spans, 0, a.base, dates, day);
  }

  /** An asset with sensible parameters, in years of ordinary length, keeps it. */
  lemma SoundKeepsSalvage(a: Asset, spans: seq<Span>, dates: int, day: int)
    requires Sound(a) && Spanned(a, spans) && dates > 0
    ensures KeepsSalvage(a, Rows(a, spans, 0, a.base, dates, day), spans)
  {
    hide Rows, Date.Ord, DurationFactor;
    RowsUseResidual(a, spans, 0, a.base, dates, day);
    YearsUseDepreciable(a, spans, dates, day);
  }
}
