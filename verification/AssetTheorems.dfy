/** What the depreciation engine promises, end to end: from an asset's parameters
    and the defined fiscal years to its table and its stored schedule. */
module AssetTheorems {
  import opened Rounding
  import opened Calendar
  import opened Outcome
  import opened AssetTypes
  import opened AssetDates
  import opened AssetAmounts
  import opened AssetLines
  import opened AssetConservation
  import opened AssetBoard
  import opened BoardConservation
  import opened BoardStability
  import opened AssetTiling
  import opened AssetDays
  import opened AssetTable

  /** The table, computed step by step as the program does. */
  method ComputeTable(a: Asset, fys: seq<FiscalYear>) returns (r: Result<seq<Entry>>)
    requires a.Valid() && ValidYears(fys)
    ensures r == Table(a, fys)
  {
    hide Date.Ord, Spread, Rows, LineDates, Spans, StopDate, StartDate, FirstYear;
    if a.time != End && a.number == 0 {
      return Ok([]);
    }
    var found := FirstYear(a, fys);
    if found.Err? {
      return found.PropagateFailure();
    }
    var first := found.value;
    var start := StartDate(a, first);
    var stop := StopDate(a, start).Ord();
    StopAfterStart(a, first);
    SpansTile(fys, a.period, stop, first);
    var spans := BuildSpans(fys, a.period, stop, first);
    var dates := ComputeLineDates(a, spans, start, stop);
    LineDatesReach(a, spans, start, stop);
    FrameOfFramed(a, fys);
    var rows := ComputeRows(a, spans, |dates|, DayAmount(a, stop - start.Ord() + 1));
    r := ComputeLines(a, rows, start.Ord(), stop, dates);
  }

  lemma RowOfDated(a: Asset, span: Span, first: bool, last: bool, residual: int, dates: int, day: int)
    requires a.Valid() && span.Valid() && (a.number > 0 || a.time == End) && dates > 0
    ensures RowDated(RowOf(a, span, first, last, residual, dates, day), span, day)
  {
    hide Date.Ord, DurationFactor, FyAmount, YearAmount;
  }

  /** The rows are dated like the years from `i` on. */
  ghost predicate RowsDated(rows: seq<Row>, spans: seq<Span>, i: nat, day: int) {
    && i + |rows| <= |spans|
    && forall k :: 0 <= k < |rows| ==> RowDated(rows[k], spans[i + k], day)
  }

  lemma RowsDatedCons(row: Row, rest: seq<Row>, spans: seq<Span>, i: nat, day: int)
    requires i < |spans| && RowDated(row, spans[i], day) && RowsDated(rest, spans, i + 1, day)
    ensures RowsDated([row] + rest, spans, i, day)
  {
    hide RowDated;
    var rows := [row] + rest;
    forall k | 0 <= k < |rows|
      ensures RowDated(rows[k], spans[i + k], day)
    {
      if k > 0 {
        var j := k - 1;
        assert rows[k] == rest[j] && RowDated(rest[j], spans[i + 1 + j], day);
      }
    }
  }

  lemma NoRowsDated(spans: seq<Span>, i: nat, day: int)
    requires i <= |spans|
    ensures RowsDated([], spans, i, day)
  {}

  lemma {:induction false} RowsShape(a: Asset, spans: seq<Span>, i: nat, residual: int, dates: int, day: int)
    requires a.Valid() && (forall k :: 0 <= k < |spans| ==> spans[k].Valid())
    requires a.number > 0 || a.time == End
    requires dates > 0 && i <= |spans|
    ensures var rows := Rows(a, spans, i, residual, dates, day);
      (i < |spans| ==> |rows| > 0) && RowsDated(rows, spans, i, day)
    decreases |spans| - i
  {
    hide Date.Ord, RowOf, RowDated, RowsDated;
    if i == |spans| {
      NoRowsDated(spans, i, day);
    } else {
      var row := RowOf(a, spans[i], i == 0, i == |spans| - 1, residual, dates, day);
      RowOfDated(a, spans[i], i == 0, i == |spans| - 1, residual, dates, day);
      var next := if a.time == Years then residual - row.fyAmount else residual;
      if a.time == Years && next == 0 {
        NoRowsDated(spans, i + 1, day);
        RowsDatedCons(row, [], spans, i, day);
        assert [row] + [] == [row];
      } else {
        RowsShape(a, spans, i + 1, next, dates, day);
        RowsDatedCons(row, Rows(a, spans, i + 1, next, dates, day), spans, i, day);
      }
    }
  }

  ghost predicate RowDated(row: Row, span: Span, day: int) {
    span.Valid() && row.start == span.start.Ord() && row.stop == span.stop.Ord() && row.dayAmount == day
  }

  lemma RowsOfTile(a: Asset, f: Frame)
    requires a.Valid() && Framed(a, f) && (a.number > 0 || a.time == End)
    ensures var rows := RowsOf(a, f);
      && |rows| > 0 && |f.dates| > 0 && RowsTile(rows, f.stop)
      && rows[0].start <= f.dates[0]
      && rows[0].start == f.spans[0].start.Ord() && rows[0].stop == f.spans[0].stop.Ord()
      && forall k :: 0 <= k < |rows| ==> rows[k].dayAmount == DayAmount(a, f.stop - f.start + 1)
  {
    hide Date.Ord, Rows;
    var day := DayAmount(a, f.stop - f.start + 1);
    RowsShape(a, f.spans, 0, a.base, |f.dates|, day);
    var rows := RowsOf(a, f);
    assert forall k :: 0 <= k < |rows| ==> RowDated(rows[k], f.spans[0 + k], day);
  }

  /** The table over a frame is completed. */
  ghost predicate Computed(a: Asset, f: Frame) {
    a.Valid() && Framed(a, f) && (a.number > 0 || a.time == End) && TableOn(a, f).Ok?
  }

  lemma ComputedChain(a: Asset, f: Frame)
    requires Computed(a, f)
    ensures Chain(Flatten(TableOn(a, f).value), a.base, 0)
  {
    hide Spread, RowsOf, Filled, Chain;
    SpreadConserves(a, RowsOf(a, f), 0, f.start, f.stop, f.dates, a.base, 0);
  }

  /** Conservation of the table.  For the year method without day calculation every
      line satisfies depreciated + amount + remaining = base and every year's lines
      add up to the year's amount, whatever the sign of the base and the length of the
      years.  The whole table adds up to the depreciable amount, which is the base less
      the salvage of the two limit methods, if and only if it keeps that salvage. */
  lemma TableConserves(a: Asset, f: Frame)
    requires Computed(a, f) && a.time == Years && !a.daysCalc
    ensures var table := TableOn(a, f).value;
      && Chain(Flatten(table), a.base, 0)
      && YearsAddUp(table)
      && (SumLines(Flatten(table)) == a.Depreciable() <==> KeepsSalvage(a, RowsOf(a, f), f.spans))
      && Filled(table)
      && (table != [] ==> LastRemaining(table) == a.base - SumLines(Flatten(table)))
  {
    hide Spread, Framed, Rows, Chain, YearsAddUp, Filled, KeepsSalvage, Asset.Depreciable;
    ComputedChain(a, f);
    var rows := RowsOf(a, f);
    RowsOfTile(a, f);
    SpreadConserves(a, rows, 0, f.start, f.stop, f.dates, a.base, 0);
    FramedSpans(a, f);
    YearsUseDepreciable(a, f.spans, |f.dates|, 0);
    assert rows[0..] == rows;
    LastOfChain(TableOn(a, f).value, a.base);
  }

  lemma FramedSpans(a: Asset, f: Frame)
    requires a.Valid() && Framed(a, f)
    ensures |f.spans| > 0 && |f.dates| > 0 && forall k :: 0 <= k < |f.spans| ==> f.spans[k].Valid()
  {
    hide Date.Ord;
  }

  /** Year factors that keep the limit methods above salvage. */
  ghost predicate FactorsFit(a: Asset, spans: seq<Span>)
    requires a.Valid()
  {
    a.Limited() ==> forall i :: 0 <= i < |spans| ==> spans[i].Valid() && DurationFactor(a, spans[i], i == 0) <= 1.0
  }

  /** An asset with sensible parameters, over years that count for one at most, keeps its
      salvage. */
  lemma FrameKeepsSalvage(a: Asset, f: Frame)
    requires Sound(a) && Framed(a, f) && FactorsFit(a, f.spans) && !a.daysCalc
    ensures KeepsSalvage(a, RowsOf(a, f), f.spans)
  {
    hide Date.Ord, DurationFactor, Rows, KeepsSalvage;
    SoundKeepsSalvage(a, f.spans, |f.dates|, 0);
  }

  lemma LastOfChain(table: seq<Entry>, base: int)
    requires Chain(Flatten(table), base, 0) && Filled(table)
    ensures table != [] ==> Flatten(table) != [] && LastRemaining(table) == base - SumLines(Flatten(table))
    ensures table != [] ==> Flatten(table)[|Flatten(table)| - 1].date == LastDate(table)
  {
    if table != [] {
      var lines := Flatten(table);
      FlattenEnd(table);
      ChainAt(lines, base, 0, |lines| - 1);
      assert lines[..|lines|] == lines;
    }
  }

  /** Conservation of the schedule.  Whatever was posted before, with whatever
      deviation from the table: if the rebuild completes, posted plus created
      amounts are exactly the depreciable amount, unless the table loses the salvage and
      the last posted date is the end of its last year. */
  lemma ScheduleConserves(a: Asset, f: Frame, posted: Posted)
    requires Computed(a, f) && a.time == Years && !a.daysCalc
    requires posted.count == 0 ==> posted.total == 0
    requires TableOn(a, f).value != []
    requires Rebuild(a, TableOn(a, f).value, posted).Ok?
    ensures posted.total + SumNew(Rebuild(a, TableOn(a, f).value, posted).value) == a.Depreciable()
      <==> KeepsSalvage(a, RowsOf(a, f), f.spans) || posted.count == 0
           || !AtEndOfTable(TableOn(a, f).value, posted.last)
  {
    hide TableOn, RowsOf, Rebuild, Framed, Chain, YearsAddUp, KeepsSalvage, Asset.Depreciable;
    TableConserves(a, f);
    CompletedBoardConserves(a, TableOn(a, f).value, posted);
  }

  /** Every table, for every asset and over any fiscal years, is laid out over contiguous
      years on rising dates. */
  lemma TableLaid(a: Asset, f: Frame)
    requires Computed(a, f)
    ensures Laid(TableOn(a, f).value)
  {
    hide Spread, RowsOf, Contiguous, WithinStops, Rises, LastDate;
    RowsOfTile(a, f);
    SpreadLaid(a, RowsOf(a, f), 0, f.start, f.stop, f.dates, a.base, 0);
  }

  /** Stability of the schedule, for every table that is computed: any method, time method
      and fiscal years, by days or not.  Build the schedule, post its first `k` lines,
      rebuild.  The rebuild creates exactly the lines that were not posted, with the
      exceptions that any table has, if and only if the `k`-th line is in place: it lies in
      its own fiscal year, or is the first line of a year dated on the last day of the year
      before.  Otherwise the posted line is created again. */
  lemma ScheduleIsStable(a: Asset, f: Frame, k: nat)
    requires Computed(a, f)
    requires 0 < k <= |Rebuild(a, TableOn(a, f).value, Posted(0, 0, 0)).value|
    ensures TableOn(a, f).value != []
    ensures var table := TableOn(a, f).value; var all := Rebuild(a, table, Posted(0, 0, 0)).value;
      var again := Rebuild(a, table, Posted(k, all[k - 1].date, SumNew(all[..k])));
      && (again == AfterPosting(a, table, all, k) <==> InPlace(table, all[k - 1].date))
      && (!InPlace(table, all[k - 1].date) ==> again.Ok? && Holds(again.value, all[k - 1]))
      && (all[k - 1].date == LastDate(table) ==> k == |all|)
  {
    hide TableOn, Laid, Chain, Framed, AfterPosting, InPlace, Holds;
    ComputedChain(a, f);
    TableLaid(a, f);
    assert TableOn(a, f).value != [];
    hide Rebuild;
    RebuildIsStable(a, TableOn(a, f).value, k);
  }

  /** Every year of the table starts in itself: whatever is posted first, the lines not
      posted come back. */
  lemma InYearsIsStable(a: Asset, f: Frame, k: nat)
    requires Computed(a, f) && InYears(TableOn(a, f).value)
    requires 0 < k <= |Rebuild(a, TableOn(a, f).value, Posted(0, 0, 0)).value|
    ensures TableOn(a, f).value != []
    ensures var table := TableOn(a, f).value; var all := Rebuild(a, table, Posted(0, 0, 0)).value;
      && InPlace(table, all[k - 1].date)
      && Rebuild(a, table, Posted(k, all[k - 1].date, SumNew(all[..k]))) == AfterPosting(a, table, all, k)
      && (all[k - 1].date == LastDate(table) ==> k == |all|)
  {
    hide TableOn, Laid, AfterPosting, InYears, InPlace, Holds, SumNew;
    var all := Rebuild(a, TableOn(a, f).value, Posted(0, 0, 0)).value;
    hide Rebuild;
    ScheduleIsStable(a, f, k);
    TableLaid(a, f);
    InYearsInPlace(TableOn(a, f).value, all[k - 1].date);
  }

  /** When every fiscal year but the last of the table ends on a posting date, it does. */
  lemma AlignedTableInYears(a: Asset, f: Frame)
    requires Computed(a, f) && YearsEndOnPosting(TableOn(a, f).value) && TableOn(a, f).value != []
    ensures InYears(TableOn(a, f).value)
  {
    hide TableOn, Laid, YearsEndOnPosting;
    TableLaid(a, f);
    AlignedInYears(TableOn(a, f).value);
  }

  /** So does every table whose years are not settled, over any fiscal years: that of an
      asset depreciated by a number of entries, up to an ending date, or by days. */
  lemma UnsettledTableInYears(a: Asset, f: Frame)
    requires Computed(a, f) && NeverSettled(a, RowsOf(a, f))
    ensures InYears(TableOn(a, f).value)
  {
    hide Spread, RowsOf, Filled, NeverSettled, InYears;
    RowsOfTile(a, f);
    SpreadInYears(a, RowsOf(a, f), 0, f.start, f.stop, f.dates, a.base, 0);
  }

  /** A table that is computed comes from the asset's frame. */
  lemma TableOfFrame(a: Asset, fys: seq<FiscalYear>)
    requires a.Valid() && ValidYears(fys) && Table(a, fys).Ok? && Table(a, fys).value != []
    ensures (a.number > 0 || a.time == End) && FrameOf(a, fys).Ok?
    ensures Computed(a, FrameOf(a, fys).value) && Table(a, fys).value == TableOn(a, FrameOf(a, fys).value).value
  {
    hide FrameOf, TableOn, Framed;
    FrameOfFramed(a, fys);
  }

  /** End to end, from any asset and any defined fiscal years: stability of the schedule. */
  lemma AssetIsStable(a: Asset, fys: seq<FiscalYear>, k: nat)
    requires a.Valid() && ValidYears(fys) && Table(a, fys).Ok?
    requires 0 < k <= |Rebuild(a, Table(a, fys).value, Posted(0, 0, 0)).value|
    ensures Table(a, fys).value != []
    ensures var table := Table(a, fys).value; var all := Rebuild(a, table, Posted(0, 0, 0)).value;
      var again := Rebuild(a, table, Posted(k, all[k - 1].date, SumNew(all[..k])));
      && (again == AfterPosting(a, table, all, k) <==> InPlace(table, all[k - 1].date))
      && (!InPlace(table, all[k - 1].date) ==> again.Ok? && Holds(again.value, all[k - 1]))
  {
    hide Table, TableOn, FrameOf, Framed, AfterPosting, InPlace, Holds, SumNew;
    assert Table(a, fys).value != [];
    hide Rebuild;
    TableOfFrame(a, fys);
    ScheduleIsStable(a, FrameOf(a, fys).value, k);
  }

  /* ---- depreciation by days ---- */

  lemma {:induction false} RatedSum(lines: seq<Line>, rate: int)
    requires lines != [] && Rated(lines, rate)
    ensures var last := lines[|lines| - 1];
      SumLines(lines) - last.amount == (SumDays(lines) - last.days) * rate
  {
    if |lines| == 1 {
      assert lines[1..] == [];
      assert SumLines(lines) == lines[0].amount && SumDays(lines) == lines[0].days;
    } else {
      RatedSum(lines[1..], rate);
      var last := lines[|lines| - 1];
      assert lines[1..][|lines| - 2] == last;
      Times(lines[0].days, SumDays(lines[1..]) - last.days, rate);
    }
  }

  lemma Times(x: int, y: int, rate: int)
    ensures x * rate + y * rate == (x + y) * rate
  {}

  /** A rounded rate is off by at most half a unit, so over `days` days by at most
      half a unit per day. */
  lemma RateOff(base: int, days: int)
    requires days > 0
    ensures var off := 2 * (base - Round(base as real / days as real) * days); -days <= off <= days
  {
    var d := days as real;
    var exact, rate := base as real / d, Round(base as real / d);
    hide Round;
    Spreads(exact, rate as real, d, base as real, (rate * days) as real);
  }

  lemma Spreads(x: real, y: real, d: real, xd: real, yd: real)
    requires d > 0.0 && x - 0.5 <= y <= x + 0.5 && x * d == xd && y * d == yd
    ensures xd - d / 2.0 <= yd <= xd + d / 2.0
  {
    var u, v := y - x + 0.5, x + 0.5 - y;
    ProductNotNegative(u, d);
    ProductNotNegative(v, d);
    assert u * d == y * d - x * d + 0.5 * d;
    assert v * d == x * d - y * d + 0.5 * d;
  }

  lemma ProductNotNegative(x: real, y: real)
    requires x >= 0.0 && y >= 0.0
    ensures x * y >= 0.0
  {}

  /** Depreciation by days.  With a positive day rate, years that end on posting
      dates and a line on the stop date, every line but the last is its days times the
      rate.  The lines' days count every day from the start to the stop date exactly
      once if and only if depreciation starts within the first year; then the last line
      differs from its days times the rate by at most half a minor unit per day of the
      whole span. */
  lemma DaysTileAndRoundingBound(a: Asset, f: Frame)
    requires Computed(a, f) && DayAmount(a, f.stop - f.start + 1) > 0
    requires TableOn(a, f).value != [] && YearsEndOnPosting(TableOn(a, f).value)
    requires LastDate(TableOn(a, f).value) == f.stop
    ensures var lines, rate, days := Flatten(TableOn(a, f).value), DayAmount(a, f.stop - f.start + 1),
      f.stop - f.start + 1;
      && lines != []
      && (SumDays(lines) == days <==> f.spans[0].start.Ord() <= f.start)
      && (forall k :: 0 <= k < |lines| - 1 ==> lines[k].amount == lines[k].days * rate)
      && var off := 2 * (lines[|lines| - 1].amount - lines[|lines| - 1].days * rate);
      f.spans[0].start.Ord() <= f.start ==> -days <= off <= days
  {
    hide Spread, RowsOf, Chain, YearsEndOnPosting, Filled, LastDate, SumDays, SumLines, Date.Ord;
    var rows, table, days := RowsOf(a, f), TableOn(a, f).value, f.stop - f.start + 1;
    var rate := DayAmount(a, days);
    RowsOfTile(a, f);
    ComputedChain(a, f);
    SpreadDays(a, rows, 0, f.start, f.stop, f.dates, a.base, 0, rate);
    LastOfChain(table, a.base);
    var lines := Flatten(table);
    RatedSum(lines, rate);
    FlattenEnd(table);
    if f.spans[0].start.Ord() <= f.start {
      LastLineOff(a, lines, days, rate);
    }
  }

  lemma LastLineOff(a: Asset, lines: seq<Line>, days: int, rate: int)
    requires a.daysCalc && days > 0 && rate == DayAmount(a, days) && lines != [] && SumDays(lines) == days
    requires var last := lines[|lines| - 1];
      && (last.remaining == 0 || last.amount == last.days * rate)
      && last.remaining == a.base - SumLines(lines)
      && SumLines(lines) - last.amount == (days - last.days) * rate
    ensures var last := lines[|lines| - 1]; var off := 2 * (last.amount - last.days * rate); -days <= off <= days
  {
    hide SumLines, SumDays;
    var last := lines[|lines| - 1];
    if last.remaining == 0 {
      RateOff(a.base, days);
      var rest := days - last.days;
      Times(rest, last.days, rate);
      assert last.amount - last.days * rate == a.base - rate * days;
    }
  }
}
