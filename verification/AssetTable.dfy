/** The whole depreciation table of an asset. */
module AssetTable {
  import opened Rounding
  import opened Calendar
  import opened Outcome
  import opened AssetTypes
  import opened AssetDates
  import opened AssetAmounts
  import opened AssetLines
  import opened AssetBoard

  /** The rounded amount per day of the asset's life, when days are counted. */
  function DayAmount(a: Asset, days: int): int {
    if a.daysCalc && days != 0 then Round(a.base as real / days as real) else 0
  }

  /** What the table is computed from: the years, the posting dates, and the first
      and last day of depreciation. */
  datatype Frame = Frame(spans: seq<Span>, dates: seq<int>, start: int, stop: int)

  function FrameOf(a: Asset, fys: seq<FiscalYear>): (r: Result<Frame>)
    requires a.Valid() && ValidYears(fys) && (a.number > 0 || a.time == End)
    ensures r.Ok? ==> |r.value.dates| > 0
  {
    hide Date.Ord;
    var first :- FirstYear(a, fys);
    var start := StartDate(a, first);
    var stop := StopDate(a, start).Ord();
    StopAfterStart(a, first);
    SpansTile(fys, a.period, stop, first);
    var spans := Spans(fys, a.period, stop, first);
    LineDatesReach(a, spans, start, stop);
    Ok(Frame(spans, LineDates(a, spans, start, stop), start.Ord(), stop))
  }

  /** The years an asset's table is made of: they cover its life without gap or
      overlap, start with the year the asset starts in, and the posting dates
      increase up to the stop date; only an asset that has its number of dates stops
      short of it. */
  ghost predicate Framed(a: Asset, f: Frame)
    requires a.Valid()
  {
    && Tiles(f.spans, f.stop) && |f.spans| > 0
    && a.dateStart.Ord() <= f.spans[0].stop.Ord() + 1
    && f.start <= f.stop && f.start <= f.spans[0].stop.Ord() + 1
    && |f.dates| > 0 && Increasing(f.dates)
    && (forall k :: 0 <= k < |f.dates| - 1 ==> f.dates[k] < f.stop)
    && (f.dates[|f.dates| - 1] < f.stop ==> a.time == Number && |f.dates| == a.number)
    && (f.dates[|f.dates| - 1] > f.stop ==> !a.daysCalc)
    && f.spans[0].start.Ord() <= f.dates[0]
  }

  /** The first posting date is not before the year the asset starts in. */
  lemma FirstDateInYear(a: Asset, first: Span)
    requires a.Valid() && first.Valid() && first.start.Ord() <= a.dateStart.Ord()
    ensures first.start.Ord() <= FirstDate(a.period, [first], StartDate(a, first)).Ord()
  {
    hide Date.Ord;
    var start := StartDate(a, first);
    if !a.prorata && a.period != Yearly {
      LaterMonth(first.start, MonthEnd(start));
      LaterMonth(MonthEnd(start), QuarterEnd(start));
    }
  }

  /** Depreciation starts within the first year, or on the first of the month that
      year starts in. */
  lemma StartInYear(a: Asset, first: Span)
    requires a.Valid() && first.Valid() && a.dateStart.Ord() <= first.stop.Ord() + 1
    ensures StartDate(a, first).Ord() <= first.stop.Ord() + 1
  {
    if !a.prorata {
      LaterMonth(StartDate(a, first), first.start);
      assert StartDate(a, first).Ord() <= first.start.Ord() by {
        hide Date.Ord;
      }
    }
  }

  lemma FrameOfFramed(a: Asset, fys: seq<FiscalYear>)
    requires a.Valid() && ValidYears(fys) && (a.number > 0 || a.time == End)
    requires FrameOf(a, fys).Ok?
    ensures Framed(a, FrameOf(a, fys).value)
  {
    hide Date.Ord, Spans, FirstYear, StartDate, StopDate, FirstDate;
    var first := FirstYear(a, fys).value;
    var start := StartDate(a, first);
    var stop := StopDate(a, start).Ord();
    StopAfterStart(a, first);
    SpansTile(fys, a.period, stop, first);
    var spans := Spans(fys, a.period, stop, first);
    LineDatesReach(a, spans, start, stop);
    FirstDateInYear(a, first);
    StartInYear(a, first);
    FirstLineDate(a, spans, start, stop);
    FirstDateOf(a.period, spans, start);
  }

  lemma FirstDateOf(period: Period, spans: seq<Span>, start: Date)
    requires start.Valid() && |spans| > 0 && spans[0].Valid()
    ensures FirstDate(period, spans, start) == FirstDate(period, [spans[0]], start)
  {}

  lemma FirstLineDate(a: Asset, spans: seq<Span>, start: Date, stop: int)
    requires start.Valid() && Tiles(spans, stop) && |spans| > 0
    requires a.number > 0 || a.time == End
    ensures LineDates(a, spans, start, stop)[0] in {FirstDate(a.period, spans, start).Ord(), stop}
  {
    hide Date.Ord;
    LineDatesReach(a, spans, start, stop);
    RunReaches(a.period, spans, stop, FirstDate(a.period, spans, start), 1);
  }

  /** The years of the table with their amounts. */
  function RowsOf(a: Asset, f: Frame): seq<Row>
    requires a.Valid() && Framed(a, f) && (a.number > 0 || a.time == End)
  {
    Rows(a, f.spans, 0, a.base, |f.dates|, DayAmount(a, f.stop - f.start + 1))
  }

  lemma {:induction false} SpreadFilled(a: Asset, rows: seq<Row>, i: nat, start: int, stop: int, dates: seq<int>,
                                        remaining: int, depreciated: int)
    requires i <= |rows| && |dates| > 0
    ensures var r := Spread(a, rows, i, start, stop, dates, remaining, depreciated); r.Ok? ==> Filled(r.value)
    decreases |rows| - i
  {
    if i < |rows| {
      hide SpreadOne;
      var (settled, li) := SpreadOne(YearAt(a, rows, i, stop), dates, start, remaining, depreciated);
      if settled.Ok? && settled.value.lines != [] {
        var run := settled.value;
        SpreadFilled(a, rows, i + 1, start, stop, dates[li..], run.remaining, run.depreciated);
      }
    }
  }

  /** The table of an asset over given years and dates. */
  function TableOn(a: Asset, f: Frame): (r: Result<seq<Entry>>)
    requires a.Valid() && Framed(a, f) && (a.number > 0 || a.time == End)
    ensures r.Ok? ==> Filled(r.value)
  {
    hide Spread, RowsOf, Filled;
    SpreadFilled(a, RowsOf(a, f), 0, f.start, f.stop, f.dates, a.base, 0);
    Spread(a, RowsOf(a, f), 0, f.start, f.stop, f.dates, a.base, 0)
  }

  /** The table of an asset; one without periods has none. */
  function Table(a: Asset, fys: seq<FiscalYear>): (r: Result<seq<Entry>>)
    requires a.Valid() && ValidYears(fys)
    ensures r.Ok? ==> Filled(r.value)
  {
    if a.time != End && a.number == 0 then Ok([])
    else
      var f :- FrameOf(a, fys);
      FrameOfFramed(a, fys);
      TableOn(a, f)
  }
}
