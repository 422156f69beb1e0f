/** Fiscal years and posting dates, end to end: when every fiscal year holds a posting date,
    and when it ends on one. */
module AssetMonthEnds {
  import opened Calendar
  import opened Outcome
  import opened AssetTypes
  import opened AssetDates
  import opened AssetAmounts
  import opened AssetLines
  import opened AssetConservation
  import opened AssetBoard
  import opened BoardStability
  import opened AssetTiling
  import opened AssetTable
  import opened AssetTheorems
  import opened AssetYearly
  import opened AssetPeriodic
  import opened AssetPosting

  /** The last day of a month other than February; for quarterly posting, of a quarter. */
  predicate EndsPeriod(period: Period, d: Date)
    requires d.Valid()
  {
    !NextInMonth(d) && d.month != 2 && (period == Quarterly ==> d.month % 3 == 0)
  }

  lemma YearLater(period: Period, d: Date)
    requires d.Valid() && EndsPeriod(period, d)
    ensures EndsPeriod(period, AddYears(d, 1))
  {
    var r := AddYears(d, 1);
    assert MonthIndex(r) == 12 * (d.year + 1) + d.month - 1;
    assert r.month == d.month && MonthLength(MonthIndex(r)) == DaysInMonth(r.year, r.month);
  }

  ghost predicate AllEnd(spans: seq<Span>, period: Period, day: int) {
    forall k :: 0 <= k < |spans| ==>
      spans[k].Valid() && EndsPeriod(period, spans[k].stop) && day <= spans[k].stop.Ord()
  }

  lemma AllEndCons(cur: Span, rest: seq<Span>, period: Period, day: int)
    requires cur.Valid() && EndsPeriod(period, cur.stop) && AllEnd(rest, period, day) && cur.stop.Ord() <= day
    ensures AllEnd([cur] + rest, period, cur.stop.Ord())
  {
    hide Date.Ord, EndsPeriod;
    var spans := [cur] + rest;
    assert forall k :: 0 < k < |spans| ==> spans[k] == rest[k - 1];
  }

  /** All fiscal years end like the first. */
  lemma {:induction false} SpansEndPeriods(fys: seq<FiscalYear>, period: Period, stop: int, cur: Span)
    requires ValidYears(fys) && cur.Valid() && period != Yearly && EndsPeriod(period, cur.stop)
    ensures AllEnd(Spans(fys, period, stop, cur), period, cur.stop.Ord())
    decreases stop - cur.start.Ord() + 1
  {
    hide Date.Ord, EndsPeriod, AddYears, AllEnd;
    if cur.start.Ord() <= stop {
      var next := Following(fys, period, cur);
      assert next.stop == AddYears(cur.stop, 1);
      YearLater(period, cur.stop);
      SpansEndPeriods(fys, period, stop, next);
      AllEndCons(cur, Spans(fys, period, stop, next), period, next.stop.Ord());
    } else {
      NoneEnd(period, cur.stop.Ord());
    }
  }

  lemma NoneEnd(period: Period, day: int)
    ensures AllEnd([], period, day)
  {}

  /** The end of a month that the run of dates comes to. */
  ghost predicate Ahead(period: Period, line: Date, d: Date) {
    && line.Valid() && !NextInMonth(line) && d.Valid() && !NextInMonth(d)
    && MonthIndex(line) <= MonthIndex(d)
    && (MonthIndex(d) - MonthIndex(line)) % PeriodMonths(period) == 0
  }

  lemma SameMonthEnd(d: Date, e: Date)
    requires d.Valid() && e.Valid() && !NextInMonth(d) && !NextInMonth(e) && MonthIndex(d) == MonthIndex(e)
    ensures d == e
  {}

  /** Every such end before the stop date is a posting date. */
  lemma {:induction false} RunMeets(period: Period, spans: seq<Span>, stop: int, line: Date, i: nat, d: Date)
    requires AtYear(period, spans, stop, line, i) && period != Yearly && Ahead(period, line, d) && d.Ord() < stop
    ensures var run := DateRun(period, spans, stop, line, i); d.Ord() in run[..|run| - 1]
    decreases stop - line.Ord()
  {
    hide Date.Ord;
    var run := DateRun(period, spans, stop, line, i);
    if MonthIndex(line) == MonthIndex(d) {
      SameMonthEnd(line, d);
      assert run[..|run| - 1][0] == d.Ord();
    } else {
      LaterMonth(line, d);
      var next := NextDate(period, spans, stop, line, i);
      StillAhead(period, line, d, next);
      RunMeets(period, spans, stop, next, i + 1, d);
      var rest := DateRun(period, spans, stop, next, i + 1);
      assert run == [line.Ord()] + rest;
      assert run[..|run| - 1] == [line.Ord()] + rest[..|rest| - 1];
    }
  }

  lemma StillAhead(period: Period, line: Date, d: Date, next: Date)
    requires Ahead(period, line, d) && period != Yearly && MonthIndex(line) != MonthIndex(d)
    requires next == MonthEnd(AddMonths(line, PeriodMonths(period)))
    ensures Ahead(period, next, d)
  {
    assert MonthIndex(next) == MonthIndex(line) + PeriodMonths(period);
  }

  lemma QuartersApart(i: int, first: int, later: int)
    requires first % 3 == 2 && later % 3 == 2 && i <= first <= i + 2 && i <= later
    ensures first <= later && (later - first) % 3 == 0
  {}

  /** From the first posting date on, the run comes to every period end. */
  lemma FirstDateAhead(period: Period, spans: seq<Span>, start: Date, d: Date)
    requires period != Yearly && start.Valid() && |spans| > 0 && spans[0].Valid()
    requires d.Valid() && EndsPeriod(period, d) && start.Ord() <= d.Ord()
    ensures Ahead(period, FirstDate(period, spans, start), d)
  {
    hide Date.Ord, QuarterEnd;
    LaterMonth(d, start);
    if period == Quarterly {
      QuarterEndOf(start);
      QuarterIndex(d);
      QuarterIndex(QuarterEnd(start));
      QuartersApart(MonthIndex(start), MonthIndex(QuarterEnd(start)), MonthIndex(d));
    }
  }

  /** Every fiscal year that ends before the stop date ends on a posting date, if the first
      ends with a month (or quarter) and the asset starts in it. */
  lemma FrameStopsPosted(a: Asset, fys: seq<FiscalYear>)
    requires a.Valid() && ValidYears(fys) && (a.number > 0 || a.time == End) && a.period != Yearly
    requires FrameOf(a, fys).Ok? && FirstYearFits(a, FrameOf(a, fys).value)
    ensures StopsPosted(FrameOf(a, fys).value)
  {
    hide Date.Ord, Spans, FirstYear, StartDate, StopDate, FirstDate, EndsPeriod, DateRun, LeavesOut, Ahead;
    var f := FrameOf(a, fys).value;
    var first := FirstYear(a, fys).value;
    var start := StartDate(a, first);
    StopAfterStart(a, first);
    SpansTile(fys, a.period, f.stop, first);
    SpansEndPeriods(fys, a.period, f.stop, first);
    LineDatesReach(a, f.spans, start, f.stop);
    forall k | 0 <= k < |f.spans| && f.spans[k].Valid() && f.spans[k].stop.Ord() < f.stop
      ensures f.spans[k].stop.Ord() in f.dates
    {
      FirstDateAhead(a.period, f.spans, start, f.spans[k].stop);
      RunMeets(a.period, f.spans, f.stop, FirstDate(a.period, f.spans, start), 1, f.spans[k].stop);
      var run := DateRun(a.period, f.spans, f.stop, FirstDate(a.period, f.spans, start), 1);
      BodyPosted(a, f.spans, start, f.stop, f.spans[k].stop.Ord());
    }
  }

  lemma BodyPosted(a: Asset, spans: seq<Span>, start: Date, stop: int, day: int)
    requires start.Valid() && Tiles(spans, stop) && |spans| > 0
    requires var run := DateRun(a.period, spans, stop, FirstDate(a.period, spans, start), 1); day in run[..|run| - 1]
    ensures day in LineDates(a, spans, start, stop)
  {
    hide Date.Ord, DateRun, FirstDate;
  }

  /** The asset starts in its first fiscal year, which ends with a month other than
      February, and for quarterly posting with a quarter. */
  ghost predicate FirstYearFits(a: Asset, f: Frame) {
    && f.spans != [] && f.spans[0].Valid()
    && EndsPeriod(a.period, f.spans[0].stop) && f.start <= f.spans[0].stop.Ord()
  }

  /** With yearly posting every fiscal year that ends before the stop date ends on a posting
      date. */
  lemma YearlyStopsPosted(a: Asset, fys: seq<FiscalYear>)
    requires a.Valid() && ValidYears(fys) && (a.number > 0 || a.time == End) && a.period == Yearly
    requires FrameOf(a, fys).Ok?
    ensures StopsPosted(FrameOf(a, fys).value)
  {
    hide Date.Ord, Spans, FirstYear, StartDate, StopDate, LeavesOut;
    var f := FrameOf(a, fys).value;
    var first := FirstYear(a, fys).value;
    var start := StartDate(a, first);
    StopAfterStart(a, first);
    SpansTile(fys, a.period, f.stop, first);
    YearlyRun(f.spans, f.stop, 1);
    RunReaches(Yearly, f.spans, f.stop, f.spans[0].stop, 1);
    var run := DateRun(Yearly, f.spans, f.stop, f.spans[0].stop, 1);
    forall k | 0 <= k < |f.spans| && f.spans[k].Valid() && f.spans[k].stop.Ord() < f.stop
      ensures f.spans[k].stop.Ord() in f.dates
    {
      assert run[k - 0] == f.spans[k].stop.Ord() && k < |run| - 1;
      assert run[..|run| - 1][k] == run[k];
      BodyPosted(a, f.spans, start, f.stop, run[k]);
    }
  }

  /* ---- fiscal years hold posting dates ---- */

  /** Every fiscal year after the first is a calendar year long. */
  ghost predicate ByYear(spans: seq<Span>) {
    && (forall k :: 0 <= k < |spans| ==> spans[k].Valid())
    && forall k :: 0 < k < |spans| ==> spans[k].stop == AddYears(spans[k - 1].stop, 1)
  }

  lemma {:induction false} SpansByYear(fys: seq<FiscalYear>, period: Period, stop: int, cur: Span)
    requires ValidYears(fys) && cur.Valid() && period != Yearly
    ensures ByYear(Spans(fys, period, stop, cur))
    decreases stop - cur.start.Ord() + 1
  {
    hide Date.Ord, AddYears;
    if cur.start.Ord() <= stop {
      var next := Following(fys, period, cur);
      SpansByYear(fys, period, stop, next);
      SpansTile(fys, period, stop, next);
      var rest, spans := Spans(fys, period, stop, next), Spans(fys, period, stop, cur);
      assert spans == [cur] + rest;
      assert forall k :: 0 < k < |spans| ==> spans[k] == rest[k - 1];
    }
  }

  /** From a posting date in a year, the next is at the latest in the year after. */
  lemma NextWithin(period: Period, spans: seq<Span>, stop: int, line: Date, i: nat, yearStop: Date)
    requires AtYear(period, spans, stop, line, i) && line.Ord() < stop && period != Yearly
    requires yearStop.Valid() && line.Ord() <= yearStop.Ord()
    ensures NextDate(period, spans, stop, line, i).Ord() <= AddYears(yearStop, 1).Ord()
  {
    hide Date.Ord, MonthEnd;
    LaterMonth(yearStop, line);
    LaterMonth(NextDate(period, spans, stop, line, i), AddYears(yearStop, 1));
  }

  /** The run of dates visits every later year that ends before the stop date. */
  lemma {:induction false} RunVisits(period: Period, spans: seq<Span>, stop: int, line: Date, i: nat, k: nat, j: nat)
    returns (p: nat)
    requires AtYear(period, spans, stop, line, i) && period != Yearly && ByYear(spans) && k <= j < |spans|
    requires spans[k].start.Ord() <= line.Ord() <= spans[k].stop.Ord() && spans[j].stop.Ord() < stop
    ensures var run := DateRun(period, spans, stop, line, i);
      p < |run| - 1 && spans[j].start.Ord() <= run[p] <= spans[j].stop.Ord()
    decreases stop - line.Ord()
  {
    hide Date.Ord, AddYears, NextDate;
    if k < j {
      SpansOrdered(spans, stop, k, j);
    }
    var run := DateRun(period, spans, stop, line, i);
    if k == j {
      p := 0;
    } else {
      var next := NextDate(period, spans, stop, line, i);
      NextWithin(period, spans, stop, line, i, spans[k].stop);
      var q: nat;
      if next.Ord() <= spans[k].stop.Ord() {
        q := RunVisits(period, spans, stop, next, i + 1, k, j);
      } else {
        q := RunVisits(period, spans, stop, next, i + 1, k + 1, j);
      }
      assert run == [line.Ord()] + DateRun(period, spans, stop, next, i + 1);
      p := q + 1;
    }
  }

  /** Every fiscal year that ends before the stop date holds a posting date, if the first
      posting date lies in the first fiscal year. */
  lemma FrameYearsPosted(a: Asset, fys: seq<FiscalYear>)
    requires a.Valid() && ValidYears(fys) && (a.number > 0 || a.time == End) && FrameOf(a, fys).Ok?
    requires var f := FrameOf(a, fys).value; |f.spans| > 0 && f.spans[0].Valid() && f.dates[0] <= f.spans[0].stop.Ord()
    ensures YearsPosted(FrameOf(a, fys).value)
  {
    hide Date.Ord, Spans, FirstYear, StartDate, StopDate, FirstDate, DateRun, LeavesOut, LineDates;
    var f := FrameOf(a, fys).value;
    var first := FirstYear(a, fys).value;
    var start := StartDate(a, first);
    StopAfterStart(a, first);
    SpansTile(fys, a.period, f.stop, first);
    if a.period == Yearly {
      YearlyStopsPosted(a, fys);
      StopsHold(f);
    } else {
      SpansByYear(fys, a.period, f.stop, first);
      FirstDateInYear(a, first);
      FirstLineDate(a, f.spans, start, f.stop);
      FirstDateOf(a.period, f.spans, start);
      forall k | 0 <= k < |f.spans| && f.spans[k].Valid() && f.spans[k].stop.Ord() < f.stop
        ensures HoldsDate(f.dates, f.spans[k].start.Ord(), f.spans[k].stop.Ord())
      {
        if k > 0 {
          SpansOrdered(f.spans, f.stop, 0, k);
        }
        var line := FirstDate(a.period, f.spans, start);
        var p := RunVisits(a.period, f.spans, f.stop, line, 1, 0, k);
        var run := DateRun(a.period, f.spans, f.stop, line, 1);
        assert run[..|run| - 1][p] == run[p];
        BodyPosted(a, f.spans, start, f.stop, run[p]);
        DateHeld(f.dates, run[p], f.spans[k].start.Ord(), f.spans[k].stop.Ord());
      }
    }
  }

  lemma DateHeld(dates: seq<int>, day: int, yearStart: int, yearStop: int)
    requires day in dates && yearStart <= day <= yearStop
    ensures HoldsDate(dates, yearStart, yearStop)
  {}

  lemma StopsHold(f: Frame)
    requires StopsPosted(f)
    ensures YearsPosted(f)
  {
    hide Date.Ord;
    forall k | 0 <= k < |f.spans| && f.spans[k].Valid() && f.spans[k].stop.Ord() < f.stop
      ensures HoldsDate(f.dates, f.spans[k].start.Ord(), f.spans[k].stop.Ord())
    {
      DateHeld(f.dates, f.spans[k].stop.Ord(), f.spans[k].start.Ord(), f.spans[k].stop.Ord());
    }
  }

  /* ---- end to end ---- */

  /** The first posting date lies in the first fiscal year, or the table is one year with
      one date. */
  predicate StartsPosted(a: Asset, f: Frame)
    requires a.Valid() && Framed(a, f) && (a.number > 0 || a.time == End)
  {
    f.dates[0] <= f.spans[0].stop.Ord() || (|f.dates| == 1 && |RowsOf(a, f)| == 1)
  }

  /** A first year without a posting date gets no line. */
  lemma NoFirstDate(a: Asset, f: Frame)
    requires a.Valid() && Framed(a, f) && (a.number > 0 || a.time == End) && !StartsPosted(a, f)
    ensures Computed(a, f) ==> TableOn(a, f).value == []
  {
    hide RowsOf, Date.Ord;
    RowsOfTile(a, f);
    var y := YearAt(a, RowsOf(a, f), 0, f.stop);
    assert Breaks(y, f.dates, 0, Start(y, f.start, a.base, 0));
  }

  lemma OneRow(a: Asset, rows: seq<Row>, start: int, stop: int, dates: seq<int>)
    requires |rows| == 1 && |dates| > 0
    ensures var r := Spread(a, rows, 0, start, stop, dates, a.base, 0);
      var settled := SpreadOne(YearAt(a, rows, 0, stop), dates, start, a.base, 0).0;
      && (r.Ok? ==> |r.value| <= 1)
      && (settled.Ok? && settled.value.lines != [] ==> r.Ok? && r.value != [])
  {
    hide SpreadOne;
    var (settled, li) := SpreadOne(YearAt(a, rows, 0, stop), dates, start, a.base, 0);
    if settled.Ok? {
      assert Spread(a, rows, 1, start, stop, dates[li..], settled.value.remaining, settled.value.depreciated) == Ok([]);
    }
  }

  /** The one date of a single year always gets a line. */
  lemma OnlyDate(a: Asset, f: Frame)
    requires YearsAsset(a) && Framed(a, f) && |f.dates| == 1 && |RowsOf(a, f)| == 1
    ensures Computed(a, f) && TableOn(a, f).value != [] && AllLast(a, f)
  {
    hide RowsOf, SpreadOne, Date.Ord;
    RowsOfTile(a, f);
    DegressiveLinearTakes(a, f);
    PeriodicYear(YearAt(a, RowsOf(a, f), 0, f.stop), f.dates, f.start, a.base, 0);
    OneRow(a, RowsOf(a, f), f.start, f.stop, f.dates);
  }

  /** End to end, for an asset depreciated over a number of years, with any period and any
      fiscal years: a table is computed exactly if the first posting date lies in the first
      fiscal year.  Then it conserves; if its years last through their dates, each starts in
      itself; and if the first fiscal year fits the period, exactly then does each end on a
      posting date. */
  lemma YearsTable(a: Asset, fys: seq<FiscalYear>)
    requires YearsAsset(a) && ValidYears(fys) && FrameOf(a, fys).Ok?
    ensures Framed(a, FrameOf(a, fys).value)
    ensures Table(a, fys).Ok? && Table(a, fys).value != [] <==> StartsPosted(a, FrameOf(a, fys).value)
    ensures var f := FrameOf(a, fys).value;
      StartsPosted(a, f) ==>
        && Computed(a, f) && Table(a, fys).value == TableOn(a, f).value
        && var table := TableOn(a, f).value;
        && YearsAddUp(table)
        && (SumLines(Flatten(table)) == a.Depreciable() <==> KeepsSalvage(a, RowsOf(a, f), f.spans))
        && (AllLast(a, f) ==> InYears(table))
        && (a.period != Yearly && FirstYearFits(a, f) ==> (YearsEndOnPosting(table) <==> AllLast(a, f)))
  {
    hide FrameOf, TableOn, RowsOf, YearsAddUp, Flatten, SumLines, KeepsSalvage, Lasts, YearsEndOnPosting, InYears,
      StartOwn, Date.Ord, FirstYearFits;
    var f := FrameOf(a, fys).value;
    FrameOfFramed(a, fys);
    if !StartsPosted(a, f) {
      NoFirstDate(a, f);
    } else {
      StartedTable(a, fys);
      TableConserves(a, f);
    }
  }

  lemma StartedTable(a: Asset, fys: seq<FiscalYear>)
    requires YearsAsset(a) && ValidYears(fys) && FrameOf(a, fys).Ok? && Framed(a, FrameOf(a, fys).value)
    requires StartsPosted(a, FrameOf(a, fys).value)
    ensures var f := FrameOf(a, fys).value;
      && Computed(a, f) && TableOn(a, f).value != []
      && (AllLast(a, f) ==> InYears(TableOn(a, f).value))
      && (a.period != Yearly && FirstYearFits(a, f) ==> (YearsEndOnPosting(TableOn(a, f).value) <==> AllLast(a, f)))
  {
    hide FrameOf, TableOn, RowsOf, Lasts, YearsEndOnPosting, InYears, StartOwn, Date.Ord, FirstYearFits;
    var f := FrameOf(a, fys).value;
    if f.dates[0] <= f.spans[0].stop.Ord() {
      FrameYearsPosted(a, fys);
      PeriodicTable(a, f);
      if AllLast(a, f) {
        LastingInYears(a, f);
      }
      if a.period != Yearly && FirstYearFits(a, f) {
        FrameStopsPosted(a, fys);
      }
    } else {
      OnlyDate(a, f);
      OneYear(a, f);
    }
  }

  /** A table of one year starts and ends as it should. */
  lemma OneYear(a: Asset, f: Frame)
    requires Computed(a, f) && |RowsOf(a, f)| == 1
    ensures InYears(TableOn(a, f).value) && YearsEndOnPosting(TableOn(a, f).value)
  {
    hide RowsOf, Spread;
    OneRow(a, RowsOf(a, f), f.start, f.stop, f.dates);
  }

  /** End to end: build the schedule of such an asset, post its first `k` lines and rebuild.
      If its years last through their dates, exactly the lines that were not posted come
      back, with the exceptions that any table has. */
  lemma YearsAssetIsStable(a: Asset, fys: seq<FiscalYear>, k: nat)
    requires YearsAsset(a) && ValidYears(fys) && Table(a, fys).Ok?
    requires 0 < k <= |Rebuild(a, Table(a, fys).value, Posted(0, 0, 0)).value|
    ensures Table(a, fys).value != [] && FrameOf(a, fys).Ok? && Framed(a, FrameOf(a, fys).value)
    ensures AllLast(a, FrameOf(a, fys).value) ==>
      var table := Table(a, fys).value; var all := Rebuild(a, table, Posted(0, 0, 0)).value;
      && InPlace(table, all[k - 1].date)
      && Rebuild(a, table, Posted(k, all[k - 1].date, SumNew(all[..k]))) == AfterPosting(a, table, all, k)
  {
    hide FrameOf, Table, RowsOf, SumNew, Lasts, AfterPosting, YearsEndOnPosting, InYears, InPlace, TableOn,
      StartsPosted;
    assert Table(a, fys).value != [];
    hide Rebuild;
    TableOfFrame(a, fys);
    YearsTable(a, fys);
    var f := FrameOf(a, fys).value;
    if AllLast(a, f) {
      InYearsIsStable(a, f, k);
    }
  }
}
