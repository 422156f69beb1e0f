/** Tables whose years are never settled: assets depreciated by a number of entries, up to
    an ending date, or by days.  Once nothing is left, such a table gets no more lines. */
module AssetCounted {
  import opened Rounding
  import opened Calendar
  import opened Outcome
  import opened AssetTypes
  import opened AssetDates
  import opened AssetAmounts
  import opened AssetLines
  import opened AssetBoard
  import opened BoardStability
  import opened AssetTiling
  import opened AssetTable
  import opened AssetTheorems
  import opened AssetPeriodic
  import opened AssetMonthEnds

  /* ---- years that are never settled ---- */

  /** Such a year ends on a posting date, if its last day is one. */
  lemma EndsIfPosted(e: Entry, dates: seq<int>, li: nat)
    requires TakesFirst(e, dates, li, false) && Increasing(dates) && e.row.stop in dates
    requires e.row.stop < dates[li] || |e.lines| == |dates|
    ensures EndsOnPosting(e)
  {
    var p :| 0 <= p < |dates| && dates[p] == e.row.stop;
    if |e.lines| < |dates| {
      LaterDate(dates, p, |e.lines|);
    }
    SameDate(dates, p, |e.lines| - 1);
  }

  lemma NotBeyond(dates: seq<int>, day: int)
    requires Increasing(dates) && dates != [] && dates[|dates| - 1] < day
    ensures day !in dates
  {
    forall k | 0 <= k < |dates|
      ensures dates[k] < day
    {
      assert k < |dates| - 1 ==> dates[k] < dates[|dates| - 1];
    }
  }

  lemma StopsLeft(rows: seq<Row>, i: nat, dates: seq<int>, e: Entry, li: nat, stop: int)
    requires i < |rows| && RowsTile(rows, stop) && Increasing(dates) && StopsAmong(rows, i, dates, stop)
    requires TakesFirst(e, dates, li, false) && EndsOnPosting(e) && e.row.stop == rows[i].stop
    ensures StopsAmong(rows, i + 1, dates[li..], stop)
  {
    var n := |e.lines|;
    if li == n {
      StopsLater(rows, i, dates, li, stop);
    } else {
      forall k | i + 1 <= k < |rows|
        ensures rows[k].stop >= stop
      {
        StopsGrow(rows, stop, i, k - 1);
        var day := rows[k].stop;
        NotBeyond(dates, day);
        assert day < stop ==> day in dates;
      }
    }
  }

  lemma {:induction false} UnsettledEnds(a: Asset, rows: seq<Row>, i: nat, start: int, stop: int, dates: seq<int>,
                                         remaining: int, depreciated: int)
    requires i <= |rows| && RowsTile(rows, stop) && |dates| > 0 && Increasing(dates) && NeverSettled(a, rows)
    requires StopsAmong(rows, i, dates, stop)
    requires Spread(a, rows, i, start, stop, dates, remaining, depreciated).Ok?
    ensures YearsEndOnPosting(Spread(a, rows, i, start, stop, dates, remaining, depreciated).value)
    decreases |rows| - i
  {
    hide SpreadOne, StopsAmong, NeverSettled, Increasing, RowsTile, TakesFirst, EndsOnPosting;
    var table := Spread(a, rows, i, start, stop, dates, remaining, depreciated).value;
    if |table| > 1 {
      SpreadNext(a, rows, i, start, stop, dates, remaining, depreciated);
      UnsettledHandsOn(a, rows, i, start, stop, dates, remaining, depreciated);
      YearTakes(a, rows, i, start, stop, dates, remaining, depreciated);
      var (settled, li) := SpreadOne(YearAt(a, rows, i, stop), dates, start, remaining, depreciated);
      var run := settled.value;
      var e := Finish(rows[i], run.lines);
      NotLastStops(rows, stop, i);
      assert rows[i].stop in dates by { StopAmong(rows, i, dates, stop); }
      EndsIfPosted(e, dates, li);
      StopsLeft(rows, i, dates, e, li, stop);
      IncreasingFrom(dates, li);
      UnsettledEnds(a, rows, i + 1, start, stop, dates[li..], run.remaining, run.depreciated);
      var rest := Spread(a, rows, i + 1, start, stop, dates[li..], run.remaining, run.depreciated).value;
      EndsConsBoth(e, rest);
    }
  }

  lemma StopAmong(rows: seq<Row>, i: nat, dates: seq<int>, stop: int)
    requires i < |rows| && StopsAmong(rows, i, dates, stop) && rows[i].stop < stop
    ensures rows[i].stop in dates
  {}

  /** By entries or by days, over fiscal years that end on posting dates: so do those of the
      table. */
  lemma UnsettledYearsEnd(a: Asset, f: Frame)
    requires Computed(a, f) && NeverSettled(a, RowsOf(a, f)) && StopsPosted(f)
    ensures YearsEndOnPosting(TableOn(a, f).value)
  {
    hide Spread, RowsOf, NeverSettled, StopsPosted, YearsEndOnPosting;
    RowsOfTile(a, f);
    RowsPosted(a, f);
    UnsettledEnds(a, RowsOf(a, f), 0, f.start, f.stop, f.dates, a.base, 0);
  }

  /** The rows of an asset depreciated by entries or by days. */
  ghost predicate EntriesOrDays(a: Asset, f: Frame) {
    && a.Valid() && a.way != DegressiveLinear
    && (a.time == Years ==> DayAmount(a, f.stop - f.start + 1) != 0)
  }

  lemma EntriesOrDaysUnsettled(a: Asset, f: Frame)
    requires EntriesOrDays(a, f) && Framed(a, f) && (a.number > 0 || a.time == End)
    ensures NeverSettled(a, RowsOf(a, f))
  {
    hide RowsOf, Date.Ord;
    RowsOfTile(a, f);
  }

  /** End to end, over any fiscal years: build the schedule of an asset depreciated by a
      number of entries, up to an ending date, or by days, post its first `k` lines and
      rebuild.  Exactly the lines that were not posted come back, with the exceptions that
      any table has. */
  lemma UnsettledAssetIsStable(a: Asset, fys: seq<FiscalYear>, k: nat)
    requires a.Valid() && ValidYears(fys) && Table(a, fys).Ok?
    requires 0 < k <= |Rebuild(a, Table(a, fys).value, Posted(0, 0, 0)).value|
    requires FrameOf(a, fys).Ok? && EntriesOrDays(a, FrameOf(a, fys).value)
    ensures Table(a, fys).value != []
    ensures var table := Table(a, fys).value; var all := Rebuild(a, table, Posted(0, 0, 0)).value;
      && InPlace(table, all[k - 1].date)
      && Rebuild(a, table, Posted(k, all[k - 1].date, SumNew(all[..k]))) == AfterPosting(a, table, all, k)
  {
    hide FrameOf, Table, RowsOf, SumNew, AfterPosting, InYears, InPlace, TableOn, NeverSettled, EntriesOrDays;
    assert Table(a, fys).value != [];
    hide Rebuild;
    TableOfFrame(a, fys);
    var f := FrameOf(a, fys).value;
    EntriesOrDaysUnsettled(a, f);
    UnsettledTableInYears(a, f);
    InYearsIsStable(a, f, k);
  }

  /* ---- equal entries: when there is a table ---- */

  /** After `j` more lines of the amount something is left. */
  predicate Left(remaining: int, amount: int, j: nat) {
    remaining - j * amount != 0
  }

  ghost predicate LeftUpTo(remaining: int, amount: int, n: int) {
    forall j: nat :: j < n ==> Left(remaining, amount, j)
  }

  lemma LeftSplit(remaining: int, amount: int, n: nat, m: int)
    requires m >= 0
    ensures LeftUpTo(remaining, amount, n + m)
      <==> LeftUpTo(remaining, amount, n) && LeftUpTo(remaining - n * amount, amount, m)
  {
    var rest := remaining - n * amount;
    forall j: nat
      ensures Left(rest, amount, j) == Left(remaining, amount, n + j)
    {
      assert (n + j) * amount == n * amount + j * amount;
    }
    if LeftUpTo(remaining, amount, n) && LeftUpTo(rest, amount, m) {
      forall j: nat | j < n + m
        ensures Left(remaining, amount, j)
      {
        if j >= n {
          assert Left(rest, amount, j - n);
        }
      }
    }
  }

  /** A year of equal entries that is not the last. */
  ghost predicate CountedYear(y: Year, dates: seq<int>) {
    && !y.last && y.a.Valid() && y.a.time != Years && y.row.dayAmount == 0 && y.row.stop < y.stop
    && Increasing(dates) && dates != []
  }

  /** It takes one line per date, or uses up everything before. */
  lemma {:induction false} CountedWalk(y: Year, dates: seq<int>, li: nat, run: Run)
    requires CountedYear(y, dates) && li <= CountUpTo(dates, y.row.stop) && li < |dates| && |run.lines| == li
    ensures var n := CountUpTo(dates, y.row.stop);
      var (r, end) := Walk(y, dates, li, run);
      if LeftUpTo(run.remaining, y.row.periodAmount, n - li) then
        && |r.lines| == n && end == (if n < |dates| then n else n - 1)
        && r.remaining == run.remaining - (n - li) * y.row.periodAmount
      else r.remaining == 0
    decreases |dates| - li
  {
    CountIncreasing(dates, y.row.stop);
    var n, p := CountUpTo(dates, y.row.stop), y.row.periodAmount;
    if li < n {
      assert Left(run.remaining, p, 0) <==> run.remaining != 0;
      if run.remaining != 0 {
        var next := AddLine(y, dates, li, run);
        assert next.remaining == run.remaining - 1 * p;
        assert (n - li) * p == p + (n - li - 1) * p;
        LeftSplit(run.remaining, p, 1, n - li - 1);
        if li < |dates| - 1 {
          CountedWalk(y, dates, li + 1, next);
        }
      }
    }
  }

  lemma CountedOne(y: Year, dates: seq<int>, start: int, remaining: int, depreciated: int)
    requires CountedYear(y, dates) && dates[0] <= y.row.stop
    ensures var n := CountUpTo(dates, y.row.stop);
      var (settled, li) := SpreadOne(y, dates, start, remaining, depreciated);
      && settled.Ok? && 0 < n
      && (settled.value.lines == [] <==> remaining == 0)
      && if LeftUpTo(remaining, y.row.periodAmount, n) then
           && li == (if n < |dates| then n else n - 1)
           && settled.value.remaining == remaining - n * y.row.periodAmount
         else settled.value.remaining == 0
  {
    hide LeftUpTo, CountUpTo, Walk, Increasing;
    FirstCounted(dates, y.row.stop);
    var first := Start(y, start, remaining, depreciated);
    CountedWalk(y, dates, 0, first);
    CountedFirst(y, dates, first);
  }

  lemma FirstCounted(dates: seq<int>, yearStop: int)
    requires Increasing(dates) && dates != [] && dates[0] <= yearStop
    ensures CountUpTo(dates, yearStop) > 0
  {
    CountIncreasing(dates, yearStop);
  }

  /** It gets a line exactly if something is left. */
  lemma CountedFirst(y: Year, dates: seq<int>, run: Run)
    requires CountedYear(y, dates) && dates[0] <= y.row.stop && run.lines == []
    ensures Walk(y, dates, 0, run).0.lines == [] <==> run.remaining == 0
  {
    hide LineAmount, Increasing;
    assert Breaks(y, dates, 0, run) <==> run.remaining == 0;
    if run.remaining != 0 && |dates| > 1 {
      var next := AddLine(y, dates, 0, run);
      assert |next.lines| == 1;
      hide AddLine;
      WalkGrows(y, dates, 1, next);
    }
  }

  ghost predicate CountedRows(a: Asset, rows: seq<Row>, amount: int, stop: int) {
    && a.Valid() && a.time != Years && RowsTile(rows, stop)
    && forall k :: 0 <= k < |rows| ==> rows[k].dayAmount == 0 && rows[k].periodAmount == amount
  }

  /** How many of the dates left for year `i` come before the last year but one. */
  function BeforeLastTwo(rows: seq<Row>, i: nat, dates: seq<int>): nat {
    if i + 2 < |rows| then CountUpTo(dates, rows[|rows| - 3].stop) else 0
  }

  lemma BeforeLastTwoLater(rows: seq<Row>, i: nat, dates: seq<int>, li: nat, stop: int)
    requires RowsTile(rows, stop) && i + 2 < |rows| && Increasing(dates)
    requires li == CountUpTo(dates, rows[i].stop) < |dates|
    ensures BeforeLastTwo(rows, i, dates) == li + BeforeLastTwo(rows, i + 1, dates[li..])
  {
    hide CountUpTo, Increasing, RowsTile;
    StopsGrow(rows, stop, i, |rows| - 3);
    if i + 3 < |rows| {
      CountLeft(dates, dates[li..], rows[i].stop, rows[|rows| - 3].stop);
    }
  }

  /** The last year never fails. */
  lemma LastYearOk(a: Asset, rows: seq<Row>, start: int, stop: int, dates: seq<int>, remaining: int, depreciated: int,
      amount: int)
    requires CountedRows(a, rows, amount, stop) && rows != [] && dates != []
    ensures Spread(a, rows, |rows| - 1, start, stop, dates, remaining, depreciated).Ok?
  {
    hide Walk;
    var y := YearAt(a, rows, |rows| - 1, stop);
    var (settled, li) := SpreadOne(y, dates, start, remaining, depreciated);
    var run := settled.value;
    assert Spread(a, rows, |rows|, start, stop, dates[li..], run.remaining, run.depreciated) == Ok([]);
  }

  /** The dates the next year gets, if it is not the last. */
  lemma NextHolds(rows: seq<Row>, i: nat, dates: seq<int>, stop: int)
    requires RowsTile(rows, stop) && i + 2 < |rows| && Increasing(dates) && YearsHold(rows, i, dates, stop)
    requires dates != [] && dates[0] <= rows[i].stop
    ensures var n := CountUpTo(dates, rows[i].stop);
      && 0 < n < |dates| && YearsHold(rows, i + 1, dates[n..], stop) && Increasing(dates[n..])
      && dates[n] <= rows[i + 1].stop
  {
    hide YearsHold, RowsTile;
    CountIncreasing(dates, rows[i].stop);
    HeldLater(rows, i, dates, stop);
    var n := CountUpTo(dates, rows[i].stop);
    HoldLater(rows, i, dates, n, stop);
    FirstLeft(rows, i + 1, dates[n..], stop);
  }

  lemma HeldLater(rows: seq<Row>, i: nat, dates: seq<int>, stop: int)
    requires RowsTile(rows, stop) && i + 2 < |rows| && Increasing(dates) && YearsHold(rows, i, dates, stop)
    ensures exists p :: 0 <= p < |dates| && rows[i].stop < dates[p]
  {
    NotLastStops(rows, stop, i + 1);
    var p :| 0 <= p < |dates| && rows[i + 1].start <= dates[p] <= rows[i + 1].stop;
  }

  /** The table is computed exactly if something is left at the start of every year but the
      last. */
  lemma {:induction false} CountedSpread(a: Asset, rows: seq<Row>, i: nat, start: int, stop: int, dates: seq<int>,
                                         remaining: int, depreciated: int, amount: int)
    requires CountedRows(a, rows, amount, stop) && i < |rows| && Increasing(dates) && dates != []
    requires i < |rows| - 1 ==> YearsHold(rows, i, dates, stop) && dates[0] <= rows[i].stop
    ensures Spread(a, rows, i, start, stop, dates, remaining, depreciated).Ok?
      <==> i == |rows| - 1 || LeftUpTo(remaining, amount, BeforeLastTwo(rows, i, dates) + 1)
    decreases |rows| - i
  {
    hide SpreadOne, LeftUpTo, CountUpTo, YearsHold, Increasing;
    if i == |rows| - 1 {
      LastYearOk(a, rows, start, stop, dates, remaining, depreciated, amount);
    } else {
      var y, n := YearAt(a, rows, i, stop), CountUpTo(dates, rows[i].stop);
      NotLastStops(rows, stop, i);
      CountedOne(y, dates, start, remaining, depreciated);
      var (settled, li) := SpreadOne(y, dates, start, remaining, depreciated);
      var run := settled.value;
      LeftFirst(remaining, amount, BeforeLastTwo(rows, i, dates) + 1);
      if i == |rows| - 2 {
        LastYearOk(a, rows, start, stop, dates[li..], run.remaining, run.depreciated, amount);
        LeftOne(remaining, amount);
      } else {
        NextHolds(rows, i, dates, stop);
        BeforeLastTwoLater(rows, i, dates, n, stop);
        LeftSplit(remaining, amount, n, BeforeLastTwo(rows, i + 1, dates[n..]) + 1);
        if LeftUpTo(remaining, amount, n) {
          CountedSpread(a, rows, i + 1, start, stop, dates[li..], run.remaining, run.depreciated, amount);
        } else {
          NothingLeftNothingMore(a, rows, i + 1, start, stop, dates[li..], run.depreciated);
        }
      }
    }
  }

  lemma LeftFirst(remaining: int, amount: int, n: nat)
    requires n > 0
    ensures LeftUpTo(remaining, amount, n) ==> remaining != 0
  {
    assert Left(remaining, amount, 0) <==> remaining != 0;
  }

  lemma LeftOne(remaining: int, amount: int)
    ensures LeftUpTo(remaining, amount, 1) <==> remaining != 0
  {
    assert Left(remaining, amount, 0) <==> remaining != 0;
  }

  /** An asset depreciated by a number of entries or up to an ending date, not by days. */
  ghost predicate CountedAsset(a: Asset) {
    a.Valid() && a.time != Years && (a.number > 0 || a.time == End) && !a.daysCalc
  }

  /** The rounded amount of an entry. */
  function EntryAmount(a: Asset, dates: nat): int
    requires a.number > 0 || a.time == End
    requires dates > 0
  {
    Round(a.base as real / (if a.time == Number then a.number else dates) as real)
  }

  lemma {:induction false} RowsCounted(a: Asset, spans: seq<Span>, i: nat, residual: int, dates: nat)
    requires CountedAsset(a) && (forall k :: 0 <= k < |spans| ==> spans[k].Valid()) && dates > 0 && i <= |spans|
    ensures var rows := Rows(a, spans, i, residual, dates, 0);
      |rows| == |spans| - i && forall k :: 0 <= k < |rows| ==>
        rows[k].periodAmount == EntryAmount(a, dates) && rows[k].fyAmount == 0
    decreases |spans| - i
  {
    hide Date.Ord, FyAmount, DurationFactor;
    if i < |spans| {
      RowsCounted(a, spans, i + 1, residual, dates);
      var rows, rest := Rows(a, spans, i, residual, dates, 0), Rows(a, spans, i + 1, residual, dates, 0);
      assert rows == [rows[0]] + rest;
    }
  }

  /** Something is left at the start of the last fiscal year but one: after none of the
      entries before it is everything used up. */
  ghost predicate LeftBeforeLast(a: Asset, f: Frame)
    requires a.Valid() && Framed(a, f) && (a.number > 0 || a.time == End)
  {
    LeftUpTo(a.base, EntryAmount(a, |f.dates|), BeforeLastTwo(RowsOf(a, f), 0, f.dates) + 1)
  }

  /** When every fiscal year holds a posting date, the table is computed exactly if something
      is left at the start of the last fiscal year but one. */
  lemma CountedTable(a: Asset, f: Frame)
    requires CountedAsset(a) && Framed(a, f) && YearsPosted(f)
    requires |f.spans| > 1 ==> f.dates[0] <= f.spans[0].stop.Ord()
    ensures Computed(a, f) <==> |f.spans| == 1 || LeftBeforeLast(a, f)
    ensures Computed(a, f) && StopsPosted(f) ==> YearsEndOnPosting(TableOn(a, f).value)
  {
    hide Spread, Rows, Date.Ord, YearsEndOnPosting, LeftUpTo, EntryAmount, StopsPosted, YearsPosted;
    var rows := RowsOf(a, f);
    RowsOfTile(a, f);
    FramedSpans(a, f);
    RowsCounted(a, f.spans, 0, a.base, |f.dates|);
    RowsPosted(a, f);
    CountedSpread(a, rows, 0, f.start, f.stop, f.dates, a.base, 0, EntryAmount(a, |f.dates|));
    if Computed(a, f) && StopsPosted(f) {
      UnsettledYearsEnd(a, f);
    }
  }

  /** End to end, from an asset depreciated by equal entries and any fiscal years: a table is
      computed exactly if there is one fiscal year, or the first posting date lies in the
      first and something is left at the start of the last but one. */
  lemma CountedAssetTable(a: Asset, fys: seq<FiscalYear>)
    requires CountedAsset(a) && ValidYears(fys) && FrameOf(a, fys).Ok?
    ensures Framed(a, FrameOf(a, fys).value)
    ensures var f := FrameOf(a, fys).value;
      Table(a, fys).Ok? <==> |f.spans| == 1 || (f.dates[0] <= f.spans[0].stop.Ord() && LeftBeforeLast(a, f))
  {
    hide FrameOf, TableOn, RowsOf, Date.Ord, LeftBeforeLast, YearsPosted, StopsPosted;
    var f := FrameOf(a, fys).value;
    FrameOfFramed(a, fys);
    FramedSpans(a, f);
    RowsOfTile(a, f);
    RowPerSpan(a, f);
    if |f.spans| == 1 {
      OneSpanPosted(f);
      CountedTable(a, f);
    } else if f.dates[0] <= f.spans[0].stop.Ord() {
      FrameYearsPosted(a, fys);
      CountedTable(a, f);
    } else {
      NoFirstDateFails(a, f);
    }
  }

  lemma RowPerSpan(a: Asset, f: Frame)
    requires CountedAsset(a) && Framed(a, f)
    ensures |RowsOf(a, f)| == |f.spans|
  {
    hide Rows, Date.Ord;
    FramedSpans(a, f);
    RowsCounted(a, f.spans, 0, a.base, |f.dates|);
  }

  lemma OneSpanPosted(f: Frame)
    requires Tiles(f.spans, f.stop) && |f.spans| == 1
    ensures YearsPosted(f)
  {
    hide Date.Ord;
  }

  lemma NoFirstDateFails(a: Asset, f: Frame)
    requires a.Valid() && Framed(a, f) && (a.number > 0 || a.time == End)
    requires |RowsOf(a, f)| > 1 && f.dates[0] > f.spans[0].stop.Ord()
    ensures !Computed(a, f)
  {
    hide RowsOf, Date.Ord;
    RowsOfTile(a, f);
    var y := YearAt(a, RowsOf(a, f), 0, f.stop);
    assert Breaks(y, f.dates, 0, Start(y, f.start, a.base, 0));
  }
}
