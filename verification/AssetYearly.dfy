/** Yearly posting: the table in closed form, and the one case in which it is not
    one line per year. */
module AssetYearly {
  import opened Calendar
  import opened Outcome
  import opened AssetTypes
  import opened AssetDates
  import opened AssetAmounts
  import opened AssetLines
  import opened AssetConservation
  import opened AssetBoard
  import opened BoardConservation
  import opened BoardStability
  import opened AssetTiling
  import opened AssetTable
  import opened AssetTheorems

  /** The row's year, with one line on its last day and of its amount. */
  ghost predicate OneLine(e: Entry, row: Row) {
    && e.row.start == row.start && e.row.stop == row.stop
    && |e.lines| == 1
    && e.lines[0].date == row.stop
    && e.lines[0].amount == row.fyAmount
  }

  /** The row's year, with a line of `amount` on its last day and the rest of its amount on
      a later date. */
  ghost predicate TwoLines(e: Entry, row: Row, amount: int) {
    && e.row.start == row.start && e.row.stop == row.stop
    && |e.lines| == 2
    && e.lines[0].date == row.stop < e.lines[1].date
    && e.lines[0].amount == amount && e.lines[1].amount == row.fyAmount - amount
  }

  /** The amount the first of two or more dates gets before the year is settled. */
  function Unsettled(a: Asset, row: Row, first: bool): int {
    if first && a.prorata then row.fyAmount else row.periodAmount
  }

  /** A table cut short one year early, whose last year does not take all of what
      is left at once, spills a second line into the year that was cut off. */
  predicate SpillsOver(y: Year, dates: seq<int>, remaining: int) {
    var amount := Unsettled(y.a, y.row, y.first);
    && y.last && |dates| == 2
    && amount != remaining
    && !(y.a.way == DegressiveLinear && y.a.Sign() * (y.row.fyAmount - amount) < 0)
  }

  /** Yearly posting dates: one per year, the year's last day. */
  ghost predicate AtYearEnd(y: Year, dates: seq<int>) {
    && |dates| > 0 && dates[0] == y.row.stop
    && (dates[0] <= y.stop || Final(y, dates, 0))
    && (forall k :: 0 < k < |dates| ==> y.row.stop < dates[k])
    && y.a.time == Years && y.row.dayAmount == 0
    && (y.a.way == DegressiveLinear ==> y.a.Sign() * y.row.fyAmount >= 0)
  }

  lemma {:induction false} NoneUpTo(dates: seq<int>, stop: int)
    requires forall k :: 0 <= k < |dates| ==> stop < dates[k]
    ensures CountUpTo(dates, stop) == 0
  {
    if dates != [] {
      NoneUpTo(dates[1..], stop);
    }
  }

  lemma FirstLine(y: Year, dates: seq<int>, run: Run)
    requires AtYearEnd(y, dates) && |dates| > 1
    ensures LineAmount(y, dates, 0, dates[0] - run.prev + 1) == Unsettled(y.a, y.row, y.first)
  {
    NoneUpTo(dates[1..], y.row.stop);
  }

  lemma YearlyYear(y: Year, dates: seq<int>, start: int, remaining: int, depreciated: int)
    requires AtYearEnd(y, dates) && remaining != 0
    ensures var (settled, li) := SpreadOne(y, dates, start, remaining, depreciated);
      && settled.Ok?
      && var run := settled.value;
      && run.remaining == remaining - y.row.fyAmount && run.depreciated == depreciated + y.row.fyAmount
      && run.lines != []
      && (!SpillsOver(y, dates, remaining) ==>
            OneLine(Finish(y.row, run.lines), y.row) && li == (if |dates| == 1 then 0 else 1))
      && (SpillsOver(y, dates, remaining) ==> TwoLines(Finish(y.row, run.lines), y.row, Unsettled(y.a, y.row, y.first)))
  {
    var first := Start(y, start, remaining, depreciated);
    var one := AddLine(y, dates, 0, first);
    assert !Breaks(y, dates, 0, first);
    if |dates| > 1 {
      FirstLine(y, dates, first);
      assert Walk(y, dates, 0, first) == Walk(y, dates, 1, one);
      assert Breaks(y, dates, 1, one) <==> !SpillsOver(y, dates, remaining);
      if SpillsOver(y, dates, remaining) {
        assert Walk(y, dates, 1, one) == (AddLine(y, dates, 1, one), 1);
      }
    } else {
      assert Walk(y, dates, 0, first) == (one, 0);
    }
  }

  /** Something is left to depreciate at the start of every one of the years. */
  ghost predicate Unfinished(rows: seq<Row>, remaining: int) {
    rows == [] || (remaining != 0 && Unfinished(rows[1..], remaining - rows[0].fyAmount))
  }

  /** The dates left from year `i` on are the ends of the years left, and possibly
      of years that were cut off. */
  ghost predicate YearEnds(rows: seq<Row>, i: nat, dates: seq<int>, stop: int)
    requires i <= |rows|
  {
    && 0 < |dates| && |rows| - i <= |dates| && Increasing(dates)
    && (forall k :: 0 <= k < |rows| - i ==> dates[k] == rows[i + k].stop)
    && (forall k :: 0 <= k < |dates| - 1 ==> dates[k] < stop)
  }

  ghost predicate YearlyRows(a: Asset, rows: seq<Row>) {
    && a.time == Years
    && forall k :: 0 <= k < |rows| ==>
      rows[k].dayAmount == 0 && (a.way == DegressiveLinear ==> a.Sign() * rows[k].fyAmount >= 0)
  }

  /** The last year of a table over `count` fiscal years spills over: the table stops
      exactly one year short, and the last year's amount before it is settled is not what
      was left then; only the degressive-linear break can still stop it. */
  predicate LastSpills(a: Asset, rows: seq<Row>, count: nat)
    requires rows != []
  {
    var last := rows[|rows| - 1];
    var amount := Unsettled(a, last, |rows| == 1);
    && count == |rows| + 1
    && amount != Residual(a, rows, |rows| - 1)
    && !(a.way == DegressiveLinear && a.Sign() * (last.fyAmount - amount) < 0)
  }

  lemma YearEndsNext(rows: seq<Row>, i: nat, dates: seq<int>, stop: int)
    requires i + 1 < |rows| && YearEnds(rows, i, dates, stop)
    ensures YearEnds(rows, i + 1, dates[1..], stop)
  {
    assert forall k :: 0 <= k < |dates| - 1 ==> dates[1..][k] == dates[k + 1];
  }

  /** One line per year, unless the last year spills over. */
  ghost predicate OnePerYear(a: Asset, table: seq<Entry>, rows: seq<Row>, i: nat, spills: bool) {
    && i + |table| == |rows|
    && (forall k :: 0 <= k < |table| && (k < |table| - 1 || !spills) ==> OneLine(table[k], rows[i + k]))
    && (spills && table != [] ==>
          TwoLines(table[|table| - 1], rows[|rows| - 1], Unsettled(a, rows[|rows| - 1], |rows| == 1)))
  }

  lemma ResidualStep(a: Asset, rows: seq<Row>, i: nat)
    requires i < |rows|
    ensures Residual(a, rows, i + 1) == Residual(a, rows, i) - rows[i].fyAmount
  {
    assert rows[..i + 1] == rows[..i] + [rows[i]];
    SumFySnoc(rows[..i], rows[i]);
  }

  lemma {:induction false} YearlySpread(a: Asset, rows: seq<Row>, i: nat, start: int, stop: int, dates: seq<int>,
                                        depreciated: int)
    requires i < |rows| && YearlyRows(a, rows) && RowsTile(rows, stop)
    requires YearEnds(rows, i, dates, stop) && Unfinished(rows[i..], Residual(a, rows, i))
    ensures var r := Spread(a, rows, i, start, stop, dates, Residual(a, rows, i), depreciated);
      r.Ok? && OnePerYear(a, r.value, rows, i, LastSpills(a, rows, i + |dates|))
    decreases |rows| - i
  {
    hide SpreadOne, RowsTile, OneLine, TwoLines, Residual;
    var y, remaining := YearAt(a, rows, i, stop), Residual(a, rows, i);
    FirstDateOfYear(a, rows, i, dates, stop);
    YearlyYear(y, dates, start, remaining, depreciated);
    ResidualStep(a, rows, i);
    var (settled, li) := SpreadOne(y, dates, start, remaining, depreciated);
    var run := settled.value;
    var e := Finish(rows[i], run.lines);
    assert rows[i..][0] == rows[i] && rows[i..][1..] == rows[i + 1..];
    var spills := LastSpills(a, rows, i + |dates|);
    if i == |rows| - 1 {
      assert Spread(a, rows, i + 1, start, stop, dates[li..], run.remaining, run.depreciated) == Ok([]);
      assert spills == SpillsOver(y, dates, remaining);
    } else {
      YearEndsNext(rows, i, dates, stop);
      YearlySpread(a, rows, i + 1, start, stop, dates[1..], run.depreciated);
      var rest := Spread(a, rows, i + 1, start, stop, dates[1..], run.remaining, run.depreciated).value;
      OnePerYearCons(a, e, rest, rows, i, spills);
    }
  }

  lemma FirstDateOfYear(a: Asset, rows: seq<Row>, i: nat, dates: seq<int>, stop: int)
    requires i < |rows| && YearlyRows(a, rows) && RowsTile(rows, stop) && YearEnds(rows, i, dates, stop)
    ensures AtYearEnd(YearAt(a, rows, i, stop), dates)
    ensures i < |rows| - 1 ==> |dates| > 1
  {
    assert dates[0] == rows[i + 0].stop;
  }

  lemma OnePerYearCons(a: Asset, e: Entry, rest: seq<Entry>, rows: seq<Row>, i: nat, spills: bool)
    requires i < |rows| && OneLine(e, rows[i]) && rest != [] && OnePerYear(a, rest, rows, i + 1, spills)
    ensures OnePerYear(a, [e] + rest, rows, i, spills)
  {
    var table := [e] + rest;
    assert forall k :: 0 < k < |table| ==> table[k] == rest[k - 1];
  }

  lemma {:induction false} RowsUnfinished(a: Asset, spans: seq<Span>, i: nat, residual: int, dates: int, day: int)
    requires a.Valid() && a.time == Years && a.number > 0 && (forall k :: 0 <= k < |spans| ==> spans[k].Valid())
    requires dates > 0 && i <= |spans| && residual != 0
    ensures Unfinished(Rows(a, spans, i, residual, dates, day), residual)
    decreases |spans| - i
  {
    hide Date.Ord, RowOf;
    if i < |spans| {
      var row := RowOf(a, spans[i], i == 0, i == |spans| - 1, residual, dates, day);
      var rows := Rows(a, spans, i, residual, dates, day);
      if residual - row.fyAmount == 0 {
        assert rows[1..] == [];
      } else {
        RowsUnfinished(a, spans, i + 1, residual - row.fyAmount, dates, day);
        assert rows[1..] == Rows(a, spans, i + 1, residual - row.fyAmount, dates, day);
      }
    }
  }

  /** With yearly posting the dates are the ends of the years. */
  ghost predicate YearlyFrame(f: Frame) {
    |f.dates| == |f.spans| && forall k :: 0 <= k < |f.spans| ==>
      f.spans[k].Valid() && f.dates[k] == f.spans[k].stop.Ord()
  }

  lemma FrameIsYearly(a: Asset, fys: seq<FiscalYear>)
    requires a.Valid() && ValidYears(fys) && a.number > 0 && a.time == Years && a.period == Yearly && !a.daysCalc
    requires FrameOf(a, fys).Ok?
    ensures YearlyFrame(FrameOf(a, fys).value)
  {
    hide Date.Ord, Spans, FirstYear, StartDate, StopDate;
    var first := FirstYear(a, fys).value;
    var start := StartDate(a, first);
    var stop := StopDate(a, start).Ord();
    StopAfterStart(a, first);
    SpansTile(fys, a.period, stop, first);
    var spans := Spans(fys, a.period, stop, first);
    YearlyRun(spans, stop, 1);
    var run := DateRun(Yearly, spans, stop, spans[0].stop, 1);
    assert run[..|run| - 1] + [run[|run| - 1]] == run;
  }

  /** The closed form of a yearly table: it is always completed, with exactly one
      line per year, on the year's last day and of the year's amount.  The one
      exception is a table whose last year spills over into a second line. */
  lemma YearlyTable(a: Asset, f: Frame)
    requires a.Valid() && Framed(a, f) && YearlyFrame(f)
    requires a.time == Years && a.number > 0 && !a.daysCalc && a.base != 0
    ensures var rows := RowsOf(a, f);
      && 0 < |rows| <= |f.dates|
      && Computed(a, f)
      && OnePerYear(a, TableOn(a, f).value, rows, 0, LastSpills(a, rows, |f.dates|))
  {
    hide Spread, Framed, Rows, LastSpills, Date.Ord;
    var rows := RowsOf(a, f);
    RowsOfTile(a, f);
    RowsYearEnds(a, f);
    FramedSpans(a, f);
    RowsUnfinished(a, f.spans, 0, a.base, |f.dates|, 0);
    assert rows[0..] == rows && rows[..0] == [];
    assert Residual(a, rows, 0) == a.base;
    YearlySpread(a, rows, 0, f.start, f.stop, f.dates, 0);
  }

  lemma RowsYearEnds(a: Asset, f: Frame)
    requires a.Valid() && Framed(a, f) && YearlyFrame(f) && a.time == Years && a.number > 0 && !a.daysCalc
    ensures 0 < |RowsOf(a, f)| <= |f.dates|
    ensures YearEnds(RowsOf(a, f), 0, f.dates, f.stop) && YearlyRows(a, RowsOf(a, f))
  {
    hide Date.Ord, Rows, Spread;
    var rows := RowsOf(a, f);
    RowsShape(a, f.spans, 0, a.base, |f.dates|, 0);
    DegressiveLinearTakes(a, f);
    forall k | 0 <= k < |rows|
      ensures f.dates[k] == rows[0 + k].stop && rows[k].dayAmount == 0
    {
      assert RowDated(rows[k], f.spans[0 + k], 0);
    }
  }

  /** The degressive-linear amounts are in the direction of the base. */
  lemma DegressiveLinearTakes(a: Asset, f: Frame)
    requires a.Valid() && Framed(a, f) && a.time == Years && a.number > 0 && !a.daysCalc
    ensures a.way == DegressiveLinear ==>
      forall k :: 0 <= k < |RowsOf(a, f)| ==> a.Sign() * RowsOf(a, f)[k].fyAmount >= 0
  {
    hide Date.Ord, Rows;
    if a.way == DegressiveLinear {
      FramedSpans(a, f);
      RowsUseResidual(a, f.spans, 0, a.base, |f.dates|, 0);
      var rows := RowsOf(a, f);
      assert forall k :: 0 <= k < |rows| ==> RowFollows(a, rows[k], f.spans[0 + k], 0);
    }
  }

  /** All years of a yearly table but the last end on a posting date; if the last does not
      spill over, so does it. */
  lemma YearlyTableEnds(a: Asset, f: Frame)
    requires a.Valid() && Framed(a, f) && YearlyFrame(f)
    requires a.time == Years && a.number > 0 && !a.daysCalc && a.base != 0
    ensures Computed(a, f) && TableOn(a, f).value != [] && YearsEndOnPosting(TableOn(a, f).value)
    ensures var table := TableOn(a, f).value;
      !LastSpills(a, RowsOf(a, f), |f.dates|) ==> LastDate(table) == table[|table| - 1].row.stop
  {
    hide TableOn, RowsOf, LastSpills, Framed;
    YearlyTable(a, f);
    var rows, table := RowsOf(a, f), TableOn(a, f).value;
    forall k | 0 <= k < |table| && (k < |table| - 1 || !LastSpills(a, rows, |f.dates|))
      ensures EndsOnPosting(table[k])
    {
      assert OneLine(table[k], rows[0 + k]);
    }
  }

  /* ---- end to end ---- */

  /** An asset depreciated over a number of years and posted yearly, not by days. */
  ghost predicate YearlyAsset(a: Asset) {
    a.Valid() && a.time == Years && a.number > 0 && a.period == Yearly && !a.daysCalc && a.base != 0
  }

  /** End to end, from an asset posted yearly and any defined fiscal years: a table is
      always computed, and its lines add up.  It depreciates exactly the depreciable amount
      if and only if it keeps the salvage, and so does every rebuild that completes, save
      that a posting on the last day of the table's last year is needed for it to fail. */
  lemma YearlyAssetConserves(a: Asset, fys: seq<FiscalYear>, posted: Posted)
    requires YearlyAsset(a) && ValidYears(fys) && FrameOf(a, fys).Ok?
    requires posted.count == 0 ==> posted.total == 0
    ensures Framed(a, FrameOf(a, fys).value) && Table(a, fys).Ok? && Table(a, fys).value != []
    ensures var f, table := FrameOf(a, fys).value, Table(a, fys).value;
      var keeps := KeepsSalvage(a, RowsOf(a, f), f.spans);
      && Chain(Flatten(table), a.base, 0) && YearsAddUp(table)
      && (SumLines(Flatten(table)) == a.Depreciable() <==> keeps)
      && (Rebuild(a, table, posted).Ok? ==>
            (posted.total + SumNew(Rebuild(a, table, posted).value) == a.Depreciable()
             <==> keeps || posted.count == 0 || !AtEndOfTable(table, posted.last)))
  {
    hide FrameOf, TableOn, RowsOf, Rebuild, Chain, YearsAddUp, Flatten, SumLines, SumNew, LastSpills, KeepsSalvage;
    var f := FrameOf(a, fys).value;
    FrameOfFramed(a, fys);
    FrameIsYearly(a, fys);
    YearlyTableEnds(a, f);
    TableConserves(a, f);
    if Rebuild(a, TableOn(a, f).value, posted).Ok? {
      ScheduleConserves(a, f, posted);
    }
  }

  /** End to end: build the schedule of an asset posted yearly, post its first `k` lines and
      rebuild.  Exactly the lines that were not posted come back, always if the last year
      does not spill over; if it does, with the exception that any table has. */
  lemma YearlyAssetIsStable(a: Asset, fys: seq<FiscalYear>, k: nat)
    requires YearlyAsset(a) && ValidYears(fys) && FrameOf(a, fys).Ok?
    requires Table(a, fys).Ok? ==> 0 < k <= |Rebuild(a, Table(a, fys).value, Posted(0, 0, 0)).value|
    ensures Table(a, fys).Ok?
    ensures Framed(a, FrameOf(a, fys).value) && Table(a, fys).value != [] && RowsOf(a, FrameOf(a, fys).value) != []
    ensures var f, table := FrameOf(a, fys).value, Table(a, fys).value;
      var all := Rebuild(a, table, Posted(0, 0, 0)).value;
      var again := Rebuild(a, table, Posted(k, all[k - 1].date, SumNew(all[..k])));
      && again == AfterPosting(a, table, all, k)
      && (k < |all| && !LastSpills(a, RowsOf(a, f), |f.dates|) ==> again == Ok(all[k..]))
  {
    hide FrameOf, TableOn, RowsOf, Rebuild, SumNew, LastSpills, InYears, InPlace, YearsEndOnPosting;
    var f := FrameOf(a, fys).value;
    FrameOfFramed(a, fys);
    FrameIsYearly(a, fys);
    RowsOfTile(a, f);
    YearlyTableEnds(a, f);
    AlignedTableInYears(a, f);
    InYearsIsStable(a, f, k);
  }
}
