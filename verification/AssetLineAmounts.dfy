/** What the lines of a table amount to. */
module AssetLineAmounts {
  import opened Rounding
  import opened Calendar
  import opened Outcome
  import opened AssetTypes
  import opened AssetAmounts
  import opened AssetLines
  import opened AssetConservation
  import opened AssetBoard
  import opened AssetTiling
  import opened AssetTable
  import opened AssetTheorems
  import opened AssetPeriodic
  import opened AssetYearAmounts
  import opened AssetCounted

  /* ---- one year ---- */

  /** The amount of a line that is not the table's last, before its year is settled. */
  ghost predicate PeriodLine(y: Year, dates: seq<int>, k: nat, line: Line) {
    Final(y, dates, k) || line.amount == if y.first && k == 0 then FirstPeriodAmount(y, dates) else y.row.periodAmount
  }

  ghost predicate PeriodLines(y: Year, dates: seq<int>, lines: seq<Line>) {
    forall k :: 0 <= k < |lines| ==> PeriodLine(y, dates, k, lines[k])
  }

  lemma AddPeriodLine(y: Year, dates: seq<int>, li: nat, run: Run)
    requires li < |dates| && li == |run.lines| && y.row.dayAmount <= 0 && PeriodLines(y, dates, run.lines)
    ensures PeriodLines(y, dates, AddLine(y, dates, li, run).lines)
  {
    hide FirstPeriodAmount;
    var next := AddLine(y, dates, li, run).lines;
    forall k | 0 <= k < |next|
      ensures PeriodLine(y, dates, k, next[k])
    {
      if k < li {
        assert next[k] == run.lines[k];
      }
    }
  }

  lemma {:induction false} WalkPeriods(y: Year, dates: seq<int>, li: nat, run: Run)
    requires li < |dates| && li == |run.lines| && y.row.dayAmount <= 0 && PeriodLines(y, dates, run.lines)
    ensures PeriodLines(y, dates, Walk(y, dates, li, run).0.lines)
    decreases |dates| - li
  {
    hide PeriodLines, Breaks;
    if !Breaks(y, dates, li, run) {
      AddPeriodLine(y, dates, li, run);
      if li < |dates| - 1 {
        assert |AddLine(y, dates, li, run).lines| == li + 1;
        WalkPeriods(y, dates, li + 1, AddLine(y, dates, li, run));
      }
    }
  }

  /** The lines of a year but its last, which alone is settled. */
  lemma SpreadOnePeriods(y: Year, dates: seq<int>, start: int, remaining: int, depreciated: int)
    requires |dates| > 0 && y.row.dayAmount <= 0 && SpreadOne(y, dates, start, remaining, depreciated).0.Ok?
    ensures var lines := SpreadOne(y, dates, start, remaining, depreciated).0.value.lines;
      && |lines| <= |dates|
      && forall k :: 0 <= k < |lines| && (k < |lines| - 1 || y.a.time != Years) ==> PeriodLine(y, dates, k, lines[k])
  {
    hide Walk, FirstPeriodAmount;
    var first := Start(y, start, remaining, depreciated);
    WalkPeriods(y, dates, 0, first);
    SpreadOneDated(y, dates, start, remaining, depreciated);
    var walked := Walk(y, dates, 0, first).0;
    assert PeriodLines(y, dates, walked.lines);
    forall k | 0 <= k < |walked.lines|
      ensures PeriodLine(y, dates, k, walked.lines[k])
    {}
  }

  /* ---- the year method ---- */

  /** Lines of the period amount, and a last one that takes the rest of the year's amount. */
  ghost predicate EvenLines(e: Entry) {
    var n := |e.lines|;
    && n > 0 && (forall j :: 0 <= j < n - 1 ==> e.lines[j].amount == e.row.periodAmount)
    && e.lines[n - 1].amount == e.row.fyAmount - (n - 1) * e.row.periodAmount
  }

  /** A first year of which `due` dates are posted: a first line that leaves a period amount
      for each of the others, lines of that amount, and a last one that takes the rest. */
  ghost predicate FirstTakesRest(e: Entry, due: nat) {
    var n := |e.lines|;
    && n > 0 && (forall j :: 0 < j < n - 1 ==> e.lines[j].amount == e.row.periodAmount)
    && (n > 1 ==> e.lines[0].amount == e.row.fyAmount - (due - 1) * e.row.periodAmount)
    && e.lines[n - 1].amount
       == e.row.fyAmount - if n > 1 then e.lines[0].amount + (n - 2) * e.row.periodAmount else 0
  }

  lemma {:induction false} SumOfEven(lines: seq<Line>, p: int)
    requires lines != [] && forall j :: 0 <= j < |lines| - 1 ==> lines[j].amount == p
    ensures SumLines(lines) == (|lines| - 1) * p + lines[|lines| - 1].amount
  {
    if |lines| == 1 {
      assert lines[1..] == [];
    } else {
      SumOfEven(lines[1..], p);
      assert (|lines| - 1) * p == p + (|lines| - 2) * p;
    }
  }

  lemma SumOfFirst(lines: seq<Line>, p: int)
    requires |lines| > 1 && forall j :: 0 < j < |lines| - 1 ==> lines[j].amount == p
    ensures SumLines(lines) == lines[0].amount + (|lines| - 2) * p + lines[|lines| - 1].amount
  {
    SumOfEven(lines[1..], p);
  }

  /** One settled year of the table. */
  lemma YearEven(a: Asset, rows: seq<Row>, i: nat, start: int, stop: int, dates: seq<int>, base: int, depreciated: int)
    requires i < |rows| && |dates| > 0 && a.time == Years && rows[i].dayAmount == 0
    requires var settled := SpreadOne(YearAt(a, rows, i, stop), dates, start, base - depreciated, depreciated).0;
      settled.Ok? && settled.value.lines != []
    ensures var settled := SpreadOne(YearAt(a, rows, i, stop), dates, start, base - depreciated, depreciated).0;
      var e := Finish(rows[i], settled.value.lines);
      if i == 0 && a.prorata then FirstTakesRest(e, CountUpTo(dates, rows[i].stop)) else EvenLines(e)
  {
    hide SpreadOne, CountUpTo;
    var y := YearAt(a, rows, i, stop);
    SpreadOnePeriods(y, dates, start, base - depreciated, depreciated);
    SpreadOneAgrees(y, dates, start, base, depreciated);
    var lines := SpreadOne(y, dates, start, base - depreciated, depreciated).0.value.lines;
    forall j | 0 <= j < |lines| - 1
      ensures lines[j].amount == if i == 0 && j == 0 then FirstPeriodAmount(y, dates) else rows[i].periodAmount
    {
      assert PeriodLine(y, dates, j, lines[j]);
    }
    if i == 0 && a.prorata {
      if |lines| > 1 {
        SumOfFirst(lines, rows[i].periodAmount);
      } else {
        SumOfEven(lines, rows[i].periodAmount);
      }
    } else {
      SumOfEven(lines, rows[i].periodAmount);
    }
  }

  lemma {:induction false} SpreadEven(a: Asset, rows: seq<Row>, i: nat, start: int, stop: int, dates: seq<int>,
                                      base: int, depreciated: int)
    requires i <= |rows| && |dates| > 0 && a.time == Years && forall k :: 0 <= k < |rows| ==> rows[k].dayAmount == 0
    requires Spread(a, rows, i, start, stop, dates, base - depreciated, depreciated).Ok?
    ensures var table := Spread(a, rows, i, start, stop, dates, base - depreciated, depreciated).value;
      forall k :: 0 <= k < |table| ==>
        if i == 0 && k == 0 && a.prorata then FirstTakesRest(table[k], CountUpTo(dates, rows[0].stop))
        else EvenLines(table[k])
    decreases |rows| - i
  {
    hide SpreadOne, EvenLines, FirstTakesRest, CountUpTo;
    var table := Spread(a, rows, i, start, stop, dates, base - depreciated, depreciated).value;
    if table != [] {
      SpreadNext(a, rows, i, start, stop, dates, base - depreciated, depreciated);
      var (settled, li) := SpreadOne(YearAt(a, rows, i, stop), dates, start, base - depreciated, depreciated);
      var run := settled.value;
      YearEven(a, rows, i, start, stop, dates, base, depreciated);
      SpreadOneAgrees(YearAt(a, rows, i, stop), dates, start, base, depreciated);
      SpreadEven(a, rows, i + 1, start, stop, dates[li..], base, run.depreciated);
      var rest := Spread(a, rows, i + 1, start, stop, dates[li..], run.remaining, run.depreciated).value;
      assert table == [Finish(rows[i], run.lines)] + rest;
      assert forall k :: 0 < k < |table| ==> table[k] == rest[k - 1];
    }
  }

  /** The lines of the year method without day calculation.  In every fiscal year all lines
      but the last have the period amount, and the last takes the rest of the year's amount;
      only in the first year of a pro rata asset does the first line take what a period
      amount for every other posting date of the year leaves.  So when that year takes all of
      its dates, every line but the first has exactly the period amount. */
  lemma YearLines(a: Asset, f: Frame) returns (due: nat)
    requires Computed(a, f) && a.time == Years && !a.daysCalc && TableOn(a, f).value != []
    ensures var table := TableOn(a, f).value;
      && (forall k :: 0 < k < |table| ==> EvenLines(table[k]))
      && (forall q :: 0 <= q < |f.dates| ==> (f.dates[q] <= table[0].row.stop <==> q < due))
      && due <= |f.dates|
      && (if a.prorata then FirstTakesRest(table[0], due) else EvenLines(table[0]))
      && (a.prorata && |table[0].lines| == due ==>
            var lines := table[0].lines;
            && lines[0].amount == table[0].row.fyAmount - (due - 1) * table[0].row.periodAmount
            && forall j :: 0 < j < due ==> lines[j].amount == table[0].row.periodAmount)
  {
    hide Spread, RowsOf, CountUpTo, EvenLines, SpreadOne, RowsTile, Filled, Date.Ord;
    var rows, table := RowsOf(a, f), TableOn(a, f).value;
    RowsOfTile(a, f);
    SpreadEven(a, rows, 0, f.start, f.stop, f.dates, a.base, 0);
    SpreadNext(a, rows, 0, f.start, f.stop, f.dates, a.base, 0);
    CountIncreasing(f.dates, rows[0].stop);
    due := CountUpTo(f.dates, rows[0].stop);
    assert table[0].row.stop == rows[0].stop;
    if a.prorata && |table[0].lines| == due {
      assert (due - 1) * table[0].row.periodAmount
        == table[0].row.periodAmount + (due - 2) * table[0].row.periodAmount;
    }
  }

  lemma {:induction false} SpreadRows(a: Asset, rows: seq<Row>, i: nat, start: int, stop: int, dates: seq<int>,
                                      base: int, depreciated: int)
    requires i <= |rows| && |dates| > 0 && a.time == Years && forall k :: 0 <= k < |rows| ==> rows[k].dayAmount == 0
    requires Spread(a, rows, i, start, stop, dates, base - depreciated, depreciated).Ok?
    ensures var table := Spread(a, rows, i, start, stop, dates, base - depreciated, depreciated).value;
      |table| <= |rows| - i && forall k :: 0 <= k < |table| ==> table[k].row == rows[i + k]
    decreases |rows| - i
  {
    hide SpreadOne;
    var table := Spread(a, rows, i, start, stop, dates, base - depreciated, depreciated).value;
    if table != [] {
      SpreadNext(a, rows, i, start, stop, dates, base - depreciated, depreciated);
      var (settled, li) := SpreadOne(YearAt(a, rows, i, stop), dates, start, base - depreciated, depreciated);
      var run := settled.value;
      SpreadOneAgrees(YearAt(a, rows, i, stop), dates, start, base, depreciated);
      SpreadRows(a, rows, i + 1, start, stop, dates[li..], base, run.depreciated);
      var rest := Spread(a, rows, i + 1, start, stop, dates[li..], run.remaining, run.depreciated).value;
      hide Spread;
      assert table == [Finish(rows[i], run.lines)] + rest && Finish(rows[i], run.lines).row == rows[i];
      forall k | 0 <= k < |table|
        ensures table[k].row == rows[i + k]
      {
        if k > 0 {
          assert table[k] == rest[k - 1] && rest[k - 1].row == rows[i + 1 + (k - 1)];
        }
      }
    }
  }

  /** The years of the table under the year method without day calculation: each is the fiscal
      year it is for, with the amounts its method yields from what the years before it leave. */
  lemma TableYields(a: Asset, f: Frame, k: nat) returns (full: real, taken: real)
    requires Computed(a, f) && a.time == Years && !a.daysCalc && k < |TableOn(a, f).value|
    ensures var table, rows := TableOn(a, f).value, RowsOf(a, f);
      && (forall j :: 0 <= j < |f.spans| ==> f.spans[j].Valid())
      && |table| <= |rows| <= |f.spans|
      && (forall j :: 0 <= j < |table| ==> table[j].row == rows[j])
      && IsSpan(table[k].row, f.spans[k], 0)
      && RowYields(a, table[k].row, a.base - SumFy(rows[..k]), DurationFactor(a, f.spans[k], k == 0),
           k == |f.spans| - 1, full, taken)
  {
    hide Spread, Rows, Date.Ord, RowYields, IsSpan, DurationFactor, SumFy, RowsTile, Filled;
    var rows := RowsOf(a, f);
    RowsOfTile(a, f);
    FramedSpans(a, f);
    SpreadRows(a, rows, 0, f.start, f.stop, f.dates, a.base, 0);
    assert TableOn(a, f).value[k].row == rows[0 + k];
    RowsAreSpans(a, f.spans, 0, a.base, |f.dates|, 0, k);
    full, taken := RowsYield(a, f.spans, 0, a.base, |f.dates|, 0, k);
  }

  /* ---- equal entries ---- */

  lemma {:induction false} SpreadEqual(a: Asset, rows: seq<Row>, i: nat, start: int, stop: int, dates: seq<int>,
                                       remaining: int, depreciated: int, amount: int)
    requires i <= |rows| && |dates| > 0 && a.time != Years
    requires forall k :: 0 <= k < |rows| ==>
      rows[k].dayAmount == 0 && rows[k].periodAmount == amount && rows[k].fyAmount == 0
    requires Spread(a, rows, i, start, stop, dates, remaining, depreciated).Ok?
    ensures var table := Spread(a, rows, i, start, stop, dates, remaining, depreciated).value;
      forall k :: 0 <= k < |table| ==> table[k].row.fyAmount == SumLines(table[k].lines)
    ensures var table := Spread(a, rows, i, start, stop, dates, remaining, depreciated).value;
      forall k, j :: 0 <= k < |table| && 0 <= j < |table[k].lines| && (k < |table| - 1 || j < |table[k].lines| - 1) ==>
        table[k].lines[j].amount == amount
    decreases |rows| - i
  {
    hide SpreadOne;
    var table := Spread(a, rows, i, start, stop, dates, remaining, depreciated).value;
    if table != [] {
      SpreadNext(a, rows, i, start, stop, dates, remaining, depreciated);
      var y := YearAt(a, rows, i, stop);
      var (settled, li) := SpreadOne(y, dates, start, remaining, depreciated);
      var run := settled.value;
      SpreadOnePeriods(y, dates, start, remaining, depreciated);
      SpreadEqual(a, rows, i + 1, start, stop, dates[li..], run.remaining, run.depreciated, amount);
      var rest := Spread(a, rows, i + 1, start, stop, dates[li..], run.remaining, run.depreciated).value;
      hide Spread;
      assert table == [Finish(rows[i], run.lines)] + rest;
      forall k, j | 0 <= k < |table| && 0 <= j < |table[k].lines| && (k < |table| - 1 || j < |table[k].lines| - 1)
        ensures table[k].lines[j].amount == amount
      {
        if k == 0 {
          assert PeriodLine(y, dates, j, run.lines[j]);
        } else {
          assert table[k] == rest[k - 1] && rest[k - 1].lines[j].amount == amount;
        }
      }
    }
  }

  /** The lines of an asset depreciated by a number of entries, or up to an ending date: all
      but the very last have the same amount, the base over the number of entries (or of
      posting dates), rounded; and a fiscal year's amount is that of its lines. */
  lemma EqualLines(a: Asset, f: Frame) returns (amount: int)
    requires CountedAsset(a) && Computed(a, f)
    ensures Nearest(amount, a.base as real / (if a.time == Number then a.number else |f.dates|) as real)
    ensures var table := TableOn(a, f).value;
      forall k, j :: 0 <= k < |table| && 0 <= j < |table[k].lines| && (k < |table| - 1 || j < |table[k].lines| - 1) ==>
        table[k].lines[j].amount == amount
    ensures forall k :: 0 <= k < |TableOn(a, f).value| ==>
      TableOn(a, f).value[k].row.fyAmount == SumLines(TableOn(a, f).value[k].lines)
  {
    hide Spread, Rows, Date.Ord, Round;
    var rows := RowsOf(a, f);
    RowsOfTile(a, f);
    FramedSpans(a, f);
    RowsCounted(a, f.spans, 0, a.base, |f.dates|);
    amount := EntryAmount(a, |f.dates|);
    RoundNear(a.base as real / (if a.time == Number then a.number else |f.dates|) as real);
    SpreadEqual(a, rows, 0, f.start, f.stop, f.dates, a.base, 0, amount);
  }
}
