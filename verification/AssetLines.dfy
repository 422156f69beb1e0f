/** Spreading the yearly amounts over the posting dates. */
module AssetLines {
  import opened Outcome
  import opened AssetTypes
  import opened AssetAmounts

  /** A line of the depreciation table: what it depreciates, what was depreciated
      before it and what remains after it. */
  datatype Line = Line(date: int, days: int, amount: int, depreciated: int, remaining: int)

  /** A fiscal year of the finished table. */
  datatype Entry = Entry(row: Row, lines: seq<Line>)

  /** The variables of the loop over one year's dates. */
  datatype Run = Run(lines: seq<Line>, prev: int, remaining: int, depreciated: int, check: int)

  /** What stays fixed while a year is spread: the asset, the year, whether it is
      the first or the last of the table, and the stop date. */
  datatype Year = Year(a: Asset, row: Row, first: bool, last: bool, stop: int)

  function MinInt(x: int, y: int): int { if x <= y then x else y }

  function MaxInt(x: int, y: int): int { if x >= y then x else y }

  /** How many dates fall in the year, counted over all that are left. */
  function CountUpTo(dates: seq<int>, stop: int): (n: nat)
    ensures n <= |dates|
  {
    if dates == [] then 0 else (if dates[0] <= stop then 1 else 0) + CountUpTo(dates[1..], stop)
  }

  /** The first line of a pro rata asset takes what the full periods of its first
      year leave. */
  function FirstPeriodAmount(y: Year, dates: seq<int>): int {
    if y.a.prorata && y.a.time == Years then
      y.row.fyAmount - y.row.periodAmount * (CountUpTo(dates, y.row.stop) - 1)
    else y.row.periodAmount
  }

  predicate Final(y: Year, dates: seq<int>, li: nat) {
    y.last && li == |dates| - 1
  }

  /** The year takes no line on date `li`: nothing remains, the date lies beyond
      the year, or the degressive-linear amount is used up. */
  predicate Breaks(y: Year, dates: seq<int>, li: nat, run: Run)
    requires li < |dates|
  {
    || run.remaining == 0
    || (dates[li] > MinInt(y.row.stop, y.stop) && !Final(y, dates, li))
    || (y.a.way == DegressiveLinear && y.a.Sign() * (y.row.fyAmount - run.check) < 0)
  }

  function LineAmount(y: Year, dates: seq<int>, li: nat, days: int): int {
    if y.row.dayAmount > 0 then days * y.row.dayAmount
    else if y.first && li == 0 then FirstPeriodAmount(y, dates)
    else y.row.periodAmount
  }

  /** One line on date `li`; the last line of the table takes what remains. */
  function AddLine(y: Year, dates: seq<int>, li: nat, run: Run): Run
    requires li < |dates|
  {
    var days := dates[li] - run.prev + 1;
    var amount := if Final(y, dates, li) then run.remaining else LineAmount(y, dates, li, days);
    var remaining := run.remaining - amount;
    Run(run.lines + [Line(dates[li], days, amount, run.depreciated, remaining)],
        dates[li] + 1, remaining, run.depreciated + amount, run.check + amount)
  }

  /** The loop over the dates of one year, and the index it ends on. */
  function Walk(y: Year, dates: seq<int>, li: nat, run: Run): (r: (Run, nat))
    requires li < |dates|
    ensures li <= r.1 < |dates|
    decreases |dates| - li
  {
    if Breaks(y, dates, li, run) then (run, li)
    else if li == |dates| - 1 then (AddLine(y, dates, li, run), li)
    else Walk(y, dates, li + 1, AddLine(y, dates, li, run))
  }

  /** Rounding and long or short years are settled in the year's last line. */
  function Settle(y: Year, run: Run): (r: Result<Run>)
  {
    var diff := run.check - y.row.fyAmount;
    if y.a.time == Years && y.row.dayAmount == 0 && diff != 0 then
      if run.lines == [] then Err(NoLineForYear)
      else
        var k := |run.lines| - 1;
        Ok(run.(
          lines := run.lines[k := run.lines[k].(amount := run.lines[k].amount - diff,
            remaining := run.remaining + diff)],
          remaining := run.remaining + diff,
          depreciated := run.depreciated - diff,
          check := y.row.fyAmount))
    else Ok(run)
  }

  function SumLines(lines: seq<Line>): int {
    if lines == [] then 0 else lines[0].amount + SumLines(lines[1..])
  }

  function Start(y: Year, start: int, remaining: int, depreciated: int): Run {
    Run([], MaxInt(y.row.start, start), remaining, depreciated, 0)
  }

  function Finish(row: Row, lines: seq<Line>): Entry {
    Entry(row.(fyAmount := if row.fyAmount == 0 then SumLines(lines) else row.fyAmount), lines)
  }

  /** One year of the table: its settled lines and where the dates of the next
      year start. */
  function SpreadOne(y: Year, dates: seq<int>, start: int, remaining: int, depreciated: int): (r: (Result<Run>, nat))
    requires |dates| > 0
    ensures r.1 < |dates|
  {
    var (walked, li) := Walk(y, dates, 0, Start(y, start, remaining, depreciated));
    (Settle(y, walked), li)
  }

  function YearAt(a: Asset, rows: seq<Row>, i: nat, stop: int): Year
    requires i < |rows|
  {
    Year(a, rows[i], i == 0, i == |rows| - 1, stop)
  }

  /** The years from `i` on.  A year without a line is dropped when it is the last
      one; dropping any other makes the loop skip the year after it, which then
      has no lines at all. */
  function Spread(a: Asset, rows: seq<Row>, i: nat, start: int, stop: int, dates: seq<int>,
                  remaining: int, depreciated: int): (r: Result<seq<Entry>>)
    requires i <= |rows| && |dates| > 0
    decreases |rows| - i
  {
    if i == |rows| then Ok([])
    else
      var (settled, li) := SpreadOne(YearAt(a, rows, i, stop), dates, start, remaining, depreciated);
      var run :- settled;
      if run.lines == [] then
        if i < |rows| - 1 then Err(NoLineForYear) else Ok([])
      else
        var rest :- Spread(a, rows, i + 1, start, stop, dates[li..], run.remaining, run.depreciated);
        Ok([Finish(rows[i], run.lines)] + rest)
  }

  method SpreadYear(y: Year, dates: seq<int>, start: int, remaining: int, depreciated: int)
    returns (r: Result<Run>, li: nat)
    requires |dates| > 0
    ensures (r, li) == SpreadOne(y, dates, start, remaining, depreciated)
  {
    var lines, prev, rem, depr, check := [], MaxInt(y.row.start, start), remaining, depreciated, 0;
    var amount := 0;
    ghost var goal := Walk(y, dates, 0, Start(y, start, remaining, depreciated));
    li := 0;
    while true
      invariant li < |dates|
      invariant goal == Walk(y, dates, li, Run(lines, prev, rem, depr, check))
      invariant lines != [] ==> amount == lines[|lines| - 1].amount && rem == lines[|lines| - 1].remaining
      decreases |dates| - li
    {
      var line_days := dates[li] - prev + 1;
      if rem == 0
         || (dates[li] > MinInt(y.row.stop, y.stop) && !Final(y, dates, li))
         || (y.a.way == DegressiveLinear && y.a.Sign() * (y.row.fyAmount - check) < 0)
      {
        break;
      }
      if Final(y, dates, li) {
        amount := rem;
      } else {
        amount := LineAmount(y, dates, li, line_days);
      }
      prev := dates[li] + 1;
      rem := rem - amount;
      check := check + amount;
      lines := lines + [Line(dates[li], line_days, amount, depr, rem)];
      depr := depr + amount;
      if li == |dates| - 1 {
        break;
      }
      li := li + 1;
    }
    if y.a.time == Years && y.row.dayAmount == 0 && check != y.row.fyAmount {
      if lines == [] {
        return Err(NoLineForYear), li;
      }
      var diff := check - y.row.fyAmount;
      amount := amount - diff;
      rem := rem + diff;
      var k := |lines| - 1;
      lines := lines[k := lines[k].(amount := amount, remaining := rem)];
      depr := depr - diff;
      check := y.row.fyAmount;
    }
    r := Ok(Run(lines, prev, rem, depr, check));
  }

  method ComputeLines(a: Asset, rows: seq<Row>, start: int, stop: int, dates0: seq<int>)
    returns (r: Result<seq<Entry>>)
    requires |dates0| > 0
    ensures r == Spread(a, rows, 0, start, stop, dates0, a.base, 0)
  {
    ghost var goal := Spread(a, rows, 0, start, stop, dates0, a.base, 0);
    var table: seq<Entry> := [];
    var dates, remaining, depreciated := dates0, a.base, 0;
    var i := 0;
    assert goal.Ok? ==> [] + goal.value == goal.value;
    while i < |rows|
      invariant i <= |rows| && |dates| > 0
      invariant var tail := Spread(a, rows, i, start, stop, dates, remaining, depreciated);
        goal == if tail.Ok? then Ok(table + tail.value) else tail
    {
      var y := YearAt(a, rows, i, stop);
      var settled, li := SpreadYear(y, dates, start, remaining, depreciated);
      if settled.Err? {
        return settled.PropagateFailure();
      }
      var run := settled.value;
      if run.lines == [] {
        assert table + [] == table;
        return if i < |rows| - 1 then Err(NoLineForYear) else Ok(table);
      }
      ghost var tail := Spread(a, rows, i + 1, start, stop, dates[li..], run.remaining, run.depreciated);
      assert tail.Ok? ==>
        table + ([Finish(rows[i], run.lines)] + tail.value) == (table + [Finish(rows[i], run.lines)]) + tail.value;
      table := table + [Finish(rows[i], run.lines)];
      dates, remaining, depreciated := dates[li..], run.remaining, run.depreciated;
      i := i + 1;
    }
    assert table + [] == table;
    return Ok(table);
  }
}
