/** Assets posted monthly: two with a fiscal year that stops before its posting dates end, so
    that the next year starts in it and a rebuild creates a posted line again; and one whose
    years last. */
module AssetEarlyStop {
  import opened Rounding
  import opened Calendar
  import opened Outcome
  import opened AssetTypes
  import opened AssetDates
  import opened AssetAmounts
  import opened AssetLines
  import opened AssetConservation
  import opened AssetBoard
  import opened BoardConservation
  import opened BoardStability
  import opened AssetTiling
  import opened AssetTable
  import opened AssetTheorems
  import opened AssetPosting
  import opened AssetPeriodic
  import opened AssetMonthEnds
  import opened AssetExamples

  /* ---- months ---- */

  /** Monthly posting up to a month end: the ends of all months. */
  ghost predicate AllMonths(dates: seq<int>, first: int, count: nat) {
    |dates| == count && forall q :: 0 <= q < count ==> dates[q] == MonthStop(first + q)
  }

  /* ---- a year of equal lines ---- */

  /** The year takes no line on date `j`, after one of its period amount on each date from
      `li` on. */
  predicate StopsAfter(y: Year, dates: seq<int>, run: Run, li: nat, j: nat)
    requires li <= j < |dates|
  {
    var taken := (j - li) * y.row.periodAmount;
    || run.remaining - taken == 0 || dates[j] > MinInt(y.row.stop, y.stop)
    || (y.a.way == DegressiveLinear && y.a.Sign() * (y.row.fyAmount - (run.check + taken)) < 0)
  }

  lemma StopsNext(y: Year, dates: seq<int>, run: Run, next: Run, li: nat, j: nat)
    requires li < j < |dates| && next.remaining == run.remaining - y.row.periodAmount
    requires next.check == run.check + y.row.periodAmount
    ensures StopsAfter(y, dates, next, li + 1, j) == StopsAfter(y, dates, run, li, j)
  {
    var p := y.row.periodAmount;
    assert (j - li) * p == p + (j - (li + 1)) * p;
  }

  /** Lines of the row's period amount on dates `li` to `n`, and then no more. */
  lemma {:induction false} EvenWalk(y: Year, dates: seq<int>, li: nat, run: Run, n: nat)
    requires li == |run.lines| <= n < |dates| - 1 && y.row.dayAmount == 0 && !y.a.prorata
    requires forall j: nat :: li <= j <= n ==> (StopsAfter(y, dates, run, li, j) <==> j == n)
    ensures var p := y.row.periodAmount; var (r, end) := Walk(y, dates, li, run);
      && end == n == |r.lines|
      && r.remaining == run.remaining - (n - li) * p && r.depreciated == run.depreciated + (n - li) * p
      && r.check == run.check + (n - li) * p
      && (forall k :: 0 <= k < li ==> r.lines[k] == run.lines[k])
      && forall k :: li <= k < n ==> r.lines[k].amount == p
    decreases n - li
  {
    var p := y.row.periodAmount;
    assert StopsAfter(y, dates, run, li, li) == Breaks(y, dates, li, run);
    if li < n {
      var next, from := AddLine(y, dates, li, run), li + 1;
      forall j: nat | from <= j <= n
        ensures StopsAfter(y, dates, next, from, j) <==> j == n
      {
        StopsNext(y, dates, run, next, li, j);
      }
      hide StopsAfter;
      EvenWalk(y, dates, li + 1, next, n);
      assert (n - li) * p == p + (n - (li + 1)) * p;
    }
  }

  /** Such a year, settled: its last line takes what the others leave of its amount. */
  lemma EvenYear(y: Year, dates: seq<int>, start: int, remaining: int, depreciated: int, n: nat)
    requires 0 < n < |dates| - 1 && y.row.dayAmount == 0 && !y.a.prorata && y.a.time == Years
    requires forall j: nat :: j <= n ==>
      (StopsAfter(y, dates, Start(y, start, remaining, depreciated), 0, j) <==> j == n)
    ensures var p := y.row.periodAmount; var (settled, li) := SpreadOne(y, dates, start, remaining, depreciated);
      && settled.Ok? && li == n == |settled.value.lines|
      && settled.value.remaining == remaining - y.row.fyAmount
      && settled.value.depreciated == depreciated + y.row.fyAmount
      && var lines := settled.value.lines;
      && (forall k :: 0 <= k < n ==> DatedLine(y, dates, k, lines[k], MaxInt(y.row.start, start)))
      && (forall k :: 0 <= k < n - 1 ==> lines[k].amount == p)
      && lines[n - 1].amount == y.row.fyAmount - (n - 1) * p
      && lines[n - 1].remaining == remaining - y.row.fyAmount
  {
    hide Walk, StopsAfter, DatedLine;
    var p := y.row.periodAmount;
    var first := Start(y, start, remaining, depreciated);
    EvenWalk(y, dates, 0, first, n);
    SpreadOneDated(y, dates, start, remaining, depreciated);
    assert n * p == p + (n - 1) * p;
    WalkLeaves(y, dates, 0, first);
  }

  /** What the walk leaves is what its last line leaves. */
  lemma {:induction false} WalkLeaves(y: Year, dates: seq<int>, li: nat, run: Run)
    requires li < |dates| && (run.lines != [] ==> run.remaining == run.lines[|run.lines| - 1].remaining)
    ensures var r := Walk(y, dates, li, run).0; r.lines != [] ==> r.remaining == r.lines[|r.lines| - 1].remaining
    decreases |dates| - li
  {
    if !Breaks(y, dates, li, run) && li < |dates| - 1 {
      WalkLeaves(y, dates, li + 1, AddLine(y, dates, li, run));
    }
  }

  /* ---- created lines ---- */

  /** Items of an equal amount before the last date are all created. */
  lemma {:induction false} EmitEven(items: seq<Item>, most: int, lastDate: int, number: nat, done: int, n: nat, p: int)
    returns (made: seq<NewLine>)
    requires n <= |items| && p != 0
    requires forall q :: 0 <= q < n ==> items[q].line.date != lastDate && items[q].line.amount == p
    ensures |made| == n && SumNew(made) == n * p
    ensures Emit(items, most, lastDate, number, done)
      == made + Emit(items[n..], most, lastDate, number + n, done + n * p)
    decreases n
  {
    if n == 0 {
      made := [];
      assert items[0..] == items;
    } else {
      var rest := EmitEven(items[1..], most, lastDate, number + 1, done + p, n - 1, p);
      var line := items[0].line;
      var head := NewLine(number + 1, line.date, line.days, p, items[0].init);
      made := [head] + rest;
      assert items[1..][n - 1..] == items[n..] && n * p == p + (n - 1) * p;
      EmitHead(items, most, lastDate, number, done, p);
      SumNewHead(head, rest);
    }
  }

  /** After `n` lines of `p` an empty line is skipped, and the one after it created. */
  lemma CreatedAfterEmpty(items: seq<Item>, most: int, lastDate: int, n: nat, p: int)
    requires n + 1 < |items| && p != 0
    requires forall q :: 0 <= q <= n + 1 ==>
      items[q].line.date != lastDate && items[q].line.amount == if q == n then 0 else p
    ensures var all := Emit(items, most, lastDate, 0, 0); var line := items[n + 1].line;
      && |all| > n && all[n] == NewLine(n + 1, line.date, line.days, p, items[n + 1].init)
      && SumNew(all[..n + 1]) == (n + 1) * p
  {
    hide Emit, SumNew;
    var made := EmitEven(items, most, lastDate, 0, 0, n, p);
    var line := items[n + 1].line;
    EmptySkipped(items, most, lastDate, n, n * p, n);
    EmitHead(items[n + 1..], most, lastDate, n, n * p, p);
    AfterMade(made, NewLine(n + 1, line.date, line.days, p, items[n + 1].init),
      Emit(items[n + 1..][1..], most, lastDate, n + 1, n * p + p));
    assert (n + 1) * p == n * p + p;
  }

  lemma AfterMade(made: seq<NewLine>, head: NewLine, rest: seq<NewLine>)
    ensures var all := made + ([head] + rest); var n := |made|;
      |all| > n && all[n] == head && SumNew(all[..n + 1]) == SumNew(made) + head.amount
  {
    assert (made + ([head] + rest))[..|made| + 1] == made + [head];
    SumNewConcat(made, [head]);
    SumNewHead(head, []);
    assert [head] == [head] + [];
  }

  lemma EmptySkipped(items: seq<Item>, most: int, lastDate: int, number: nat, done: int, q: nat)
    requires q < |items| && items[q].line.date != lastDate && items[q].line.amount == 0
    ensures Emit(items[q..], most, lastDate, number, done) == Emit(items[q + 1..], most, lastDate, number, done)
  {
    assert items[q..][0] == items[q] && items[q..][1..] == items[q + 1..];
  }

  /** A table in which year `y` stops early, on an empty line, and the next year starts with
      a line dated in it, the line created as number `k`. */
  ghost predicate Stopped(table: seq<Entry>, y: nat, k: nat, p: int) {
    && y + 1 < |table| && Filled(table) && k > 0 && Offset(table, y + 1) == k && p != 0
    && k < |Items(table, 0)|
    && (forall q :: 0 <= q <= k ==> Items(table, 0)[q].line.amount == if q == k - 1 then 0 else p)
    && table[y].row.start <= table[y + 1].lines[0].date < table[y].row.stop
    && table[y + 1].lines[0].date < table[y + 1].row.start
    && table[y + 1].lines[0].date < LastDate(table)
  }

  /** Post its first `k` lines and rebuild: the empty line takes back `p`, and the `k`-th line
      is created again. */
  lemma StoppedRepeats(a: Asset, table: seq<Entry>, y: nat, k: nat, p: int)
    requires a.Valid() && table != [] && Laid(table) && Chain(Flatten(table), a.base, 0) && Stopped(table, y, k, p)
    requires a.dateStart.Ord() <= table[0].lines[0].date
    ensures var empty, line := table[y].lines[|table[y].lines| - 1], table[y + 1].lines[0];
      var (init, nextInit) := (table[y].row.init, table[y + 1].row.init);
      && Rebuild(a, table, Posted(0, 0, 0)).Ok?
      && var all := Rebuild(a, table, Posted(0, 0, 0)).value;
      && |all| >= k && all[k - 1] == NewLine(k, line.date, line.days, p, nextInit) && SumNew(all[..k]) == k * p
      && var again := Rebuild(a, table, Posted(k, line.date, k * p));
      && again.Ok? && |again.value| >= 2
      && again.value[0] == NewLine(k + 1, empty.date, empty.days, -p, init)
      && again.value[1] == NewLine(k + 2, line.date, line.days, p, nextInit)
  {
    hide Laid, Chain, LastDate, Emit, Items, ItemsFrom, Locate, SumNew, Asset.Depreciable, Date.Ord;
    NotGrouped(table, a.dateStart.Ord());
    var items, most, last := Items(table, 0), a.Depreciable(), LastDate(table);
    ItemAt(table, 0, 0);
    ItemAt(table, y + 1, 0);
    ItemAt(table, y, |table[y].lines| - 1);
    BeforeLine(table, y + 1, 0);
    assert items[..] == items && ItemsFrom(table, 0, 0) == items[0..] == items;
    CreatedAfterEmpty(items, most, last, k - 1, p);
    StoppedOnwards(a, table, y, k, p);
  }

  lemma NotGrouped(table: seq<Entry>, start: int)
    requires table != [] && Filled(table) && start <= table[0].lines[0].date
    ensures Group(table, start) == table
  {}

  /** Lines before a line that is before the last date are too. */
  lemma BeforeLine(table: seq<Entry>, i: nat, j: nat)
    requires table != [] && Laid(table) && Filled(table) && i < |table| && j < |table[i].lines|
    requires table[i].lines[j].date < LastDate(table)
    ensures Offset(table, i) + j < |Items(table, 0)|
    ensures forall q :: 0 <= q <= Offset(table, i) + j ==> Items(table, 0)[q].line.date < LastDate(table)
  {
    hide Laid, Items, ItemsFrom, LastDate, Offset;
    ItemsRise(table);
    ItemAt(table, i, j);
  }

  lemma StoppedOnwards(a: Asset, table: seq<Entry>, y: nat, k: nat, p: int)
    requires a.Valid() && table != [] && Laid(table) && Chain(Flatten(table), a.base, 0) && Stopped(table, y, k, p)
    ensures var empty, line := table[y].lines[|table[y].lines| - 1], table[y + 1].lines[0];
      var again := Onwards(a, table, Posted(k, line.date, k * p));
      && again.Ok? && |again.value| >= 2
      && again.value[0] == NewLine(k + 1, empty.date, empty.days, -p, table[y].row.init)
      && again.value[1] == NewLine(k + 2, line.date, line.days, p, table[y + 1].row.init)
  {
    hide Laid, Chain, LastDate, Emit, Items, ItemsFrom, Locate, Compensate, Offset, Asset.Depreciable;
    var n, day := |table[y].lines|, table[y + 1].lines[0].date;
    var pos := Position(y, n - 1, table[y].lines[n - 1].remaining);
    StoppedPosition(a, table, y, k, p);
    ItemsFromCompensated(table, pos, p);
    CompensateKeepsDates(table, pos, p);
    StoppedItems(table, y, k, p);
    EmitTwo(ItemsFrom(Compensate(table, pos, p).value, y, n - 1), a.Depreciable(), LastDate(table), k, k * p, p);
  }

  /** An item that takes back `p`, and one of `p` after it. */
  lemma EmitTwo(items: seq<Item>, most: int, lastDate: int, number: nat, done: int, p: int)
    requires |items| > 1 && p != 0 && items[0].line.amount == -p && items[1].line.amount == p
    requires items[0].line.date != lastDate && items[1].line.date != lastDate
    ensures var (x, z) := (items[0].line, items[1].line); var all := Emit(items, most, lastDate, number, done);
      && |all| >= 2 && all[0] == NewLine(number + 1, x.date, x.days, -p, items[0].init)
      && all[1] == NewLine(number + 2, z.date, z.days, p, items[1].init)
  {
    hide Emit;
    EmitHead(items, most, lastDate, number, done, -p);
    EmitHead(items[1..], most, lastDate, number + 1, done - p, p);
  }

  /** The empty line, and the lines after it. */
  lemma StoppedItems(table: seq<Entry>, y: nat, k: nat, p: int)
    requires table != [] && Laid(table) && Stopped(table, y, k, p)
    ensures var empty, rest := table[y].lines[|table[y].lines| - 1], ItemsFrom(table, y + 1, 0);
      && ItemsFrom(table, y, |table[y].lines|) == rest
      && rest != [] && rest[0] == Item(table[y + 1].lines[0], table[y + 1].row.init)
      && rest[0].line.amount == p && rest[0].line.date != LastDate(table)
      && empty.amount == 0 && empty.date != LastDate(table)
  {
    hide Laid, LastDate, Items, ItemsFrom;
    ItemsAfterYear(table, y);
    ItemAt(table, y, |table[y].lines| - 1);
    ItemAt(table, y + 1, 0);
    BeforeLine(table, y + 1, 0);
    OffsetNext(table, y);
  }

  /** The position found is the empty line, and the table leaves `p` more there than is
      posted. */
  lemma StoppedPosition(a: Asset, table: seq<Entry>, y: nat, k: nat, p: int)
    requires table != [] && Laid(table) && Chain(Flatten(table), a.base, 0) && Stopped(table, y, k, p)
    ensures var n := |table[y].lines|; var pos := Locate(table, table[y + 1].lines[0].date);
      && pos == Position(y, n - 1, table[y].lines[n - 1].remaining)
      && pos.residual == a.base - (k - 1) * p
  {
    hide YearOf, LineOf, LastDate, Items, ItemsFrom, Offset;
    var n, day := |table[y].lines|, table[y + 1].lines[0].date;
    assert table[0].row.start <= day by {
      if y > 0 {
        ContiguousRows(table, 0, y);
      }
    }
    YearOfInside(table, day, y);
    LinesBefore(table, y + 1, 0, y);
    LineOfLast(table[y].lines, table[y].row.start, day, 0);
    ItemAt(table, y, n - 1);
    OffsetNext(table, y);
    RemainingAfter(table, a.base, k);
    var items := Items(table, 0);
    SumEven(items[..k - 1], p);
    assert items[..k] == items[..k - 1] + [items[k - 1]];
    SumItemsSnoc(items[..k - 1], items[k - 1]);
  }

  lemma OffsetNext(table: seq<Entry>, i: nat)
    requires i < |table|
    ensures Offset(table, i + 1) == Offset(table, i) + |table[i].lines|
  {}

  lemma {:induction false} SumEven(items: seq<Item>, p: int)
    requires forall q :: 0 <= q < |items| ==> items[q].line.amount == p
    ensures SumItems(items) == |items| * p
  {
    if items != [] {
      SumEven(items[1..], p);
    }
  }

  /* ---- rounding: 12 over two years ---- */

  /** 12 over two years, degressive-linear, in calendar years and posted monthly: twelve
      amounts of 0.50, rounded to 1. */
  const ROUNDED := Asset(12, 0, DegressiveLinear, Years, 2, Monthly, NEW_YEAR, 0.4, false, false, NEW_YEAR)

  const M2015 := 12 * 2015

  /** The months that calendar years start and end with. */
  lemma YearMonths(year: int)
    ensures Date(year, 1, 1).Valid() && Date(year, 1, 1).Ord() == MonthStart(12 * year)
    ensures Date(year, 6, 30).Valid() && Date(year, 6, 30).Ord() == MonthStop(12 * year + 5)
    ensures Date(year, 7, 1).Valid() && Date(year, 7, 1).Ord() == MonthStart(12 * year + 6)
    ensures Date(year, 12, 31).Valid() && Date(year, 12, 31).Ord() == MonthStop(12 * year + 11)
    ensures MonthStart(12 * (year + 1)) == MonthStop(12 * year + 11) + 1
    ensures MonthStart(12 * year) < MonthStop(12 * year + 5) < MonthStart(12 * year + 6) < MonthStop(12 * year + 11)
  {
    hide Date.Ord, MonthStart;
    MonthOf(Date(year, 1, 1));
    MonthOf(Date(year, 6, 30));
    MonthOf(Date(year, 7, 1));
    MonthOf(Date(year, 12, 31));
    MonthsGrow(12 * year + 11, 12 * (year + 1));
    MonthsGrow(12 * year, 12 * year + 5);
    MonthsGrow(12 * year + 5, 12 * year + 6);
    MonthsGrow(12 * year + 6, 12 * year + 11);
  }

  /** Calendar years follow one another. */
  lemma YearsFollow(year: int)
    ensures Date(year, 1, 1).Valid() && Date(year, 12, 31).Valid() && Date(year + 1, 1, 1).Valid()
    ensures Date(year, 1, 1).Ord() < Date(year, 12, 31).Ord() < Date(year + 1, 1, 1).Ord()
  {
    hide Date.Ord;
    LaterMonth(Date(year, 1, 1), Date(year, 12, 31));
    LaterMonth(Date(year, 12, 31), Date(year + 1, 1, 1));
  }

  /** From one calendar year to the next, with whatever fiscal year is defined there. */
  lemma NextYear(fys: seq<FiscalYear>, cur: Span, year: int, fy: FiscalYear)
    requires ValidYears(fys) && cur.Valid() && cur.stop == Date(year, 12, 31)
    requires Date(year + 1, 1, 1).Valid() && Find(fys, Date(year + 1, 1, 1).Ord()) == Some(fy)
    ensures Following(fys, Monthly, cur) == Span(Some(fy), Date(year + 1, 1, 1), Date(year + 1, 12, 31), false)
  {
    hide Date.Ord;
    assert NextDay(cur.stop) == Date(year + 1, 1, 1);
    assert MonthIndex(cur.stop) + 12 == 12 * (year + 1) + 11;
  }

  ghost predicate TwoYearsFramed(f: Frame) {
    && f.spans == [SpanOf(FY2015), SpanOf(FY2016)] && AllMonths(f.dates, M2015, 24)
    && f.start == MonthStart(M2015) && f.stop == MonthStop(M2015 + 23)
  }

  lemma MonthDates(a: Asset, spans: seq<Span>, stop: int, count: nat)
    requires a.time != Number && !a.daysCalc && a.period == Monthly && count > 0
    requires Tiles(spans, stop) && |spans| > 0 && stop == MonthStop(M2015 + count - 1)
    ensures AllMonths(LineDates(a, spans, NEW_YEAR, stop), M2015, count)
  {
    hide Date.Ord, MonthStart, MonthStop, DateRun;
    RunMonths(Monthly, spans, stop, MonthEnd(NEW_YEAR), 1);
    RunReaches(Monthly, spans, stop, MonthEnd(NEW_YEAR), 1);
    var run := DateRun(Monthly, spans, stop, MonthEnd(NEW_YEAR), 1);
    if count > 1 {
      MonthsGrow(M2015 + count - 2, M2015 + count - 1);
    }
    RunLength(run, Monthly, M2015, stop, count - 1);
    assert run[..|run| - 1] + [run[|run| - 1]] == run;
    forall q | 0 <= q < count
      ensures run[q] == MonthStop(M2015 + q)
    {
      assert run[q] == MonthStop(NthMonth(Monthly, M2015, q));
    }
  }

  /** The frame of an asset over calendar years from 2015 on, posted monthly. */
  lemma MonthlyFrame(a: Asset, fys: seq<FiscalYear>, fy: FiscalYear, spans: seq<Span>, stop: Date, count: nat)
    requires a.Valid() && ValidYears(fys) && a.number > 0 && a.time == Years && a.period == Monthly && !a.daysCalc
    requires Find(fys, a.dateStart.Ord()) == Some(fy) && StartDate(a, SpanOf(fy)) == NEW_YEAR
    requires StopDate(a, NEW_YEAR) == stop && stop.Ord() == MonthStop(M2015 + count - 1) && count > 0
    requires Spans(fys, Monthly, stop.Ord(), SpanOf(fy)) == spans && spans != []
    ensures var r := FrameOf(a, fys);
      && r.Ok? && r.value.spans == spans && AllMonths(r.value.dates, M2015, count)
      && r.value.start == NEW_YEAR.Ord() && r.value.stop == MonthStop(M2015 + count - 1)
  {
    hide Date.Ord, MonthStart, MonthStop, Spans, Find, StopDate, StartDate, AllMonths, LineDates;
    assert FirstYear(a, fys) == Ok(SpanOf(fy));
    SpansTile(fys, Monthly, stop.Ord(), SpanOf(fy));
    MonthDates(a, spans, stop.Ord(), count);
  }

  /** One calendar year more. */
  lemma SpansCons(fys: seq<FiscalYear>, stop: int, cur: Span, next: Span, rest: seq<Span>)
    requires ValidYears(fys) && cur.Valid() && cur.start.Ord() <= stop && Following(fys, Monthly, cur) == next
    requires Spans(fys, Monthly, stop, next) == rest
    ensures Spans(fys, Monthly, stop, cur) == [cur] + rest
  {
    hide Date.Ord, Following;
  }

  /** The year that holds the stop date is the last. */
  lemma SpansLast(fys: seq<FiscalYear>, stop: int, cur: Span)
    requires ValidYears(fys) && cur.Valid() && cur.start.Ord() <= stop <= cur.stop.Ord()
    ensures Spans(fys, Monthly, stop, cur) == [cur]
  {
    hide Date.Ord, Find;
    assert Spans(fys, Monthly, stop, Following(fys, Monthly, cur)) == [];
  }

  lemma RoundedFound()
    ensures var fys := [FY2015, FY2016];
      && ValidYears(fys) && Find(fys, NEW_YEAR.Ord()) == Some(FY2015)
      && Find(fys, Date(2016, 1, 1).Ord()) == Some(FY2016)
  {
    YearMonths(2015);
    YearMonths(2016);
    hide Date.Ord, MonthStart, MonthStop;
    assert Find([FY2015, FY2016][1..], Date(2016, 1, 1).Ord()) == Some(FY2016);
  }

  /** Two calendar years: the first, and the last, which ends on the stop date. */
  lemma TwoSpans(fys: seq<FiscalYear>, stop: int, cur: Span, next: Span)
    requires ValidYears(fys) && cur.Valid() && next.Valid() && Following(fys, Monthly, cur) == next
    requires stop == next.stop.Ord()
    ensures Spans(fys, Monthly, stop, cur) == [cur, next]
  {
    hide Date.Ord, Find, Spans;
    assert next.start.Ord() == cur.stop.Ord() + 1;
    SpansLast(fys, stop, next);
    SpansCons(fys, stop, cur, next, [next]);
    assert [cur] + [next] == [cur, next];
  }

  lemma RoundedSpans()
    ensures ValidYears([FY2015, FY2016])
    ensures Spans([FY2015, FY2016], Monthly, Date(2016, 12, 31).Ord(), SpanOf(FY2015))
      == [SpanOf(FY2015), SpanOf(FY2016)]
  {
    RoundedFound();
    YearsFollow(2015);
    YearsFollow(2016);
    hide Date.Ord, Find, Following, Spans;
    NextYear([FY2015, FY2016], SpanOf(FY2015), 2015, FY2016);
    TwoSpans([FY2015, FY2016], Date(2016, 12, 31).Ord(), SpanOf(FY2015), SpanOf(FY2016));
  }

  /** Assets over 2015 and 2016, posted monthly. */
  predicate OverTwoYears(a: Asset) {
    && a.Valid() && a.time == Years && a.number == 2 && a.period == Monthly && !a.daysCalc && !a.prorata
    && a.dateStart == NEW_YEAR
  }

  lemma TwoYearFrame(a: Asset)
    requires OverTwoYears(a)
    ensures ValidYears([FY2015, FY2016])
    ensures var r := FrameOf(a, [FY2015, FY2016]); r.Ok? && TwoYearsFramed(r.value)
  {
    RoundedFound();
    RoundedSpans();
    YearMonths(2015);
    YearMonths(2016);
    hide Date.Ord, MonthStart, MonthStop, Find, Spans, FrameOf, AllMonths;
    assert MonthIndex(NEW_YEAR) == M2015 && AddYears(NEW_YEAR, 2) == Date(2017, 1, 1);
    MonthlyFrame(a, [FY2015, FY2016], FY2015, [SpanOf(FY2015), SpanOf(FY2016)], Date(2016, 12, 31), 24);
  }

  lemma RoundedRows(f: Frame)
    requires TwoYearsFramed(f)
    ensures ROUNDED.Valid() && (forall k :: 0 <= k < |f.spans| ==> f.spans[k].Valid())
    ensures Rows(ROUNDED, f.spans, 0, 12, 24, 0)
      == [Row(MonthStart(M2015), MonthStop(M2015 + 11), false, 1, 6, 0),
          Row(MonthStart(M2015 + 12), MonthStop(M2015 + 23), false, 1, 6, 0)]
  {
    YearMonths(2015);
    YearMonths(2016);
    hide Date.Ord, MonthStart, MonthStop;
    var a, x, z := ROUNDED, SpanOf(FY2015), SpanOf(FY2016);
    assert DurationFactor(a, x, true) == 1.0 && DurationFactor(a, z, false) == 1.0;
    assert YearAmount(a, 12) == 6.0 && YearAmount(a, 6) == 6.0;
    assert Scale(6.0, 1.0) == 6.0;
    ClampBounds(a, 6.0, 12.0);
    ClampBounds(a, 6.0, 6.0);
    assert Round(6.0 / 12.0) == 1 && Round(6.0) == 6;
    var r, q := RowOf(a, x, true, false, 12, 24, 0), RowOf(a, z, false, true, 6, 24, 0);
    assert r == Row(MonthStart(M2015), MonthStop(M2015 + 11), false, 1, 6, 0);
    assert q == Row(MonthStart(M2015 + 12), MonthStop(M2015 + 23), false, 1, 6, 0);
    assert Rows(a, f.spans, 1, 6, 24, 0) == [q];
    assert [r] + [q] == [r, q];
  }

  /** The lines of a year that stops early: of `p` but for the last, on the months from
      `first` on. */
  ghost predicate EvenEntry(e: Entry, row: Row, first: int, n: nat) {
    && e.row.start == row.start && e.row.stop == row.stop && e.row.init == row.init && 0 < n == |e.lines|
    && (forall k :: 0 <= k < n - 1 ==> e.lines[k].amount == row.periodAmount)
    && e.lines[n - 1].amount == row.fyAmount - (n - 1) * row.periodAmount
    && (forall k :: 0 <= k < n ==> e.lines[k].date == MonthStop(first + k))
    && e.lines[0].days == MonthStop(first) - row.start + 1
    && (n > 1 ==> e.lines[n - 1].days == MonthLength(first + n - 1))
  }

  lemma EvenEntryOf(a: Asset, rows: seq<Row>, i: nat, start: int, stop: int, dates: seq<int>, remaining: int,
      depreciated: int, first: int, n: nat)
    requires i < |rows| && rows[i].dayAmount == 0 && a.time == Years && !a.prorata && start <= rows[i].start
    requires AllMonths(dates, first, |dates|) && 0 < n < |dates| - 1
    requires var y := YearAt(a, rows, i, stop); forall j: nat :: j <= n ==>
      (StopsAfter(y, dates, Start(y, start, remaining, depreciated), 0, j) <==> j == n)
    ensures var (settled, li) := SpreadOne(YearAt(a, rows, i, stop), dates, start, remaining, depreciated);
      && settled.Ok? && li == n == |settled.value.lines|
      && settled.value.remaining == remaining - rows[i].fyAmount
      && settled.value.depreciated == depreciated + rows[i].fyAmount
      && EvenEntry(Finish(rows[i], settled.value.lines), rows[i], first, n)
  {
    hide SpreadOne, StopsAfter, MonthStart;
    var y := YearAt(a, rows, i, stop);
    EvenYear(y, dates, start, remaining, depreciated, n);
    var lines := SpreadOne(y, dates, start, remaining, depreciated).0.value.lines;
    forall k | 0 <= k < n
      ensures lines[k].date == MonthStop(first + k)
      ensures lines[k].days == dates[k] - (if k == 0 then rows[i].start else dates[k - 1] + 1) + 1
    {
      assert DatedLine(y, dates, k, lines[k], MaxInt(rows[i].start, start));
    }
    if n > 1 {
      MonthsGrow(first + n - 2, first + n - 1);
      assert dates[n - 2] == MonthStop(first + (n - 2)) && dates[n - 1] == MonthStop(first + (n - 1));
    }
  }

  lemma MonthsFrom(dates: seq<int>, first: int, li: nat)
    requires AllMonths(dates, first, |dates|) && li <= |dates|
    ensures AllMonths(dates[li..], first + li, |dates| - li)
  {
    hide MonthStop;
    var rest := dates[li..];
    forall q | 0 <= q < |rest|
      ensures rest[q] == MonthStop(first + li + q)
    {
      assert rest[q] == dates[li + q];
    }
  }

  lemma SpreadCons(a: Asset, rows: seq<Row>, i: nat, start: int, stop: int, dates: seq<int>, remaining: int,
      depreciated: int)
    requires i < |rows| && |dates| > 0
    requires var settled := SpreadOne(YearAt(a, rows, i, stop), dates, start, remaining, depreciated).0;
      settled.Ok? && settled.value.lines != []
    ensures var (settled, li) := SpreadOne(YearAt(a, rows, i, stop), dates, start, remaining, depreciated);
      var run := settled.value;
      var rest := Spread(a, rows, i + 1, start, stop, dates[li..], run.remaining, run.depreciated);
      Spread(a, rows, i, start, stop, dates, remaining, depreciated)
        == if rest.Ok? then Ok([Finish(rows[i], run.lines)] + rest.value) else rest
  {
    hide SpreadOne;
  }

  /** Its first year has used up its 6 after six of its twelve dates, and takes an empty
      line more; the second starts in August of the first. */
  lemma RoundedSpread(rows: seq<Row>, dates: seq<int>)
    requires AllMonths(dates, M2015, 24)
    requires rows == [Row(MonthStart(M2015), MonthStop(M2015 + 11), false, 1, 6, 0),
                      Row(MonthStart(M2015 + 12), MonthStop(M2015 + 23), false, 1, 6, 0)]
    ensures var r := Spread(ROUNDED, rows, 0, MonthStart(M2015), MonthStop(M2015 + 23), dates, 12, 0);
      && r.Ok? && |r.value| == 2
      && EvenEntry(r.value[0], rows[0], M2015, 7) && EvenEntry(r.value[1], rows[1], M2015 + 7, 6)
  {
    hide SpreadOne, MonthStart, MonthStop, EvenEntry;
    var a, start, stop := ROUNDED, MonthStart(M2015), MonthStop(M2015 + 23);
    var y, later := YearAt(a, rows, 0, stop), dates[7..];
    forall j: nat | j <= 7
      ensures StopsAfter(y, dates, Start(y, start, 12, 0), 0, j) <==> j == 7
    {
      MonthsGrow(M2015 + j, M2015 + 11);
      MonthsGrow(M2015 + 11, M2015 + 23);
      assert dates[j] == MonthStop(M2015 + j);
    }
    EvenEntryOf(a, rows, 0, start, stop, dates, 12, 0, M2015, 7);
    MonthsFrom(dates, M2015, 7);
    var z := YearAt(a, rows, 1, stop);
    MonthsGrow(M2015, M2015 + 12);
    forall j: nat | j <= 6
      ensures StopsAfter(z, later, Start(z, start, 6, 6), 0, j) <==> j == 6
    {
      MonthsGrow(M2015 + 7 + j, M2015 + 23);
      assert later[j] == MonthStop(M2015 + 7 + j);
    }
    EvenEntryOf(a, rows, 1, start, stop, later, 6, 6, M2015 + 7, 6);
    var one, two := SpreadOne(y, dates, start, 12, 0).0.value, SpreadOne(z, later, start, 6, 6).0.value;
    assert Spread(a, rows, 2, start, stop, later[6..], two.remaining, two.depreciated) == Ok([]);
    SpreadCons(a, rows, 1, start, stop, later, 6, 6);
    SpreadCons(a, rows, 0, start, stop, dates, 12, 0);
  }

  lemma RoundedTable()
    ensures ROUNDED.Valid() && ValidYears([FY2015, FY2016]) && Table(ROUNDED, [FY2015, FY2016]).Ok?
    ensures var table := Table(ROUNDED, [FY2015, FY2016]).value;
      && |table| == 2 && Laid(table) && Chain(Flatten(table), 12, 0)
      && EvenEntry(table[0], Row(MonthStart(M2015), MonthStop(M2015 + 11), false, 1, 6, 0), M2015, 7)
      && EvenEntry(table[1], Row(MonthStart(M2015 + 12), MonthStop(M2015 + 23), false, 1, 6, 0), M2015 + 7, 6)
  {
    hide FrameOf, Rows, Date.Ord, Spread, EvenEntry, MonthStart, MonthStop, Laid, Chain, DayAmount;
    YearMonths(2015);
    TwoYearFrame(ROUNDED);
    var a, fys := ROUNDED, [FY2015, FY2016];
    var f := FrameOf(a, fys).value;
    FrameOfFramed(a, fys);
    RoundedRows(f);
    NoDayAmount(a, f.stop - f.start + 1);
    RoundedSpread(RowsOf(a, f), f.dates);
    ComputedChain(a, f);
    TableLaid(a, f);
  }

  /** The amounts of such a year's lines in the list of all lines. */
  lemma EntryItems(table: seq<Entry>, i: nat, from: nat, row: Row, first: int, n: nat, p: int, last: int)
    requires i < |table| && Offset(table, i) == from && EvenEntry(table[i], row, first, n)
    requires row.periodAmount == p && row.fyAmount == (n - 1) * p + last
    ensures Offset(table, i + 1) == from + n <= |Items(table, 0)|
    ensures forall q :: from <= q < from + n - 1 ==> Items(table, 0)[q].line.amount == p
    ensures n > 0 && Items(table, 0)[from + n - 1].line.amount == last
  {
    hide Items, ItemsFrom, MonthStart, MonthStop;
    ItemAt(table, i, n);
    ItemAt(table, i, n - 1);
    OffsetNext(table, i);
    forall q | from <= q < from + n - 1
      ensures Items(table, 0)[q].line.amount == p
    {
      ItemAt(table, i, q - from);
    }
  }

  lemma OffsetNone(table: seq<Entry>)
    ensures Offset(table, 0) == 0
  {}

  lemma RoundedStops(table: seq<Entry>)
    requires |table| == 2 && Laid(table)
    requires EvenEntry(table[0], Row(MonthStart(M2015), MonthStop(M2015 + 11), false, 1, 6, 0), M2015, 7)
    requires EvenEntry(table[1], Row(MonthStart(M2015 + 12), MonthStop(M2015 + 23), false, 1, 6, 0), M2015 + 7, 6)
    ensures Stopped(table, 0, 7, 1)
  {
    hide Laid, MonthStart, MonthStop, Items, ItemsFrom, Offset;
    OffsetNone(table);
    EntryItems(table, 0, 0, Row(MonthStart(M2015), MonthStop(M2015 + 11), false, 1, 6, 0), M2015, 7, 1, 0);
    EntryItems(table, 1, 7, Row(MonthStart(M2015 + 12), MonthStop(M2015 + 23), false, 1, 6, 0), M2015 + 7, 6, 1, 1);
    MonthsGrow(M2015, M2015 + 7);
    MonthsGrow(M2015 + 7, M2015 + 11);
    MonthsGrow(M2015 + 7, M2015 + 12);
    assert table[1].lines[0].date == MonthStop(M2015 + 7 + 0) && table[1].lines[5].date == MonthStop(M2015 + 7 + 5);
  }

  lemma LengthOf(year: int, m: int)
    requires 0 <= m < 12
    ensures MonthLength(12 * year + m) == DaysInMonth(year, m + 1)
  {
    assert (12 * year + m) / 12 == year && (12 * year + m) % 12 == m;
  }

  /** Days from the first of January back to the end of August, as the program counts them. */
  lemma DaysBack(year: int)
    ensures MonthStop(12 * year + 7) - MonthStart(12 * year + 12) + 1 == -122
    ensures MonthLength(12 * year + 6) == 31
  {
    hide MonthStart;
    LengthOf(year, 6);
    LengthOf(year, 8);
    LengthOf(year, 9);
    LengthOf(year, 10);
    LengthOf(year, 11);
    MonthsGrow(12 * year + 7, 12 * year + 8);
    MonthsGrow(12 * year + 8, 12 * year + 9);
    MonthsGrow(12 * year + 9, 12 * year + 10);
    MonthsGrow(12 * year + 10, 12 * year + 11);
    MonthsGrow(12 * year + 11, 12 * year + 12);
  }

  /** Post its first seven lines, the last of them in August, and rebuild: July, which had
      nothing, takes back 1, and the line of August is created again. */
  lemma RoundedRepeats()
    ensures ROUNDED.Valid() && ValidYears([FY2015, FY2016]) && Table(ROUNDED, [FY2015, FY2016]).Ok?
    ensures var table := Table(ROUNDED, [FY2015, FY2016]).value;
      var (july, august) := (Date(2015, 7, 31).Ord(), Date(2015, 8, 31).Ord());
      && Rebuild(ROUNDED, table, Posted(0, 0, 0)).Ok?
      && var all := Rebuild(ROUNDED, table, Posted(0, 0, 0)).value;
      && |all| >= 7 && all[6] == NewLine(7, august, -122, 1, false) && SumNew(all[..7]) == 7
      && var again := Rebuild(ROUNDED, table, Posted(7, august, 7));
      && again.Ok? && |again.value| >= 2
      && again.value[0] == NewLine(8, july, 31, -1, false) && again.value[1] == NewLine(9, august, -122, 1, false)
  {
    RoundedTable();
    var table := Table(ROUNDED, [FY2015, FY2016]).value;
    hide Table, Rebuild, Date.Ord, MonthStart, MonthStop, Laid, Chain;
    RoundedStops(table);
    MonthOf(Date(2015, 7, 31));
    MonthOf(Date(2015, 8, 31));
    MonthOf(NEW_YEAR);
    DaysBack(2015);
    assert table[0].lines[0].date == MonthStop(M2015 + 0) && table[1].lines[0].date == MonthStop(M2015 + 7 + 0);
    MonthsGrow(M2015, M2015 + 1);
    StoppedRepeats(ROUNDED, table, 0, 7, 1);
  }

  /* ---- a short fiscal year: 120000 over four years ---- */

  /** 120000 over four years, degressive-linear and posted monthly.  After 2015 the fiscal
      year changes: there is one of six months, and then they run from July to June. */
  const CHANGED := Asset(120000, 0, DegressiveLinear, Years, 4, Monthly, NEW_YEAR, 0.0, false, false, NEW_YEAR)

  const HALF2016 := Fiscal(Date(2016, 1, 1), Date(2016, 6, 30))
  const TO2017 := Fiscal(Date(2016, 7, 1), Date(2017, 6, 30))
  const TO2018 := Fiscal(Date(2017, 7, 1), Date(2018, 6, 30))
  const CHANGES := [FY2015, HALF2016, TO2017, TO2018]

  /** The calendar year, with the fiscal year its first day lies in. */
  function CalendarYear(fy: FiscalYear, year: int): Span {
    Span(Some(fy), Date(year, 1, 1), Date(year, 12, 31), false)
  }

  lemma FindLater(fy: FiscalYear, fys: seq<FiscalYear>, day: int)
    requires ValidYears([fy] + fys) && fy.Valid() && ValidYears(fys) && fy.stop.Ord() < day
    ensures Find([fy] + fys, day) == Find(fys, day)
  {
    assert ([fy] + fys)[1..] == fys;
  }

  lemma ChangesValid()
    ensures ValidYears(CHANGES) && ValidYears([HALF2016, TO2017, TO2018]) && ValidYears([TO2017, TO2018])
    ensures ValidYears([TO2018])
    ensures FY2015.Valid() && HALF2016.Valid() && TO2017.Valid() && TO2018.Valid()
    ensures CHANGES == [FY2015] + [HALF2016, TO2017, TO2018]
    ensures [HALF2016, TO2017, TO2018] == [HALF2016] + [TO2017, TO2018] && [TO2017, TO2018] == [TO2017] + [TO2018]
  {
    hide Date.Ord;
    YearsFollow(2015);
    LaterMonth(Date(2016, 1, 1), Date(2016, 6, 30));
    LaterMonth(Date(2016, 7, 1), Date(2017, 6, 30));
    LaterMonth(Date(2017, 7, 1), Date(2018, 6, 30));
  }

  lemma ChangesFound()
    ensures ValidYears(CHANGES)
    ensures Find(CHANGES, NEW_YEAR.Ord()) == Some(FY2015) && Find(CHANGES, Date(2016, 1, 1).Ord()) == Some(HALF2016)
    ensures Find(CHANGES, Date(2017, 1, 1).Ord()) == Some(TO2017)
    ensures Find(CHANGES, Date(2018, 1, 1).Ord()) == Some(TO2018)
  {
    ChangesValid();
    YearMonths(2015);
    YearMonths(2016);
    YearMonths(2017);
    YearMonths(2018);
    hide Date.Ord, MonthStart, MonthStop, Find;
    FindFirst(FY2015, [HALF2016, TO2017, TO2018], NEW_YEAR.Ord());
    var (x, y, z) := (Date(2016, 1, 1).Ord(), Date(2017, 1, 1).Ord(), Date(2018, 1, 1).Ord());
    FindLater(FY2015, [HALF2016, TO2017, TO2018], x);
    FindFirst(HALF2016, [TO2017, TO2018], x);
    FindLater(FY2015, [HALF2016, TO2017, TO2018], y);
    FindLater(HALF2016, [TO2017, TO2018], y);
    FindFirst(TO2017, [TO2018], y);
    FindLater(FY2015, [HALF2016, TO2017, TO2018], z);
    FindLater(HALF2016, [TO2017, TO2018], z);
    FindLater(TO2017, [TO2018], z);
    FindFirst(TO2018, [], z);
    assert [TO2018] + [] == [TO2018];
  }

  lemma FindFirst(fy: FiscalYear, fys: seq<FiscalYear>, day: int)
    requires ValidYears([fy] + fys) && fy.Valid() && fy.Contains(day)
    ensures Find([fy] + fys, day) == Some(fy)
  {}

  lemma ChangesSpans()
    ensures ValidYears(CHANGES) && SpanOf(FY2015).Valid()
    ensures Spans(CHANGES, Monthly, Date(2018, 12, 31).Ord(), SpanOf(FY2015))
      == [SpanOf(FY2015), CalendarYear(HALF2016, 2016), CalendarYear(TO2017, 2017), CalendarYear(TO2018, 2018)]
  {
    ChangesFound();
    YearsFollow(2015);
    YearsFollow(2016);
    YearsFollow(2017);
    YearsFollow(2018);
    ChangesValid();
    hide Date.Ord, Find, Following, Spans;
    var (x, y, z) := (CalendarYear(HALF2016, 2016), CalendarYear(TO2017, 2017), CalendarYear(TO2018, 2018));
    NextYear(CHANGES, SpanOf(FY2015), 2015, HALF2016);
    NextYear(CHANGES, x, 2016, TO2017);
    NextYear(CHANGES, y, 2017, TO2018);
    TwoSpans(CHANGES, z.stop.Ord(), y, z);
    SpansCons(CHANGES, z.stop.Ord(), x, y, [y, z]);
    SpansCons(CHANGES, z.stop.Ord(), SpanOf(FY2015), x, [x] + [y, z]);
    assert [SpanOf(FY2015)] + ([x] + [y, z]) == [SpanOf(FY2015), x, y, z];
  }

  ghost predicate ChangedFrame(f: Frame) {
    && f.spans == [SpanOf(FY2015), CalendarYear(HALF2016, 2016), CalendarYear(TO2017, 2017), CalendarYear(TO2018, 2018)]
    && AllMonths(f.dates, M2015, 48) && f.start == MonthStart(M2015) && f.stop == MonthStop(M2015 + 47)
  }

  lemma ChangedFrameOf()
    ensures CHANGED.Valid() && ValidYears(CHANGES)
    ensures var r := FrameOf(CHANGED, CHANGES); r.Ok? && ChangedFrame(r.value)
  {
    ChangesFound();
    ChangesSpans();
    YearMonths(2015);
    YearMonths(2018);
    hide Date.Ord, MonthStart, MonthStop, Find, Spans, FrameOf, AllMonths;
    assert MonthIndex(NEW_YEAR) == M2015 && AddYears(NEW_YEAR, 4) == Date(2019, 1, 1);
    MonthlyFrame(CHANGED, CHANGES, FY2015,
      [SpanOf(FY2015), CalendarYear(HALF2016, 2016), CalendarYear(TO2017, 2017), CalendarYear(TO2018, 2018)],
      Date(2018, 12, 31), 48);
  }

  /** The row of a calendar year from 2015 on. */
  function YearRow(k: nat, fyAmount: int): Row {
    Row(MonthStart(M2015 + 12 * k), MonthStop(M2015 + 12 * k + 11), false, 2500, fyAmount, 0)
  }

  /** A year that is not the last takes 30000 times its length. */
  lemma ChangedRow(span: Span, first: bool, factor: real, residual: int, k: nat, fyAmount: int)
    requires CHANGED.Valid() && span.Valid()
    requires span.start == Date(2015 + k, 1, 1) && span.stop == Date(2015 + k, 12, 31)
    requires !span.init && DurationFactor(CHANGED, span, first) == factor
    requires residual >= 30000 && Scale(30000.0, factor) == fyAmount as real && fyAmount <= residual
    ensures RowOf(CHANGED, span, first, false, residual, 48, 0) == YearRow(k, fyAmount)
  {
    hide Date.Ord, MonthStart, MonthStop, DurationFactor;
    YearMonths(2015 + k);
    assert YearAmount(CHANGED, residual) == 30000.0;
    ClampBounds(CHANGED, fyAmount as real, residual as real);
    RoundOfInt(fyAmount);
    assert Round(30000.0 / 12.0) == 2500 by { RoundOfInt(2500); }
  }

  lemma ChangedFactors()
    ensures CHANGED.Valid() && SpanOf(FY2015).Valid() && CalendarYear(HALF2016, 2016).Valid()
    ensures CalendarYear(TO2017, 2017).Valid() && CalendarYear(TO2018, 2018).Valid()
    ensures DurationFactor(CHANGED, SpanOf(FY2015), true) == 1.0
    ensures DurationFactor(CHANGED, CalendarYear(HALF2016, 2016), false) == 0.5
    ensures DurationFactor(CHANGED, CalendarYear(TO2017, 2017), false) == 1.0
  {
    ChangesValid();
    YearsFollow(2015);
    YearsFollow(2016);
    YearsFollow(2017);
    YearsFollow(2018);
    hide Date.Ord;
  }

  lemma ChangedRows(f: Frame)
    requires ChangedFrame(f)
    ensures CHANGED.Valid() && (forall k :: 0 <= k < |f.spans| ==> f.spans[k].Valid())
    ensures var rows := Rows(CHANGED, f.spans, 0, 120000, 48, 0);
      |rows| == 4 && rows[0] == YearRow(0, 30000) && rows[1] == YearRow(1, 15000) && rows[2] == YearRow(2, 30000)
  {
    ChangedFactors();
    hide Date.Ord, MonthStart, MonthStop, DurationFactor, RowOf;
    var a, spans := CHANGED, f.spans;
    ChangedRow(spans[0], true, 1.0, 120000, 0, 30000);
    ChangedRow(spans[1], false, 0.5, 90000, 1, 15000);
    ChangedRow(spans[2], false, 1.0, 75000, 2, 30000);
    var last := RowOf(a, spans[3], false, true, 45000, 48, 0);
    assert Rows(a, spans, 4, 45000 - last.fyAmount, 48, 0) == [];
    assert Rows(a, spans, 3, 45000, 48, 0) == [last];
    assert Rows(a, spans, 2, 75000, 48, 0) == [YearRow(2, 30000)] + [last];
    assert Rows(a, spans, 1, 90000, 48, 0) == [YearRow(1, 15000)] + ([YearRow(2, 30000)] + [last]);
  }

  /** In 2015 every month takes 2500.  The short year has used up its 15000 after June, takes
      an empty line in July, and hands on August; so the third year starts in the second. */
  lemma ChangedYear(rows: seq<Row>, i: nat, dates: seq<int>, remaining: int, depreciated: int, first: int, n: nat)
    requires i < |rows| && i + 1 < |rows| && i < 3
    requires rows[i] == YearRow(i, if i == 1 then 15000 else 30000)
    requires AllMonths(dates, first, |dates|) && first + |dates| == M2015 + 48 && n < |dates| - 1
    requires n == (if i == 0 then 12 else if i == 1 then 7 else 13)
    requires first == M2015 + (if i == 0 then 0 else if i == 1 then 12 else 19)
    requires remaining >= 75000
    ensures var a, stop := CHANGED, MonthStop(M2015 + 47);
      var (settled, li) := SpreadOne(YearAt(a, rows, i, stop), dates, MonthStart(M2015), remaining, depreciated);
      && settled.Ok? && li == n == |settled.value.lines|
      && settled.value.remaining == remaining - rows[i].fyAmount
      && settled.value.depreciated == depreciated + rows[i].fyAmount
      && EvenEntry(Finish(rows[i], settled.value.lines), rows[i], first, n)
  {
    hide SpreadOne, MonthStart, MonthStop, EvenEntry;
    var a, start, stop := CHANGED, MonthStart(M2015), MonthStop(M2015 + 47);
    var y := YearAt(a, rows, i, stop);
    MonthsGrow(M2015 + 12 * i + 11, M2015 + 47);
    if i > 0 {
      MonthsGrow(M2015, M2015 + 12 * i);
    }
    forall j: nat | j <= n
      ensures StopsAfter(y, dates, Start(y, start, remaining, depreciated), 0, j) <==> j == n
    {
      assert dates[j] == MonthStop(first + j);
      if first + j < M2015 + 12 * i + 11 {
        MonthsGrow(first + j, M2015 + 12 * i + 11);
      } else if first + j > M2015 + 12 * i + 11 {
        MonthsGrow(M2015 + 12 * i + 11, first + j);
      }
    }
    EvenEntryOf(a, rows, i, start, stop, dates, remaining, depreciated, first, n);
  }

  lemma ChangedSpread(rows: seq<Row>, dates: seq<int>)
    requires AllMonths(dates, M2015, 48) && |rows| == 4
    requires rows[0] == YearRow(0, 30000) && rows[1] == YearRow(1, 15000) && rows[2] == YearRow(2, 30000)
    requires var r := Spread(CHANGED, rows, 0, MonthStart(M2015), MonthStop(M2015 + 47), dates, 120000, 0);
      r.Ok? && |r.value| == 4
    ensures var r := Spread(CHANGED, rows, 0, MonthStart(M2015), MonthStop(M2015 + 47), dates, 120000, 0);
      && EvenEntry(r.value[0], rows[0], M2015, 12) && EvenEntry(r.value[1], rows[1], M2015 + 12, 7)
      && EvenEntry(r.value[2], rows[2], M2015 + 19, 13)
  {
    hide Spread, SpreadOne, MonthStart, MonthStop, EvenEntry, YearRow;
    var a, start, stop := CHANGED, MonthStart(M2015), MonthStop(M2015 + 47);
    ChangedYear(rows, 0, dates, 120000, 0, M2015, 12);
    MonthsFrom(dates, M2015, 12);
    RowAmounts();
    SpreadNext(a, rows, 0, start, stop, dates, 120000, 0);
    ChangedYear(rows, 1, dates[12..], 90000, 30000, M2015 + 12, 7);
    MonthsFrom(dates[12..], M2015 + 12, 7);
    SpreadNext(a, rows, 1, start, stop, dates[12..], 90000, 30000);
    ChangedYear(rows, 2, dates[12..][7..], 75000, 45000, M2015 + 19, 13);
    SpreadNext(a, rows, 2, start, stop, dates[12..][7..], 75000, 45000);
  }

  lemma RowAmounts()
    ensures YearRow(0, 30000).fyAmount == YearRow(2, 30000).fyAmount == 30000 && YearRow(1, 15000).fyAmount == 15000
    ensures YearRow(0, 30000).periodAmount == YearRow(1, 15000).periodAmount == YearRow(2, 30000).periodAmount == 2500
  {}

  lemma ChangedTable()
    ensures CHANGED.Valid() && ValidYears(CHANGES) && Table(CHANGED, CHANGES).Ok?
    ensures var table := Table(CHANGED, CHANGES).value;
      && |table| == 4 && Laid(table) && Chain(Flatten(table), 120000, 0)
      && EvenEntry(table[0], YearRow(0, 30000), M2015, 12) && EvenEntry(table[1], YearRow(1, 15000), M2015 + 12, 7)
      && EvenEntry(table[2], YearRow(2, 30000), M2015 + 19, 13)
  {
    hide FrameOf, Rows, Date.Ord, Spread, EvenEntry, MonthStart, MonthStop, Laid, Chain, DayAmount, YearRow,
      YearsPosted;
    ChangedFrameOf();
    var a, fys := CHANGED, CHANGES;
    var f := FrameOf(a, fys).value;
    FrameOfFramed(a, fys);
    ChangedRows(f);
    NoDayAmount(a, f.stop - f.start + 1);
    FirstMonth(f);
    FrameYearsPosted(a, fys);
    PeriodicTable(a, f);
    ChangedSpread(RowsOf(a, f), f.dates);
    ComputedChain(a, f);
    TableLaid(a, f);
  }

  lemma FirstMonth(f: Frame)
    requires ChangedFrame(f) || TwoYearsFramed(f)
    ensures f.spans[0].Valid() && f.dates[0] <= f.spans[0].stop.Ord()
  {
    YearMonths(2015);
    hide Date.Ord, MonthStart, MonthStop;
    MonthsGrow(M2015, M2015 + 11);
    assert f.dates[0] == MonthStop(M2015 + 0);
  }

  /** Two runs of an equal amount, the second one short of an empty line. */
  lemma TwoRuns(items: seq<Item>, n: nat, m: nat, p: int)
    requires 0 < n < m < |items|
    requires forall q :: 0 <= q < n - 1 ==> items[q].line.amount == p
    requires forall q :: n <= q < m - 1 ==> items[q].line.amount == p
    requires items[n - 1].line.amount == p && items[m - 1].line.amount == 0 && items[m].line.amount == p
    ensures forall q :: 0 <= q <= m ==> items[q].line.amount == if q == m - 1 then 0 else p
  {}

  lemma ChangedStops(table: seq<Entry>)
    requires |table| == 4 && Laid(table)
    requires EvenEntry(table[0], YearRow(0, 30000), M2015, 12) && EvenEntry(table[1], YearRow(1, 15000), M2015 + 12, 7)
    requires EvenEntry(table[2], YearRow(2, 30000), M2015 + 19, 13)
    ensures Stopped(table, 1, 19, 2500)
  {
    hide Laid, MonthStart, MonthStop, Items, ItemsFrom, LastDate, Offset, EvenEntry, YearRow, Filled;
    ChangedDates(table);
    RowAmounts();
    OffsetNone(table);
    EntryItems(table, 0, 0, YearRow(0, 30000), M2015, 12, 2500, 2500);
    EntryItems(table, 1, 12, YearRow(1, 15000), M2015 + 12, 7, 2500, 0);
    EntryItems(table, 2, 19, YearRow(2, 30000), M2015 + 19, 13, 2500, 0);
    TwoRuns(Items(table, 0), 12, 19, 2500);
  }

  /** August 2016 lies in the short year, before the year it is a line of. */
  lemma ChangedDates(table: seq<Entry>)
    requires |table| == 4 && Laid(table)
    requires EvenEntry(table[1], YearRow(1, 15000), M2015 + 12, 7)
    requires EvenEntry(table[2], YearRow(2, 30000), M2015 + 19, 13)
    ensures Filled(table) && table[1].row.start <= table[2].lines[0].date < table[1].row.stop
    ensures table[2].lines[0].date < table[2].row.start && table[2].lines[0].date < LastDate(table)
  {
    hide Laid, MonthStart, MonthStop, LastDate;
    LaidFilled(table);
    MonthsGrow(M2015 + 12, M2015 + 19);
    MonthsGrow(M2015 + 19, M2015 + 23);
    MonthsGrow(M2015 + 19, M2015 + 24);
    MonthsGrow(M2015 + 19, M2015 + 20);
    assert table[2].lines[0].date == MonthStop(M2015 + 19 + 0) && table[2].lines[1].date == MonthStop(M2015 + 19 + 1);
    LastIsLast(table, 2, 1);
  }

  /** Post its first 19 lines, the last of them in August 2016, and rebuild: July, which had
      nothing, takes back 2500, and the line of August is created again. */
  lemma ChangedRepeats()
    ensures CHANGED.Valid() && ValidYears(CHANGES) && Table(CHANGED, CHANGES).Ok?
    ensures var table := Table(CHANGED, CHANGES).value;
      var (july, august) := (Date(2016, 7, 31).Ord(), Date(2016, 8, 31).Ord());
      && Rebuild(CHANGED, table, Posted(0, 0, 0)).Ok?
      && var all := Rebuild(CHANGED, table, Posted(0, 0, 0)).value;
      && |all| >= 19 && all[18] == NewLine(19, august, -122, 2500, false) && SumNew(all[..19]) == 47500
      && var again := Rebuild(CHANGED, table, Posted(19, august, 47500));
      && again.Ok? && |again.value| >= 2
      && again.value[0] == NewLine(20, july, 31, -2500, false)
      && again.value[1] == NewLine(21, august, -122, 2500, false)
  {
    ChangedTable();
    var table := Table(CHANGED, CHANGES).value;
    hide Table, Rebuild, Date.Ord, MonthStart, MonthStop, Laid, Chain;
    ChangedStops(table);
    MonthOf(Date(2016, 7, 31));
    MonthOf(Date(2016, 8, 31));
    MonthOf(NEW_YEAR);
    DaysBack(2016);
    assert table[0].lines[0].date == MonthStop(M2015 + 0) && table[2].lines[0].date == MonthStop(M2015 + 19 + 0);
    MonthsGrow(M2015, M2015 + 1);
    StoppedRepeats(CHANGED, table, 1, 19, 2500);
  }

  /* ---- years that last ---- */

  /** 2401 over two years, linear, in calendar years and posted monthly: 100 a month, of
      which no number makes up 2401. */
  const LASTING := Asset(2401, 0, Linear, Years, 2, Monthly, NEW_YEAR, 0.0, false, false, NEW_YEAR)

  lemma LastingYear(f: Frame)
    requires TwoYearsFramed(f) && Framed(LASTING, f)
    ensures RowsOf(LASTING, f) != [] && RowsOf(LASTING, f)[0].periodAmount == 100 && |RowsOf(LASTING, f)| <= 2
  {
    hide Date.Ord, FyAmount, DurationFactor, MonthStop, MonthStart;
    FramedSpans(LASTING, f);
    assert YearAmount(LASTING, 2401) == 1200.5;
    assert Round(1200.5 / 12.0) == 100 by { assert 1200.5 / 12.0 + 0.5 < 101.0; }
  }

  /** Its years last through their dates: whatever is posted first, the rest comes back. */
  lemma LastingIsStable(k: nat)
    ensures LASTING.Valid() && ValidYears([FY2015, FY2016])
    ensures Table(LASTING, [FY2015, FY2016]).Ok? && FrameOf(LASTING, [FY2015, FY2016]).Ok?
    ensures var f, table := FrameOf(LASTING, [FY2015, FY2016]).value, Table(LASTING, [FY2015, FY2016]).value;
      && Framed(LASTING, f) && AllLast(LASTING, f) && table != []
      && Rebuild(LASTING, table, Posted(0, 0, 0)).Ok?
      && var all := Rebuild(LASTING, table, Posted(0, 0, 0)).value;
      0 < k <= |all| ==>
        Rebuild(LASTING, table, Posted(k, all[k - 1].date, SumNew(all[..k]))) == AfterPosting(LASTING, table, all, k)
  {
    hide FrameOf, Table, RowsOf, Date.Ord, AfterPosting, StopsAt, MonthStop, MonthStart, InYears, SumNew;
    var a, fys := LASTING, [FY2015, FY2016];
    TwoYearFrame(a);
    var f := FrameOf(a, fys).value;
    FrameOfFramed(a, fys);
    LastingYear(f);
    FirstMonth(f);
    forall j: nat
      ensures !StopsAt(YearAt(a, RowsOf(a, f), 0, f.stop), f.dates, 2401, j)
    {
      NeverUsed(YearAt(a, RowsOf(a, f), 0, f.stop), f.dates, j);
    }
    assert RowsOf(a, f)[..0] == [];
    YearsTable(a, fys);
    var table := Table(a, fys).value;
    assert Rebuild(a, table, Posted(0, 0, 0)).Ok?;
    hide Rebuild, AllLast;
    if 0 < k <= |Rebuild(a, table, Posted(0, 0, 0)).value| {
      YearsAssetIsStable(a, fys, k);
    }
  }

  lemma NeverUsed(y: Year, dates: seq<int>, j: nat)
    requires y.a == LASTING && y.row.periodAmount == 100
    ensures !StopsAt(y, dates, 2401, j)
  {
    assert Used(y, dates, j) == 100 * j;
  }
}
