/** The fiscal years an asset lives through and the dates its lines are posted
    on. */
module AssetDates {
  import opened Calendar
  import opened Outcome
  import opened AssetTypes

  ghost predicate ValidYears(fys: seq<FiscalYear>) {
    forall i :: 0 <= i < |fys| ==> fys[i].Valid()
  }

  /** The fiscal-year lookup: some defined year around the day, if there is one. */
  function Find(fys: seq<FiscalYear>, day: int): (r: Option<FiscalYear>)
    requires ValidYears(fys)
    ensures r.Some? ==> r.value.Valid() && r.value.Contains(day)
    ensures r.None? ==> forall i :: 0 <= i < |fys| ==> !fys[i].Contains(day)
  {
    if fys == [] then None
    else if fys[0].Contains(day) then Some(fys[0])
    else Find(fys[1..], day)
  }

  /** The defined fiscal year that stops first. */
  function Earliest(fys: seq<FiscalYear>): (r: FiscalYear)
    requires ValidYears(fys) && fys != []
    ensures r in fys && forall i :: 0 <= i < |fys| ==> r.stop.Ord() <= fys[i].stop.Ord()
  {
    if |fys| == 1 then fys[0]
    else
      var rest := Earliest(fys[1..]);
      if fys[0].stop.Ord() <= rest.stop.Ord() then fys[0] else rest
  }

  /** Calendar years counted back from `start` until the day is not before it. */
  function StepBack(start: Date, day: int): (r: Date)
    requires start.Valid()
    ensures r.Valid() && r.Ord() <= start.Ord() && r.Ord() <= day
    ensures day < start.Ord() ==> day <= AddYears(r, 1).Ord()
    decreases start.Ord() - day
  {
    LaterMonth(AddYears(start, -1), start);
    YearAndBack(start);
    if day < start.Ord() then StepBack(AddYears(start, -1), day) else start
  }

  /** Going back a year and forth again loses at most the 29th of February. */
  lemma YearAndBack(date: Date)
    requires date.Valid()
    ensures date.Ord() - 1 <= AddYears(AddYears(date, -1), 1).Ord()
  {
    hide Date.Ord, MonthStart;
    var back := AddYears(date, -1);
    assert back.day >= date.day - 1 && AddYears(back, 1).day == back.day by {
      assert MonthIndex(date) == 12 * date.year + date.month - 1;
      assert MonthIndex(date) / 12 == date.year && MonthIndex(date) % 12 == date.month - 1;
      assert MonthIndex(back) / 12 == date.year - 1 && MonthIndex(back) % 12 == date.month - 1;
    }
    OrdInMonth(date);
    OrdInMonth(AddYears(back, 1));
  }

  /** The fiscal year the asset starts in: a defined one, or one extrapolated
      before the first defined year. */
  function FirstYear(a: Asset, fys: seq<FiscalYear>): (r: Result<Span>)
    requires a.Valid() && ValidYears(fys)
    ensures r.Ok? ==> r.value.Valid() && r.value.start.Ord() <= a.dateStart.Ord() <= r.value.stop.Ord() + 1
    ensures r.Ok? && r.value.fy.Some? ==> a.dateStart.Ord() <= r.value.stop.Ord()
    ensures r.Ok? && r.value.fy.None? ==>
      forall i :: 0 <= i < |fys| ==> !fys[i].Contains(a.dateStart.Ord()) && a.dateStart.Ord() <= fys[i].stop.Ord()
  {
    var found := Find(fys, a.dateStart.Ord());
    if found.Some? then
      Ok(Span(found, found.value.start, found.value.stop, found.value.done))
    else if fys == [] || a.dateStart.Ord() > Earliest(fys).start.Ord() then Err(UndefinedFiscalYear)
    else
      var start := StepBack(Earliest(fys).start, a.dateStart.Ord());
      LaterMonth(start, AddYears(start, 1));
      Ok(Span(None, start, PrevDay(AddYears(start, 1)), true))
  }

  function StartDate(a: Asset, first: Span): (r: Date)
    requires a.Valid() && first.Valid()
    ensures r.Valid()
  {
    if a.prorata then a.dateStart else Date(first.start.year, first.start.month, 1)
  }

  function StopDate(a: Asset, start: Date): (r: Date)
    requires a.Valid() && start.Valid()
    ensures r.Valid()
  {
    match a.time
    case Years => PrevDay(AddYears(start, a.number))
    case End => a.end
    case Number =>
      match a.period
      case Monthly => PrevDay(AddMonths(start, a.number))
      case Quarterly => PrevDay(AddMonths(QuarterEnd(start), 3 * a.number - 1))
      case Yearly => PrevDay(AddYears(start, a.number))
  }

  /** An asset with a positive number of periods stops no earlier than it starts,
      and no earlier than its first fiscal year starts. */
  lemma StopAfterStart(a: Asset, first: Span)
    requires a.Valid() && first.Valid() && first.start.Ord() <= a.dateStart.Ord()
    requires a.number > 0 || a.time == End
    ensures StartDate(a, first).Ord() <= StopDate(a, StartDate(a, first)).Ord()
    ensures first.start.Ord() <= StopDate(a, StartDate(a, first)).Ord()
  {
    var start := StartDate(a, first);
    match a.time {
      case Years => LaterMonth(start, AddYears(start, a.number)); LaterMonth(first.start, AddYears(start, a.number));
      case End =>
      case Number =>
        match a.period {
          case Monthly => LaterMonth(start, AddMonths(start, a.number));
          case Quarterly => LaterMonth(QuarterEnd(start), AddMonths(QuarterEnd(start), 3 * a.number - 1));
          case Yearly => LaterMonth(start, AddYears(start, a.number));
        }
    }
  }

  /* ---- fiscal years over the asset's life ---- */

  /** The fiscal years from `cur` on that start no later than the stop date.  A
      defined year decides its own end only when lines are posted yearly; any
      other year ends one calendar year after the one before. */
  function Following(fys: seq<FiscalYear>, period: Period, cur: Span): (r: Span)
    requires ValidYears(fys) && cur.Valid()
    ensures r.Valid() && r.start.Ord() == cur.stop.Ord() + 1
  {
    var next := NextDay(cur.stop);
    var found := Find(fys, next.Ord());
    LaterMonth(cur.stop, AddYears(cur.stop, 1));
    if found.Some? && period == Yearly then Span(found, next, found.value.stop, found.value.done)
    else Span(found, next, AddYears(cur.stop, 1), found.None? && cur.init)
  }

  function Spans(fys: seq<FiscalYear>, period: Period, stop: int, cur: Span): seq<Span>
    requires ValidYears(fys) && cur.Valid()
    decreases stop - cur.start.Ord() + 1
  {
    if cur.start.Ord() <= stop then [cur] + Spans(fys, period, stop, Following(fys, period, cur)) else []
  }

  method BuildSpans(fys: seq<FiscalYear>, period: Period, stop: int, first: Span) returns (table: seq<Span>)
    requires ValidYears(fys) && first.Valid()
    ensures table == Spans(fys, period, stop, first)
  {
    hide Date.Ord;
    table := [];
    var cur := first;
    while cur.start.Ord() <= stop
      invariant cur.Valid()
      invariant Spans(fys, period, stop, first) == table + Spans(fys, period, stop, cur)
      decreases stop - cur.start.Ord() + 1
    {
      table := table + [cur];
      cur := Following(fys, period, cur);
    }
  }

  /** Contiguous, non-overlapping years that cover everything up to `stop`. */
  ghost predicate Tiles(spans: seq<Span>, stop: int) {
    && (forall i :: 0 <= i < |spans| ==> spans[i].Valid() && spans[i].start.Ord() <= stop)
    && (forall i :: 0 < i < |spans| ==> spans[i].start.Ord() == spans[i - 1].stop.Ord() + 1)
    && (|spans| > 0 ==> spans[|spans| - 1].stop.Ord() >= stop)
  }

  lemma TilesCons(cur: Span, rest: seq<Span>, stop: int)
    requires cur.Valid() && cur.start.Ord() <= stop && Tiles(rest, stop)
    requires if rest == [] then stop <= cur.stop.Ord() else rest[0].start.Ord() == cur.stop.Ord() + 1
    ensures Tiles([cur] + rest, stop)
  {
    hide Date.Ord;
    var spans := [cur] + rest;
    assert forall k :: 0 < k < |spans| ==> spans[k] == rest[k - 1];
    assert rest != [] ==> spans[|spans| - 1] == rest[|rest| - 1];
  }

  lemma {:induction false} SpansTile(fys: seq<FiscalYear>, period: Period, stop: int, cur: Span)
    requires ValidYears(fys) && cur.Valid()
    ensures var spans := Spans(fys, period, stop, cur);
      && Tiles(spans, stop)
      && (cur.start.Ord() <= stop ==> |spans| > 0 && spans[0] == cur)
      && (stop < cur.start.Ord() ==> spans == [])
    decreases stop - cur.start.Ord() + 1
  {
    hide Date.Ord, Tiles;
    if cur.start.Ord() <= stop {
      var next := Following(fys, period, cur);
      SpansTile(fys, period, stop, next);
      TilesCons(cur, Spans(fys, period, stop, next), stop);
    } else {
      TilesNone(stop);
    }
  }

  lemma TilesNone(stop: int)
    ensures Tiles([], stop)
  {}

  /** Every day of the covered stretch lies in exactly one of the years. */
  lemma {:induction false} DayInOneSpan(spans: seq<Span>, stop: int, day: int) returns (k: nat)
    requires Tiles(spans, stop) && |spans| > 0 && spans[0].start.Ord() <= day <= stop
    ensures k < |spans| && spans[k].start.Ord() <= day <= spans[k].stop.Ord()
    ensures forall i :: 0 <= i < |spans| && i != k ==> !(spans[i].start.Ord() <= day <= spans[i].stop.Ord())
  {
    hide Date.Ord;
    k := 0;
    while spans[k].stop.Ord() < day
      invariant k < |spans| && spans[k].start.Ord() <= day
      decreases |spans| - k
    {
      k := k + 1;
    }
    forall i | 0 <= i < |spans| && i != k
      ensures !(spans[i].start.Ord() <= day <= spans[i].stop.Ord())
    {
      if i < k { SpansOrdered(spans, stop, i, k); } else { SpansOrdered(spans, stop, k, i); }
    }
  }

  lemma {:induction false} SpansOrdered(spans: seq<Span>, stop: int, i: nat, j: nat)
    requires Tiles(spans, stop) && i < j < |spans|
    ensures spans[i].stop.Ord() < spans[j].start.Ord()
    decreases j - i
  {
    hide Date.Ord;
    if i + 1 < j {
      SpansOrdered(spans, stop, i, j - 1);
    }
  }

  /* ---- posting dates ---- */

  function FirstDate(period: Period, spans: seq<Span>, start: Date): (r: Date)
    requires start.Valid() && |spans| > 0 && spans[0].Valid()
    ensures r.Valid()
  {
    match period
    case Monthly => MonthEnd(start)
    case Quarterly => QuarterEnd(start)
    case Yearly => spans[0].stop
  }

  /** Where the loop over posting dates stands: for yearly posting, date `i` of
      the run is the end of year `i`. */
  ghost predicate AtYear(period: Period, spans: seq<Span>, stop: int, line: Date, i: nat) {
    && Tiles(spans, stop)
    && line.Valid()
    && 1 <= i
    && (period == Yearly ==> i <= |spans| && line == spans[i - 1].stop)
  }

  /** The posting date after `line`.  That `spans[i]` exists is the claim that
      yearly posting never reads past the table. */
  function NextDate(period: Period, spans: seq<Span>, stop: int, line: Date, i: nat): (r: Date)
    requires AtYear(period, spans, stop, line, i) && line.Ord() < stop
    ensures AtYear(period, spans, stop, r, i + 1) && line.Ord() < r.Ord()
  {
    match period
    case Monthly =>
      var r := MonthEnd(AddMonths(line, 1));
      LaterMonth(line, r);
      r
    case Quarterly =>
      var r := MonthEnd(AddMonths(line, 3));
      LaterMonth(line, r);
      r
    case Yearly => spans[i].stop
  }

  /** The posting dates from `line` on, up to the first that reaches `stop`. */
  function DateRun(period: Period, spans: seq<Span>, stop: int, line: Date, i: nat): (r: seq<int>)
    requires AtYear(period, spans, stop, line, i)
    ensures |r| > 0
    decreases stop - line.Ord()
  {
    if line.Ord() < stop then
      [line.Ord()] + DateRun(period, spans, stop, NextDate(period, spans, stop, line, i), i + 1)
    else [line.Ord()]
  }

  /** The posting dates of an asset: the run, its last date replaced by the stop
      date when days are counted, or left out when the asset already has its
      number of dates. */
  function LineDates(a: Asset, spans: seq<Span>, start: Date, stop: int): seq<int>
    requires start.Valid() && Tiles(spans, stop) && |spans| > 0
  {
    var run := DateRun(a.period, spans, stop, FirstDate(a.period, spans, start), 1);
    var body := run[..|run| - 1];
    if a.time == Number && |body| == a.number then body
    else body + [if a.daysCalc then stop else run[|run| - 1]]
  }

  method ComputeLineDates(a: Asset, spans: seq<Span>, start: Date, stop: int) returns (dates: seq<int>)
    requires start.Valid() && Tiles(spans, stop) && |spans| > 0
    ensures dates == LineDates(a, spans, start, stop)
  {
    hide Date.Ord;
    dates := [];
    var line := FirstDate(a.period, spans, start);
    ghost var run := DateRun(a.period, spans, stop, line, 1);
    var i := 1;
    while line.Ord() < stop
      invariant AtYear(a.period, spans, stop, line, i)
      invariant run == dates + DateRun(a.period, spans, stop, line, i)
      decreases stop - line.Ord()
    {
      dates := dates + [line.Ord()];
      line := NextDate(a.period, spans, stop, line, i);
      i := i + 1;
    }
    assert run[..|run| - 1] == dates;
    if !(a.time == Number && |dates| == a.number) {
      dates := dates + [if a.daysCalc then stop else line.Ord()];
    }
  }

  ghost predicate Increasing(dates: seq<int>) {
    forall i, j :: 0 <= i < j < |dates| ==> dates[i] < dates[j]
  }

  lemma {:induction false} RunReaches(period: Period, spans: seq<Span>, stop: int, line: Date, i: nat)
    requires AtYear(period, spans, stop, line, i)
    ensures var run := DateRun(period, spans, stop, line, i);
      && Increasing(run)
      && run[0] == line.Ord()
      && (forall k :: 0 <= k < |run| - 1 ==> run[k] < stop)
      && run[|run| - 1] >= stop
    decreases stop - line.Ord()
  {
    hide Date.Ord, Increasing;
    if line.Ord() < stop {
      var next := NextDate(period, spans, stop, line, i);
      RunReaches(period, spans, stop, next, i + 1);
      var rest := DateRun(period, spans, stop, next, i + 1);
      assert DateRun(period, spans, stop, line, i) == [line.Ord()] + rest;
      hide DateRun;
      RunCons(line.Ord(), rest, stop);
    } else {
      OneIncreases(line.Ord());
    }
  }

  lemma RunCons(day: int, rest: seq<int>, stop: int)
    requires rest != [] && Increasing(rest) && day < rest[0] && day < stop
    requires forall k :: 0 <= k < |rest| - 1 ==> rest[k] < stop
    ensures var run := [day] + rest;
      && Increasing(run) && (forall k :: 0 <= k < |run| - 1 ==> run[k] < stop)
      && run[|run| - 1] == rest[|rest| - 1]
  {
    var run := [day] + rest;
    assert forall k :: 0 < k < |run| ==> run[k] == rest[k - 1];
    assert forall k :: 0 < k < |rest| ==> rest[0] < rest[k];
  }

  lemma OneIncreases(day: int)
    ensures Increasing([day])
  {}

  /** The asset has its number of dates before the stop date is reached: the date that
      would reach it is left out. */
  predicate LeavesOut(a: Asset, spans: seq<Span>, start: Date, stop: int)
    requires start.Valid() && Tiles(spans, stop) && |spans| > 0
  {
    a.time == Number && |DateRun(a.period, spans, stop, FirstDate(a.period, spans, start), 1)| == a.number + 1
  }

  /** Posting dates strictly increase and all but the last precede the stop date.  The
      last reaches it (exactly, when days are counted) if and only if no date was left
      out; otherwise there are as many dates as the asset has periods. */
  lemma LineDatesReach(a: Asset, spans: seq<Span>, start: Date, stop: int)
    requires start.Valid() && Tiles(spans, stop) && |spans| > 0
    requires a.number > 0 || a.time == End
    ensures var dates, left := LineDates(a, spans, start, stop), LeavesOut(a, spans, start, stop);
      && |dates| > 0
      && Increasing(dates)
      && (forall k :: 0 <= k < |dates| - 1 ==> dates[k] < stop)
      && (dates[|dates| - 1] >= stop <==> !left)
      && (left ==> a.time == Number && |dates| == a.number)
      && (!left && a.daysCalc ==> dates[|dates| - 1] == stop)
  {
    hide Date.Ord;
    var line := FirstDate(a.period, spans, start);
    RunReaches(a.period, spans, stop, line, 1);
  }

  /** The run gives the ends of the years from `i` on. */
  ghost predicate AtEnds(run: seq<int>, spans: seq<Span>, i: nat) {
    && |run| == |spans| - i
    && forall k :: i <= k < |spans| ==> spans[k].stop.Valid() && run[k - i] == spans[k].stop.Ord()
  }

  lemma AtEndsCons(rest: seq<int>, spans: seq<Span>, i: nat)
    requires i < |spans| && spans[i].stop.Valid() && AtEnds(rest, spans, i + 1)
    ensures AtEnds([spans[i].stop.Ord()] + rest, spans, i)
  {
    hide Date.Ord;
    var run := [spans[i].stop.Ord()] + rest;
    forall k | i < k < |spans|
      ensures spans[k].stop.Valid() && run[k - i] == spans[k].stop.Ord()
    {
      assert run[k - i] == rest[k - (i + 1)];
    }
  }

  /** With yearly posting the dates are the ends of the years. */
  lemma {:induction false} YearlyRun(spans: seq<Span>, stop: int, i: nat)
    requires Tiles(spans, stop) && 1 <= i <= |spans|
    ensures AtEnds(DateRun(Yearly, spans, stop, spans[i - 1].stop, i), spans, i - 1)
    decreases |spans| - i
  {
    hide Date.Ord, AtEnds;
    if spans[i - 1].stop.Ord() < stop {
      YearlyRun(spans, stop, i + 1);
      AtEndsCons(DateRun(Yearly, spans, stop, spans[i].stop, i + 1), spans, i - 1);
    } else {
      LastOfTiles(spans, stop, i - 1);
      NoEnds(spans);
      AtEndsCons([], spans, i - 1);
      assert [spans[i - 1].stop.Ord()] + [] == [spans[i - 1].stop.Ord()];
    }
  }

  lemma NoEnds(spans: seq<Span>)
    ensures AtEnds([], spans, |spans|)
  {}

  /** Only the last year reaches the stop date. */
  lemma LastOfTiles(spans: seq<Span>, stop: int, i: nat)
    requires Tiles(spans, stop) && i < |spans|
    ensures i < |spans| - 1 ==> spans[i].stop.Ord() < stop
  {
    hide Date.Ord;
    if i < |spans| - 1 {
      assert spans[i + 1].start.Ord() == spans[i].stop.Ord() + 1;
    }
  }
}
