/** The posting dates of monthly and quarterly posting: which they are, and how many. */
module AssetPosting {
  import opened Calendar
  import opened Outcome
  import opened AssetTypes
  import opened AssetDates
  import opened AssetTable

  function PeriodMonths(period: Period): int {
    if period == Quarterly then 3 else 1
  }

  /** The month `k` periods after a month. */
  function NthMonth(period: Period, first: int, k: int): int {
    if period == Quarterly then first + 3 * k else first + k
  }

  /** The last days of months, a period apart. */
  ghost predicate Months(run: seq<int>, period: Period, first: int) {
    forall k :: 0 <= k < |run| ==> run[k] == MonthStop(NthMonth(period, first, k))
  }

  lemma MonthsCons(rest: seq<int>, period: Period, first: int)
    requires Months(rest, period, NthMonth(period, first, 1))
    ensures Months([MonthStop(first)] + rest, period, first)
  {
    hide MonthStop;
    var run := [MonthStop(first)] + rest;
    forall k | 0 <= k < |run|
      ensures run[k] == MonthStop(NthMonth(period, first, k))
    {
      if k > 0 {
        assert run[k] == rest[k - 1] == MonthStop(NthMonth(period, NthMonth(period, first, 1), k - 1));
      }
    }
  }

  lemma NoMonths(period: Period, first: int)
    ensures Months([], period, first)
  {}

  lemma {:induction false} RunMonths(period: Period, spans: seq<Span>, stop: int, line: Date, i: nat)
    requires AtYear(period, spans, stop, line, i) && period != Yearly && !NextInMonth(line)
    ensures Months(DateRun(period, spans, stop, line, i), period, MonthIndex(line))
    decreases stop - line.Ord()
  {
    hide Date.Ord, MonthStop, Months;
    MonthOf(line);
    if line.Ord() < stop {
      var next := NextDate(period, spans, stop, line, i);
      assert MonthIndex(next) == NthMonth(period, MonthIndex(line), 1) && !NextInMonth(next);
      RunMonths(period, spans, stop, next, i + 1);
      MonthsCons(DateRun(period, spans, stop, next, i + 1), period, MonthIndex(line));
    } else {
      NoMonths(period, NthMonth(period, MonthIndex(line), 1));
      MonthsCons([], period, MonthIndex(line));
      assert [MonthStop(MonthIndex(line))] + [] == [line.Ord()];
    }
  }

  /** The first posting date is the last day of the first month (for quarterly posting, of
      March, June, September or December) that does not end before the start. */
  lemma FirstPosting(period: Period, spans: seq<Span>, start: Date)
    requires period != Yearly && start.Valid() && |spans| > 0 && spans[0].Valid()
    ensures var d := FirstDate(period, spans, start); var m := MonthIndex(d);
      && !NextInMonth(d) && start.Ord() <= MonthStop(m) && MonthStop(NthMonth(period, m, -1)) < start.Ord()
      && (period == Quarterly ==> m % 3 == 2)
      && MonthIndex(start) <= m <= MonthIndex(start) + PeriodMonths(period) - 1
  {
    hide Date.Ord, MonthStart, MonthStop;
    var d := FirstDate(period, spans, start);
    if period == Quarterly {
      QuarterEndOf(start);
      assert d.month % 3 == 0;
      assert MonthIndex(d) == 12 * d.year + d.month - 1;
    }
    MonthOf(d);
    MonthOf(start);
    MonthsGrow(NthMonth(period, MonthIndex(d), -1), MonthIndex(start));
  }

  /** Quarter ends are three months apart. */
  lemma QuarterIndex(d: Date)
    requires d.month % 3 == 0
    ensures MonthIndex(d) % 3 == 2
  {
    hide Date.Valid, Date.Ord;
    assert MonthIndex(d) == 3 * (4 * d.year + d.month / 3 - 1) + 2;
  }

  lemma QuarterEndOf(start: Date)
    requires start.Valid()
    ensures var r := QuarterEnd(start);
      && r.month % 3 == 0 && MonthIndex(r) % 3 == 2 && !NextInMonth(r)
      && MonthIndex(start) <= MonthIndex(r) <= MonthIndex(start) + 2
  {
    hide Date.Ord;
    QuarterIndex(QuarterEnd(start));
  }

  lemma BeforeStop(run: seq<int>, stop: int, n: nat)
    requires forall k :: 0 <= k < |run| - 1 ==> run[k] < stop
    ensures n < |run| - 1 ==> run[n] < stop
  {}

  /** A run up to the stop date is as long as the months say. */
  lemma RunLength(run: seq<int>, period: Period, first: int, stop: int, n: nat)
    requires run != [] && forall k :: 0 <= k < |run| ==> run[k] == MonthStop(NthMonth(period, first, k))
    requires (forall k :: 0 <= k < |run| - 1 ==> run[k] < stop) && stop <= run[|run| - 1]
    requires n > 0 ==> MonthStop(NthMonth(period, first, n - 1)) < stop
    requires stop <= MonthStop(NthMonth(period, first, n))
    ensures |run| == n + 1
  {
    hide MonthStop;
    BeforeStop(run, stop, n);
    if |run| < n + 1 {
      var k := |run| - 1;
      if k < n - 1 {
        MonthsGrow(NthMonth(period, first, k), NthMonth(period, first, n - 1));
      }
    }
  }

  /** The stop date of an asset over years or a number of months or quarters lies in this
      month, counted from the month it starts in; on its last day if that is the last month
      of a full period. */
  lemma StopMonth(a: Asset, start: Date)
    requires a.Valid() && start.Valid() && a.number > 0
    requires a.time == Years || (a.time == Number && a.period == Monthly)
    ensures var s, stop := MonthIndex(start), StopDate(a, start).Ord();
      var months := if a.time == Years then 12 * a.number else a.number;
      if start.day == 1 then stop == MonthStop(s + months - 1)
      else MonthStop(s + months - 1) < stop <= MonthStop(s + months)
  {
    hide Date.Ord, MonthStart, MonthStop;
    var months := if a.time == Years then 12 * a.number else a.number;
    var e := AddMonths(start, months);
    var s := MonthIndex(start);
    assert StopDate(a, start) == PrevDay(e);
    MonthOf(e);
    MonthsGrow(s + months - 1, s + months);
    StartOfMonth(e);
  }

  lemma StartOfMonth(d: Date)
    requires d.Valid()
    ensures d.day > 1 ==> MonthStart(MonthIndex(d)) < d.Ord()
  {
    OrdInMonth(d);
  }

  /** The posting dates of an asset posted monthly or quarterly: the last days of months,
      or of the months that end a quarter, one after the other without a gap, from the first
      that does not end before the start.  Only a last date set to the stop date may differ.
      An asset with a number of entries has exactly that many; one over a number of years has
      12 or 4 a year, and one more if it does not start on the first day of a period. */
  lemma PostingMonths(a: Asset, fys: seq<FiscalYear>) returns (first: int)
    requires a.Valid() && ValidYears(fys) && (a.number > 0 || a.time == End) && a.period != Yearly
    requires FrameOf(a, fys).Ok?
    ensures var f := FrameOf(a, fys).value;
      && f.start <= MonthStop(first) && MonthStop(NthMonth(a.period, first, -1)) < f.start
      && (a.period == Quarterly ==> first % 3 == 2)
      && (forall k :: 0 <= k < |f.dates| && (k < |f.dates| - 1 || !a.daysCalc) ==>
            f.dates[k] == MonthStop(NthMonth(a.period, first, k)))
      && (a.time == Number ==> |f.dates| == a.number)
      && (a.time == Years ==>
            |f.dates| == a.number * (if a.period == Quarterly then 4 else 12)
              + if f.start == MonthStart(first - PeriodMonths(a.period) + 1) then 0 else 1)
  {
    hide Date.Ord, Spans, FirstYear, StartDate, StopDate, FirstDate, DateRun, LineDates, MonthStop, MonthStart, Months,
      RunOf;
    var f := FrameOf(a, fys).value;
    var year := FirstYear(a, fys).value;
    var start := StartDate(a, year);
    StopAfterStart(a, year);
    SpansTile(fys, a.period, f.stop, year);
    FirstPosting(a.period, f.spans, start);
    first := MonthIndex(FirstDate(a.period, f.spans, start));
    var run := DateRun(a.period, f.spans, f.stop, FirstDate(a.period, f.spans, start), 1);
    DatesOfRun(a, f.spans, start, f.stop, first);
    if a.time != End {
      RunOfAsset(a, f.spans, start, first);
      if a.time == Number {
        NumberRun(a, start, run, first);
      } else {
        YearsRun(a, start, run, first);
      }
    }
  }

  /** The dates used are those of the run, but for a last one set to the stop date or left
      out. */
  lemma DatesOfRun(a: Asset, spans: seq<Span>, start: Date, stop: int, first: int)
    requires start.Valid() && Tiles(spans, stop) && |spans| > 0 && a.period != Yearly
    requires first == MonthIndex(FirstDate(a.period, spans, start))
    ensures var run := DateRun(a.period, spans, stop, FirstDate(a.period, spans, start), 1);
      var dates := LineDates(a, spans, start, stop);
      && (forall k :: 0 <= k < |dates| && (k < |dates| - 1 || !a.daysCalc) ==>
            dates[k] == MonthStop(NthMonth(a.period, first, k)))
      && |dates| == if a.time == Number && |run| == a.number + 1 then |run| - 1 else |run|
  {
    hide Date.Ord, MonthStop, DateRun, FirstDate;
    FirstPosting(a.period, spans, start);
    RunMonths(a.period, spans, stop, FirstDate(a.period, spans, start), 1);
  }

  lemma RunOfAsset(a: Asset, spans: seq<Span>, start: Date, first: int)
    requires a.Valid() && start.Valid() && a.number > 0 && a.period != Yearly
    requires Tiles(spans, StopDate(a, start).Ord()) && |spans| > 0
    requires first == MonthIndex(FirstDate(a.period, spans, start))
    ensures var run := DateRun(a.period, spans, StopDate(a, start).Ord(), FirstDate(a.period, spans, start), 1);
      RunOf(a, start, run, first)
  {
    hide Date.Ord, MonthStop, DateRun, FirstDate, StopDate;
    var line, stop := FirstDate(a.period, spans, start), StopDate(a, start).Ord();
    FirstPosting(a.period, spans, start);
    RunMonths(a.period, spans, stop, line, 1);
    RunReaches(a.period, spans, stop, line, 1);
  }

  /** What the lemmas below know of the run of an asset's dates. */
  ghost predicate RunOf(a: Asset, start: Date, run: seq<int>, first: int)
    requires a.Valid() && start.Valid()
  {
    && a.period != Yearly && a.number > 0 && run != []
    && (forall k :: 0 <= k < |run| ==> run[k] == MonthStop(NthMonth(a.period, first, k)))
    && (forall k :: 0 <= k < |run| - 1 ==> run[k] < StopDate(a, start).Ord())
    && StopDate(a, start).Ord() <= run[|run| - 1]
    && (a.period == Quarterly ==> first % 3 == 2)
    && MonthIndex(start) <= first <= MonthIndex(start) + PeriodMonths(a.period) - 1
  }

  lemma NumberRun(a: Asset, start: Date, run: seq<int>, first: int)
    requires a.Valid() && start.Valid() && RunOf(a, start, run, first) && a.time == Number
    ensures |run| == a.number || |run| == a.number + 1
  {
    hide Date.Ord, MonthStop, MonthStart, StopDate;
    var stop := StopDate(a, start).Ord();
    if a.period == Monthly {
      StopMonth(a, start);
      var n := if start.day == 1 then a.number - 1 else a.number;
      if start.day == 1 && n > 0 {
        MonthsGrow(first + n - 1, first + n);
      }
      RunLength(run, Monthly, first, stop, n);
    } else {
      QuarterStop(a, start);
      QuarterEndOf(start);
      assert first == MonthIndex(QuarterEnd(start));
      MonthsGrow(first + 3 * a.number - 3, first + 3 * a.number - 2);
      MonthsGrow(first + 3 * a.number - 1, first + 3 * a.number);
      RunLength(run, Quarterly, first, stop, a.number);
    }
  }

  /** For a number of quarters, it lies two months after the last posting date. */
  lemma QuarterStop(a: Asset, start: Date)
    requires a.Valid() && start.Valid() && a.time == Number && a.period == Quarterly && a.number > 0
    ensures var m := MonthIndex(QuarterEnd(start)) + 3 * a.number - 1;
      MonthStop(m - 1) < StopDate(a, start).Ord() <= MonthStop(m)
  {
    hide Date.Ord, MonthStart, MonthStop;
    var q := QuarterEnd(start);
    QuarterEndOf(start);
    var e := AddMonths(q, 3 * a.number - 1);
    var m := MonthIndex(e);
    MonthOf(e);
    MonthsGrow(m - 1, m);
    LateInMonth(q);
    StartOfMonth(e);
    assert StopDate(a, start) == PrevDay(e);
  }

  lemma LateInMonth(d: Date)
    requires d.Valid() && !NextInMonth(d)
    ensures d.day >= 28
  {}

  lemma YearsRun(a: Asset, start: Date, run: seq<int>, first: int)
    requires a.Valid() && start.Valid() && RunOf(a, start, run, first) && a.time == Years
    ensures |run| == a.number * (if a.period == Quarterly then 4 else 12)
      + if start.Ord() == MonthStart(first - PeriodMonths(a.period) + 1) then 0 else 1
  {
    hide Date.Ord, MonthStop, MonthStart, StopDate;
    var stop, s, months := StopDate(a, start).Ord(), MonthIndex(start), 12 * a.number;
    StopMonth(a, start);
    MonthOf(start);
    StartOfMonth(start);
    if s < first - PeriodMonths(a.period) + 1 {
      MonthsGrow(s, first - PeriodMonths(a.period) + 1);
    } else if s > first - PeriodMonths(a.period) + 1 {
      MonthsGrow(first - PeriodMonths(a.period) + 1, s);
    }
    var full := start.Ord() == MonthStart(first - PeriodMonths(a.period) + 1);
    var per := if a.period == Quarterly then 4 * a.number else 12 * a.number;
    var n := if full then per - 1 else per;
    YearsStop(s, months, start.day == 1, stop, NthMonth(a.period, first, n - 1), NthMonth(a.period, first, n));
    RunLength(run, a.period, first, stop, n);
  }

  /** The stop date against the end of a month before and one not before it. */
  lemma YearsStop(s: int, months: int, early: bool, stop: int, m: int, k: int)
    requires if early then stop == MonthStop(s + months - 1)
             else MonthStop(s + months - 1) < stop <= MonthStop(s + months)
    ensures m < s + months - (if early then 1 else 0) ==> MonthStop(m) < stop
    ensures s + months - (if early then 1 else 0) <= k ==> stop <= MonthStop(k)
  {
    hide MonthStop;
    var last := s + months - 1;
    if m < last {
      MonthsGrow(m, last);
    }
    if last < k {
      MonthsGrow(last, k);
    }
    if last + 1 < k {
      MonthsGrow(last + 1, k);
    }
  }

  lemma {:induction false} StepBackIs(start: Date, day: int) returns (n: nat)
    requires start.Valid()
    ensures var r := StepBack(start, day);
      && r.year == start.year - n && r.month == start.month && r.Ord() <= day
      && (r.day == start.day || (start.month == 2 && start.day == 29 && r.day == 28))
      && (n > 0 ==> day <= AddYears(r, 1).Ord())
    decreases start.Ord() - day
  {
    YearAndBack(start);
    LaterMonth(AddYears(start, -1), start);
    if day < start.Ord() {
      var back := AddYears(start, -1);
      BackMonth(start);
      hide Date.Ord, AddYears;
      n := StepBackIs(back, day);
      n := n + 1;
    } else {
      n := 0;
    }
  }

  lemma BackMonth(start: Date)
    requires start.Valid()
    ensures var back := AddYears(start, -1);
      && back.year == start.year - 1 && back.month == start.month
      && (back.day == start.day || (start.month == 2 && start.day == 29 && back.day == 28))
  {
    assert MonthIndex(start) == 12 * start.year + start.month - 1;
  }

  /** The year the asset starts in.  If its start date lies in a defined year, it is one of
      those.  Otherwise it is the year, counted back in whole years from the defined year that
      ends first, whose start is the last not after the start date; and there is none if that
      defined year starts before the start date, or no year is defined. */
  lemma FirstYearIs(a: Asset, fys: seq<FiscalYear>)
    requires a.Valid() && ValidYears(fys)
    ensures var r, day := FirstYear(a, fys), a.dateStart.Ord();
      && (r.Err? <==> ((forall fy :: fy in fys ==> !fy.Contains(day)) &&
                       (fys == [] || Earliest(fys).start.Ord() < day)))
      && (r.Ok? ==>
            var year := r.value;
            && year.Valid()
            && (year.fy.Some? ==>
                  year.fy.value in fys && year.fy.value.Contains(day) && year.start == year.fy.value.start
                  && year.stop == year.fy.value.stop && year.init == year.fy.value.done)
            && (year.fy.None? ==>
                  && (forall fy :: fy in fys ==> !fy.Contains(day)) && year.init && fys != []
                  && CountedBack(year.start, Earliest(fys).start)
                  && year.start.Ord() <= day <= year.stop.Ord() + 1
                  && year.stop.Ord() + 1 == AddYears(year.start, 1).Ord()))
  {
    hide Date.Ord, AddYears;
    var day := a.dateStart.Ord();
    FoundIn(fys, day);
    if Find(fys, day).None? && fys != [] && day <= Earliest(fys).start.Ord() {
      var n := StepBackIs(Earliest(fys).start, day);
    }
  }

  /** The date some whole years before another, on the 28th where the 29th is missing. */
  ghost predicate CountedBack(d: Date, from: Date) {
    && d.year <= from.year && d.month == from.month
    && (d.day == from.day || (from.month == 2 && from.day == 29 && d.day == 28))
  }

  /** The first and last day of an asset's life.  A pro rata asset starts on its start date,
      any other on the first of the month its first fiscal year starts in.  It ends on its
      ending date, or the day before as many whole years are over as it has. */
  lemma FrameLife(a: Asset, fys: seq<FiscalYear>) returns (start: Date)
    requires a.Valid() && ValidYears(fys) && (a.number > 0 || a.time == End) && FrameOf(a, fys).Ok?
    ensures var f := FrameOf(a, fys).value;
      && start.Valid() && start.Ord() == f.start && f.spans != [] && f.spans[0].Valid()
      && (if a.prorata then start == a.dateStart
          else start.day == 1 && MonthIndex(start) == MonthIndex(f.spans[0].start))
      && (a.time == End ==> f.stop == a.end.Ord())
      && (a.time == Years || (a.time == Number && a.period == Yearly) ==>
            f.stop + 1 == AddYears(start, a.number).Ord())
  {
    hide Date.Ord, Spans, FirstYear, LineDates, AddMonths;
    var f := FrameOf(a, fys).value;
    var year := FirstYear(a, fys).value;
    start := StartDate(a, year);
    StopAfterStart(a, year);
    SpansTile(fys, a.period, f.stop, year);
  }

  /** The fiscal years after the first.  Each is the defined one its first day lies in, if
      there is one.  With yearly posting a defined year ends where it is defined to, and is
      an initial-balance year if it is closed; any other ends a calendar year after the one
      before, and is an initial-balance year only if that is one and none is defined. */
  lemma {:induction false} SpansFollow(fys: seq<FiscalYear>, period: Period, stop: int, cur: Span, k: nat)
    requires ValidYears(fys) && cur.Valid() && 0 < k < |Spans(fys, period, stop, cur)|
    ensures var spans := Spans(fys, period, stop, cur);
      var (year, before) := (spans[k], spans[k - 1]);
      && year.Valid() && before.Valid()
      && (year.fy.Some? ==> year.fy.value in fys && year.fy.value.Contains(year.start.Ord()))
      && (year.fy.None? ==> forall fy :: fy in fys ==> !fy.Contains(year.start.Ord()))
      && year.start.Ord() == before.stop.Ord() + 1
      && (if year.fy.Some? && period == Yearly then
            year.stop == year.fy.value.stop && year.init == year.fy.value.done
          else
            year.stop == AddYears(before.stop, 1) && (year.init <==> year.fy.None? && before.init))
    decreases k
  {
    hide Date.Ord, AddYears;
    var next := Following(fys, period, cur);
    var rest := Spans(fys, period, stop, next);
    assert Spans(fys, period, stop, cur) == [cur] + rest;
    if k == 1 {
      FoundIn(fys, next.start.Ord());
    } else {
      SpansFollow(fys, period, stop, next, k - 1);
    }
  }

  lemma {:induction false} FoundIn(fys: seq<FiscalYear>, day: int)
    requires ValidYears(fys)
    ensures Find(fys, day).Some? ==> Find(fys, day).value in fys
    ensures Find(fys, day).None? ==> forall fy :: fy in fys ==> fy.Valid() && !fy.Contains(day)
  {
    if fys != [] && !fys[0].Contains(day) {
      FoundIn(fys[1..], day);
    }
  }
}
