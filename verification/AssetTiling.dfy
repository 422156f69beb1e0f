/** Where the lines of the table fall: each year takes a stretch of the posting
    dates, in order. */
module AssetTiling {
  import opened Outcome
  import opened AssetTypes
  import opened AssetDates
  import opened AssetAmounts
  import opened AssetLines
  import opened AssetConservation
  import opened AssetBoard
  import opened BoardStability

  /** The lines so far are those of the first dates, counted day by day from
      `prev`. */
  ghost predicate Dated(y: Year, dates: seq<int>, run: Run, prev: int) {
    && |run.lines| <= |dates|
    && (forall k :: 0 <= k < |run.lines| ==> DatedLine(y, dates, k, run.lines[k], prev))
    && run.prev == (if run.lines == [] then prev else dates[|run.lines| - 1] + 1)
  }

  ghost predicate DatedLine(y: Year, dates: seq<int>, k: nat, line: Line, prev: int)
    requires k < |dates|
  {
    && line.date == dates[k]
    && line.days == dates[k] - (if k == 0 then prev else dates[k - 1] + 1) + 1
    && (Final(y, dates, k) || dates[k] <= MinInt(y.row.stop, y.stop))
    && (y.row.dayAmount > 0
      ==> if Final(y, dates, k) then line.remaining == 0 else line.amount == line.days * y.row.dayAmount)
  }

  lemma AddLineDated(y: Year, dates: seq<int>, li: nat, run: Run, prev: int)
    requires li < |dates| && li == |run.lines| && Dated(y, dates, run, prev) && !Breaks(y, dates, li, run)
    ensures Dated(y, dates, AddLine(y, dates, li, run), prev)
  {
    var next := AddLine(y, dates, li, run);
    forall k | 0 <= k < |next.lines|
      ensures DatedLine(y, dates, k, next.lines[k], prev)
    {
      if k < li {
        assert next.lines[k] == run.lines[k];
      }
    }
  }

  /** The year takes the first dates of those left.  It hands the rest on, starting
      with the first date it did not take; only a year that takes all of them
      hands on the last one again. */
  lemma {:induction false} WalkDated(y: Year, dates: seq<int>, li: nat, run: Run, prev: int)
    requires li < |dates| && li == |run.lines| && Dated(y, dates, run, prev)
    ensures var (r, end) := Walk(y, dates, li, run);
      && Dated(y, dates, r, prev)
      && ((|r.lines| == end && Breaks(y, dates, end, r)) || |r.lines| == |dates| == end + 1)
    decreases |dates| - li
  {
    hide Dated, Breaks;
    if !Breaks(y, dates, li, run) {
      AddLineDated(y, dates, li, run, prev);
      assert |AddLine(y, dates, li, run).lines| == li + 1;
      if li < |dates| - 1 {
        WalkDated(y, dates, li + 1, AddLine(y, dates, li, run), prev);
      }
    }
  }

  lemma SpreadOneDated(y: Year, dates: seq<int>, start: int, remaining: int, depreciated: int)
    requires |dates| > 0 && SpreadOne(y, dates, start, remaining, depreciated).0.Ok?
    ensures var (r, end) := SpreadOne(y, dates, start, remaining, depreciated);
      var lines := r.value.lines;
      && |lines| <= |dates| && (|lines| == end || |lines| == |dates| == end + 1)
      && forall k :: 0 <= k < |lines| ==> DatedLine(y, dates, k, lines[k], MaxInt(y.row.start, start))
  {
    hide Walk;
    var first := Start(y, start, remaining, depreciated);
    WalkDated(y, dates, 0, first, MaxInt(y.row.start, start));
    var (walked, end) := Walk(y, dates, 0, first);
    var lines := Settle(y, walked).value.lines;
    forall k | 0 <= k < |lines|
      ensures DatedLine(y, dates, k, lines[k], MaxInt(y.row.start, start))
    {
      assert DatedLine(y, dates, k, walked.lines[k], MaxInt(y.row.start, start));
      assert lines[k].date == walked.lines[k].date && lines[k].days == walked.lines[k].days;
    }
  }

  ghost predicate EndsOnPosting(e: Entry) {
    e.lines != [] && e.lines[|e.lines| - 1].date == e.row.stop
  }

  /** Every year of the table but the last one ends on its last posting date. */
  ghost predicate YearsEndOnPosting(table: seq<Entry>) {
    forall i :: 0 <= i < |table| - 1 ==> EndsOnPosting(table[i])
  }

  ghost predicate RowsTile(rows: seq<Row>, stop: int) {
    && (forall i :: 0 <= i < |rows| ==> rows[i].start <= rows[i].stop && rows[i].start <= stop)
    && (forall i :: 0 < i < |rows| ==> rows[i].start == rows[i - 1].stop + 1)
  }

  /** Posting dates: only the last may reach the stop date. */
  ghost predicate Posting(dates: seq<int>, stop: int) {
    && |dates| > 0 && Increasing(dates)
    && (forall k :: 0 <= k < |dates| - 1 ==> dates[k] < stop)
  }

  /** The year has one line on each of the first dates, and hands on those from `li`.  Only
      the last line of the last year lies beyond its year. */
  ghost predicate TakesFirst(e: Entry, dates: seq<int>, li: nat, last: bool) {
    && 0 < |e.lines| <= |dates| && (|e.lines| == li < |dates| || |e.lines| == |dates| == li + 1)
    && forall k :: 0 <= k < |e.lines| ==>
         e.lines[k].date == dates[k] && (k < |e.lines| - 1 || !last ==> dates[k] <= e.row.stop)
  }

  lemma YearTakes(a: Asset, rows: seq<Row>, i: nat, start: int, stop: int, dates: seq<int>, remaining: int,
      depreciated: int)
    requires i < |rows| && |dates| > 0
    requires var settled := SpreadOne(YearAt(a, rows, i, stop), dates, start, remaining, depreciated).0;
      settled.Ok? && settled.value.lines != []
    ensures var (settled, li) := SpreadOne(YearAt(a, rows, i, stop), dates, start, remaining, depreciated);
      TakesFirst(Finish(rows[i], settled.value.lines), dates, li, i == |rows| - 1)
  {
    hide SpreadOne;
    var y := YearAt(a, rows, i, stop);
    SpreadOneDated(y, dates, start, remaining, depreciated);
    var lines := SpreadOne(y, dates, start, remaining, depreciated).0.value.lines;
    forall k | 0 <= k < |lines|
      ensures lines[k].date == dates[k] && (k < |lines| - 1 || !y.last ==> dates[k] <= rows[i].stop)
    {
      assert DatedLine(y, dates, k, lines[k], MaxInt(rows[i].start, start));
    }
  }

  ghost predicate Bounded(lines: seq<Line>, low: int, high: int) {
    forall p :: 0 <= p < |lines| ==> low <= lines[p].date <= high
  }

  /** A table over the dates, in the shape every table has. */
  ghost predicate LaidOn(table: seq<Entry>, dates: seq<int>) {
    table != [] ==>
      && Filled(table) && Contiguous(table) && WithinStops(table)
      && Rises(Flatten(table), LastDate(table))
      && dates != [] && Bounded(Flatten(table), dates[0], dates[|dates| - 1])
      && table[0].lines[0].date == dates[0]
  }

  lemma RisesConcat(x: seq<Line>, z: seq<Line>, lastDate: int)
    requires Rises(z, lastDate)
    requires forall p :: 0 <= p < |x| ==> x[p].date <= lastDate
    requires forall p, q :: 0 <= p < q < |x| ==> x[p].date < x[q].date
    requires forall p, q :: 0 <= p < |x| && 0 <= q < |z| ==>
      x[p].date < z[q].date || x[p].date == z[q].date == lastDate
    ensures Rises(x + z, lastDate)
  {
    var all := x + z;
    forall p, q | 0 <= p < q < |all|
      ensures all[p].date < all[q].date || all[p].date == all[q].date == lastDate
    {
      if p < |x| <= q {
        assert all[p] == x[p] && all[q] == z[q - |x|];
      }
    }
  }

  lemma FlattenCons(e: Entry, rest: seq<Entry>)
    ensures Flatten([e] + rest) == e.lines + Flatten(rest)
  {
    assert ([e] + rest)[1..] == rest;
  }

  lemma WithinCons(e: Entry, rest: seq<Entry>, dates: seq<int>, li: nat, last: bool)
    requires TakesFirst(e, dates, li, last) && e.row.start <= e.row.stop
    requires Filled(rest) && Contiguous(rest) && WithinStops(rest)
    requires rest != [] ==> !last && rest[0].row.start == e.row.stop + 1
    ensures var table := [e] + rest; Filled(table) && Contiguous(table) && WithinStops(table)
  {
    var table := [e] + rest;
    assert forall k :: 0 < k < |table| ==> table[k] == rest[k - 1];
    forall i, j | 0 <= i < |table| && 0 <= j < |table[i].lines| && (i < |table| - 1 || j < |table[i].lines| - 1)
      ensures table[i].lines[j].date <= table[i].row.stop
    {
      if i > 0 {
        assert rest[i - 1].lines[j].date <= rest[i - 1].row.stop;
      }
    }
  }

  /** The lines of a year and those of the years after it. */
  lemma RisesCons(e: Entry, rest: seq<Entry>, dates: seq<int>, li: nat, last: bool)
    requires TakesFirst(e, dates, li, last) && Increasing(dates) && rest != [] && LaidOn(rest, dates[li..])
    ensures Filled(rest) && Rises(e.lines + Flatten(rest), LastDate(rest))
    ensures Bounded(e.lines + Flatten(rest), dates[0], dates[|dates| - 1])
  {
    hide WithinStops, Contiguous, Rises;
    var lines, later := e.lines, Flatten(rest);
    FlattenEnd(rest);
    assert forall p, q :: 0 <= p < q < |lines| ==> dates[p] < dates[q];
    assert dates[li..][|dates| - li - 1] == dates[|dates| - 1] && dates[li..][0] == dates[li];
    forall p, q | 0 <= p < |lines| && 0 <= q < |later|
      ensures lines[p].date < later[q].date || lines[p].date == later[q].date == LastDate(rest)
    {
      assert dates[li] <= later[q].date;
      assert p < li ==> dates[p] < dates[li];
    }
    RisesConcat(lines, later, LastDate(rest));
  }

  lemma {:induction false} FlattenEnd(table: seq<Entry>)
    requires table != [] && Filled(table)
    ensures Flatten(table) != []
    ensures var last := table[|table| - 1].lines; Flatten(table)[|Flatten(table)| - 1] == last[|last| - 1]
  {
    if |table| == 1 {
      assert Flatten(table[1..]) == [];
    } else {
      FlattenEnd(table[1..]);
    }
  }

  lemma LaidCons(e: Entry, rest: seq<Entry>, dates: seq<int>, li: nat, last: bool)
    requires TakesFirst(e, dates, li, last) && Increasing(dates) && e.row.start <= e.row.stop
    requires rest != [] ==> !last && LaidOn(rest, dates[li..]) && rest[0].row.start == e.row.stop + 1
    ensures LaidOn([e] + rest, dates)
  {
    if rest == [] {
      assert [e] + rest == [e];
      LaidAlone(e, dates, li, last);
    } else {
      FlattenCons(e, rest);
      RisesCons(e, rest, dates, li, last);
      WithinCons(e, rest, dates, li, last);
      hide Flatten, Contiguous, WithinStops, Rises, Bounded, Increasing;
      assert ([e] + rest)[|rest|] == rest[|rest| - 1];
    }
  }

  lemma LaidAlone(e: Entry, dates: seq<int>, li: nat, last: bool)
    requires TakesFirst(e, dates, li, last) && Increasing(dates) && e.row.start <= e.row.stop
    ensures LaidOn([e], dates)
  {
    assert [e][1..] == [] && Flatten([e]) == e.lines + [] == e.lines;
    hide Flatten;
    assert forall p, q :: 0 <= p < q < |e.lines| ==> dates[p] < dates[q];
  }

  /** Every table is laid out over contiguous years, on rising dates. */
  lemma {:induction false} SpreadLaid(a: Asset, rows: seq<Row>, i: nat, start: int, stop: int, dates: seq<int>,
                                      remaining: int, depreciated: int)
    requires i <= |rows| && RowsTile(rows, stop) && |dates| > 0 && Increasing(dates)
    requires Spread(a, rows, i, start, stop, dates, remaining, depreciated).Ok?
    ensures var table := Spread(a, rows, i, start, stop, dates, remaining, depreciated).value;
      LaidOn(table, dates) && (table != [] ==> i < |rows| && table[0].row.start == rows[i].start)
    decreases |rows| - i
  {
    hide SpreadOne, LaidOn, TakesFirst;
    var table := Spread(a, rows, i, start, stop, dates, remaining, depreciated).value;
    if table == [] {
      LaidNone(dates);
    } else {
      var (settled, li) := SpreadOne(YearAt(a, rows, i, stop), dates, start, remaining, depreciated);
      var run := settled.value;
      YearTakes(a, rows, i, start, stop, dates, remaining, depreciated);
      IncreasingFrom(dates, li);
      SpreadLaid(a, rows, i + 1, start, stop, dates[li..], run.remaining, run.depreciated);
      var rest := Spread(a, rows, i + 1, start, stop, dates[li..], run.remaining, run.depreciated).value;
      LaidCons(Finish(rows[i], run.lines), rest, dates, li, i == |rows| - 1);
    }
  }

  lemma LaidNone(dates: seq<int>)
    ensures LaidOn([], dates)
  {}

  lemma IncreasingFrom(dates: seq<int>, li: nat)
    requires Increasing(dates) && li <= |dates|
    ensures Increasing(dates[li..])
  {}

  /* ---- years that hand on no date of their own ---- */

  /** What the table hands on after a year: dates after the year, or only the last one. */
  ghost predicate HandsOnLater(dates: seq<int>, li: nat, yearStop: int)
    requires li < |dates|
  {
    yearStop < dates[li] || li == |dates| - 1
  }

  lemma InYearsCons(e: Entry, rest: seq<Entry>, dates: seq<int>, li: nat)
    requires e.lines != [] && li < |dates|
    requires rest != [] ==> LaidOn(rest, dates[li..]) && rest[0].row.start == e.row.stop + 1 && InYears(rest)
    requires rest != [] ==> HandsOnLater(dates, li, e.row.stop)
    ensures Filled([e] + rest) && InYears([e] + rest)
  {
    hide Contiguous, WithinStops, Rises;
    var table := [e] + rest;
    assert forall k :: 0 < k < |table| ==> table[k] == rest[k - 1];
    if rest != [] {
      FlattenEnd(rest);
    }
  }

  /** No year is settled: periods of equal entries, or amounts by days. */
  ghost predicate NeverSettled(a: Asset, rows: seq<Row>) {
    a.way != DegressiveLinear && (a.time == Years ==> forall k :: 0 <= k < |rows| ==> rows[k].dayAmount != 0)
  }

  lemma NothingLeftNothingMore(a: Asset, rows: seq<Row>, i: nat, start: int, stop: int, dates: seq<int>,
      depreciated: int)
    requires i <= |rows| && |dates| > 0 && NeverSettled(a, rows)
    ensures var r := Spread(a, rows, i, start, stop, dates, 0, depreciated);
      r == (if i < |rows| - 1 then Err(NoLineForYear) else Ok([]))
  {}

  /** When no year is settled, one that is followed by another takes all of its dates: had it
      used up everything before, there would be nothing for the next. */
  lemma UnsettledHandsOn(a: Asset, rows: seq<Row>, i: nat, start: int, stop: int, dates: seq<int>, remaining: int,
      depreciated: int)
    requires i < |rows| && RowsTile(rows, stop) && |dates| > 0 && NeverSettled(a, rows)
    requires Spread(a, rows, i, start, stop, dates, remaining, depreciated).Ok?
    ensures var table := Spread(a, rows, i, start, stop, dates, remaining, depreciated).value;
      var li := SpreadOne(YearAt(a, rows, i, stop), dates, start, remaining, depreciated).1;
      |table| > 1 ==> rows[i].stop < dates[li] || |table[0].lines| == |dates| == li + 1
  {
    hide Walk, Spread, Dated;
    var y := YearAt(a, rows, i, stop);
    var first := Start(y, start, remaining, depreciated);
    DatedNone(y, dates, first, MaxInt(rows[i].start, start));
    WalkDated(y, dates, 0, first, MaxInt(rows[i].start, start));
    var (run, li) := Walk(y, dates, 0, first);
    assert SpreadOne(y, dates, start, remaining, depreciated) == (Ok(run), li);
    SpreadNext(a, rows, i, start, stop, dates, remaining, depreciated);
    NothingLeftNothingMore(a, rows, i + 1, start, stop, dates[li..], run.depreciated);
    assert i + 1 < |rows| ==> rows[i + 1].start == rows[i].stop + 1;
  }

  lemma DatedNone(y: Year, dates: seq<int>, run: Run, prev: int)
    requires run.lines == [] && run.prev == prev
    ensures Dated(y, dates, run, prev)
  {}

  lemma SpreadNext(a: Asset, rows: seq<Row>, i: nat, start: int, stop: int, dates: seq<int>, remaining: int,
      depreciated: int)
    requires i < |rows| && |dates| > 0 && Spread(a, rows, i, start, stop, dates, remaining, depreciated).Ok?
    ensures var table := Spread(a, rows, i, start, stop, dates, remaining, depreciated).value;
      var (settled, li) := SpreadOne(YearAt(a, rows, i, stop), dates, start, remaining, depreciated);
      && settled.Ok?
      && (table != [] ==>
            && settled.value.lines != []
            && var rest := Spread(a, rows, i + 1, start, stop, dates[li..], settled.value.remaining,
              settled.value.depreciated);
            && rest.Ok? && table == [Finish(rows[i], settled.value.lines)] + rest.value
            && (rest.value != [] ==> i + 1 < |rows|))
  {
    hide SpreadOne;
  }

  lemma {:induction false} SpreadInYears(a: Asset, rows: seq<Row>, i: nat, start: int, stop: int, dates: seq<int>,
                                         remaining: int, depreciated: int)
    requires i <= |rows| && RowsTile(rows, stop) && |dates| > 0 && Increasing(dates) && NeverSettled(a, rows)
    requires Spread(a, rows, i, start, stop, dates, remaining, depreciated).Ok?
    ensures var table := Spread(a, rows, i, start, stop, dates, remaining, depreciated).value;
      Filled(table) && InYears(table)
    decreases |rows| - i
  {
    hide SpreadOne, LaidOn, InYears, NeverSettled;
    var table := Spread(a, rows, i, start, stop, dates, remaining, depreciated).value;
    if table == [] {
      InYearsNone();
    } else {
      SpreadNext(a, rows, i, start, stop, dates, remaining, depreciated);
      UnsettledHandsOn(a, rows, i, start, stop, dates, remaining, depreciated);
      var (settled, li) := SpreadOne(YearAt(a, rows, i, stop), dates, start, remaining, depreciated);
      var run := settled.value;
      IncreasingFrom(dates, li);
      SpreadLaid(a, rows, i + 1, start, stop, dates[li..], run.remaining, run.depreciated);
      SpreadInYears(a, rows, i + 1, start, stop, dates[li..], run.remaining, run.depreciated);
      var rest := Spread(a, rows, i + 1, start, stop, dates[li..], run.remaining, run.depreciated).value;
      InYearsCons(Finish(rows[i], run.lines), rest, dates, li);
    }
  }

  lemma InYearsNone()
    ensures InYears([])
  {}

  /** Years that end on posting dates hand on no date of their own. */
  lemma AlignedInYears(table: seq<Entry>)
    requires table != [] && Laid(table) && YearsEndOnPosting(table)
    ensures Filled(table) && InYears(table)
  {
    assert Filled(table) && Contiguous(table);
    hide Laid, LastDate;
    forall i | 0 < i < |table|
      ensures table[i].row.start <= table[i].lines[0].date || table[i].lines[0].date == LastDate(table)
    {
      assert EndsOnPosting(table[i - 1]);
      var n := |table[i - 1].lines|;
      if table[i - 1].lines[n - 1].date < LastDate(table) {
        LinesOrdered(table, i - 1, n - 1, i, 0);
      } else {
        NotAfterLast(table, i - 1, n - 1, i, 0);
        LastIsLast(table, i, 0);
      }
    }
  }

  lemma LastIsLast(table: seq<Entry>, i: nat, j: nat)
    requires table != [] && Laid(table) && i < |table| && j < |table[i].lines|
    ensures table[i].lines[j].date <= LastDate(table)
  {
    hide Items, Offset, ItemsFrom, LastDate;
    ItemsRise(table);
    ItemAt(table, i, j);
  }

  lemma EndsCons(e: Entry, rest: seq<Entry>)
    requires YearsEndOnPosting([e] + rest)
    ensures rest != [] ==> EndsOnPosting(e)
    ensures YearsEndOnPosting(rest)
  {
    var table := [e] + rest;
    assert table[0] == e;
    assert forall k :: 0 <= k < |rest| ==> rest[k] == table[k + 1];
  }
}
