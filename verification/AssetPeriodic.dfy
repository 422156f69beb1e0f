/** Tables of the year method: when they are computed, and when each year takes all of its
    posting dates. */
module AssetPeriodic {
  import opened Calendar
  import opened Outcome
  import opened AssetTypes
  import opened AssetDates
  import opened AssetAmounts
  import opened AssetLines
  import opened AssetConservation
  import opened AssetBoard
  import opened BoardStability
  import opened AssetTiling
  import opened AssetTable
  import opened AssetTheorems
  import opened AssetYearly

  /* ---- one year ---- */

  /** What the first `j` lines of a year take before it is settled. */
  function Used(y: Year, dates: seq<int>, j: nat): int {
    if j == 0 then 0
    else (if y.first then FirstPeriodAmount(y, dates) else y.row.periodAmount) + (j - 1) * y.row.periodAmount
  }

  /** After `j` lines the year takes no more: nothing is left, or the degressive-linear
      amount is used up. */
  predicate StopsAt(y: Year, dates: seq<int>, remaining: int, j: nat) {
    || Used(y, dates, j) == remaining
    || (y.a.way == DegressiveLinear && y.a.Sign() * (y.row.fyAmount - Used(y, dates, j)) < 0)
  }

  /** Nothing stops the year before its first `n` lines are taken. */
  predicate TakesAll(y: Year, dates: seq<int>, remaining: int, n: int) {
    forall j: nat :: j < n ==> !StopsAt(y, dates, remaining, j)
  }

  lemma SameDate(dates: seq<int>, p: nat, q: nat)
    requires Increasing(dates) && p <= q < |dates| && dates[q] <= dates[p]
    ensures p == q
  {}

  lemma LaterDate(dates: seq<int>, p: nat, q: nat)
    requires Increasing(dates) && p < |dates| && q < |dates| && dates[p] < dates[q]
    ensures p < q
  {}

  lemma {:induction false} CountIncreasing(dates: seq<int>, stop: int)
    requires Increasing(dates)
    ensures forall k :: 0 <= k < |dates| ==> (dates[k] <= stop <==> k < CountUpTo(dates, stop))
  {
    if dates != [] {
      CountIncreasing(dates[1..], stop);
      assert forall k :: 0 < k < |dates| ==> dates[k] == dates[1..][k - 1];
      if dates[0] > stop {
        NoneUpTo(dates, stop);
      }
    }
  }

  lemma {:induction false} CountConcat(x: seq<int>, z: seq<int>, stop: int)
    ensures CountUpTo(x + z, stop) == CountUpTo(x, stop) + CountUpTo(z, stop)
  {
    if x == [] {
      assert x + z == z;
    } else {
      assert (x + z)[1..] == x[1..] + z;
      CountConcat(x[1..], z, stop);
    }
  }

  /** A year that is not the last takes one line after the other, until it stops or its
      dates end. */
  lemma {:induction false} WalkTakes(y: Year, dates: seq<int>, li: nat, run: Run, remaining: int)
    requires !y.last && y.row.dayAmount == 0 && y.row.stop < y.stop && Increasing(dates)
    requires li <= CountUpTo(dates, y.row.stop) < |dates| && |run.lines| == li
    requires run.check == Used(y, dates, li) == remaining - run.remaining
    ensures var n, taken := CountUpTo(dates, y.row.stop), |Walk(y, dates, li, run).0.lines|;
      && taken <= n
      && (taken == n <==> forall j: nat :: li <= j < n ==> !StopsAt(y, dates, remaining, j))
    decreases |dates| - li
  {
    CountIncreasing(dates, y.row.stop);
    var n := CountUpTo(dates, y.row.stop);
    if li < n {
      assert Breaks(y, dates, li, run) <==> StopsAt(y, dates, remaining, li);
      if !Breaks(y, dates, li, run) {
        var next := AddLine(y, dates, li, run);
        UsedNext(y, dates, li);
        WalkTakes(y, dates, li + 1, next, remaining);
      }
    }
  }

  lemma UsedNext(y: Year, dates: seq<int>, j: nat)
    requires y.row.dayAmount == 0
    ensures forall days :: Used(y, dates, j + 1) == Used(y, dates, j) + LineAmount(y, dates, j, days)
  {}

  lemma {:induction false} WalkGrows(y: Year, dates: seq<int>, li: nat, run: Run)
    requires li < |dates|
    ensures |run.lines| <= |Walk(y, dates, li, run).0.lines|
    decreases |dates| - li
  {
    if !Breaks(y, dates, li, run) && li < |dates| - 1 {
      WalkGrows(y, dates, li + 1, AddLine(y, dates, li, run));
    }
  }

  /** Dates a year can start with: one of its own, or just the one that ends the run. */
  ghost predicate Startable(y: Year, dates: seq<int>) {
    && Posting(dates, y.stop) && dates[|dates| - 1] >= y.stop
    && (!y.last ==> y.row.stop < y.stop)
    && (dates[0] <= y.row.stop || (|dates| == 1 && y.last))
    && y.a.time == Years && y.row.dayAmount == 0
    && (y.a.way == DegressiveLinear ==> y.a.Sign() * y.row.fyAmount >= 0)
  }

  /** Such a year always gets a line, and is settled to its amount. */
  lemma PeriodicYear(y: Year, dates: seq<int>, start: int, base: int, depreciated: int)
    requires Startable(y, dates) && base != depreciated
    ensures var (settled, li) := SpreadOne(y, dates, start, base - depreciated, depreciated);
      && settled.Ok? && settled.value.lines != []
      && settled.value.depreciated == depreciated + y.row.fyAmount
      && settled.value.remaining == base - depreciated - y.row.fyAmount
  {
    var first := Start(y, start, base - depreciated, depreciated);
    assert !Breaks(y, dates, 0, first);
    if |dates| > 1 {
      WalkGrows(y, dates, 1, AddLine(y, dates, 0, first));
    }
    hide Walk;
    SpreadOneAgrees(y, dates, start, base, depreciated);
  }

  /** A year that is not the last hands on only later dates exactly if nothing stops it before
      its dates end; if it ends on a date, exactly then is that its last line's date. */
  lemma PeriodicYearEnds(y: Year, dates: seq<int>, start: int, base: int, depreciated: int)
    requires Startable(y, dates) && base != depreciated && !y.last
    ensures var n := CountUpTo(dates, y.row.stop);
      var (settled, li) := SpreadOne(y, dates, start, base - depreciated, depreciated);
      && settled.Ok? && 0 < n < |dates|
      && li == |settled.value.lines| <= n && 0 < li && dates[li - 1] <= y.row.stop
      && (HandsOnLater(dates, li, y.row.stop) <==> TakesAll(y, dates, base - depreciated, n))
      && (li == n <==> TakesAll(y, dates, base - depreciated, n))
      && (y.row.stop in dates ==>
            (EndsOnPosting(Finish(y.row, settled.value.lines)) <==> TakesAll(y, dates, base - depreciated, n)))
  {
    hide Walk, StopsAt, Settle, CountUpTo, DatedLine, LineAmount, FirstPeriodAmount, Start;
    CountIncreasing(dates, y.row.stop);
    PeriodicYear(y, dates, start, base, depreciated);
    TakenBefore(y, dates, start, base - depreciated, depreciated);
    SpreadOneDated(y, dates, start, base - depreciated, depreciated);
    var n := CountUpTo(dates, y.row.stop);
    var lines := SpreadOne(y, dates, start, base - depreciated, depreciated).0.value.lines;
    LineDate(y, dates, lines, MaxInt(y.row.start, start));
    if y.row.stop in dates {
      StopIndex(dates, y.row.stop);
      if |lines| < n {
        assert dates[|lines| - 1] < dates[n - 1];
      }
    }
  }

  lemma LineDate(y: Year, dates: seq<int>, lines: seq<Line>, prev: int)
    requires 0 < |lines| <= |dates| && forall k :: 0 <= k < |lines| ==> DatedLine(y, dates, k, lines[k], prev)
    ensures lines[|lines| - 1].date == dates[|lines| - 1]
  {
    assert DatedLine(y, dates, |lines| - 1, lines[|lines| - 1], prev);
  }

  lemma StopIndex(dates: seq<int>, stop: int)
    requires Increasing(dates) && stop in dates
    ensures var n := CountUpTo(dates, stop); 0 < n <= |dates| && dates[n - 1] == stop
    ensures stop < dates[|dates| - 1] ==> CountUpTo(dates, stop) < |dates|
  {
    CountIncreasing(dates, stop);
    var k :| 0 <= k < |dates| && dates[k] == stop;
    SameDate(dates, k, CountUpTo(dates, stop) - 1);
  }

  lemma TakenBefore(y: Year, dates: seq<int>, start: int, remaining: int, depreciated: int)
    requires !y.last && y.row.dayAmount == 0 && y.row.stop < y.stop && Increasing(dates)
    requires CountUpTo(dates, y.row.stop) < |dates| && SpreadOne(y, dates, start, remaining, depreciated).0.Ok?
    ensures var n, taken := CountUpTo(dates, y.row.stop),
      |SpreadOne(y, dates, start, remaining, depreciated).0.value.lines|;
      taken <= n && (taken == n <==> TakesAll(y, dates, remaining, n))
  {
    hide Walk, StopsAt;
    WalkTakes(y, dates, 0, Start(y, start, remaining, depreciated), remaining);
  }

  /* ---- all years ---- */

  /** The years from `i` on that end before the stop date end on one of the dates. */
  ghost predicate StopsAmong(rows: seq<Row>, i: nat, dates: seq<int>, stop: int) {
    forall k :: i <= k < |rows| && rows[k].stop < stop ==> rows[k].stop in dates
  }

  /** One of the dates lies in the year. */
  ghost predicate HoldsDate(dates: seq<int>, yearStart: int, yearStop: int) {
    exists p :: 0 <= p < |dates| && yearStart <= dates[p] <= yearStop
  }

  /** The years from `i` on that end before the stop date hold one of the dates. */
  ghost predicate YearsHold(rows: seq<Row>, i: nat, dates: seq<int>, stop: int) {
    forall k :: i <= k < |rows| && rows[k].stop < stop ==> HoldsDate(dates, rows[k].start, rows[k].stop)
  }

  /** The years of a table with periodic posting, and dates that reach the stop date. */
  ghost predicate PeriodicRows(a: Asset, rows: seq<Row>, dates: seq<int>, stop: int) {
    && a.time == Years && RowsTile(rows, stop)
    && Posting(dates, stop) && dates[|dates| - 1] >= stop
    && forall k :: 0 <= k < |rows| ==>
      rows[k].dayAmount == 0 && (a.way == DegressiveLinear ==> a.Sign() * rows[k].fyAmount >= 0)
  }

  /** The dates left for year `i`: it has one of its own, or only the last one is left. */
  ghost predicate HasDates(rows: seq<Row>, i: nat, dates: seq<int>, stop: int)
    requires i < |rows|
  {
    && YearsHold(rows, i, dates, stop)
    && (dates != [] ==> dates[0] <= rows[i].stop || (|dates| == 1 && i == |rows| - 1))
  }

  lemma YearStartable(a: Asset, rows: seq<Row>, i: nat, dates: seq<int>, stop: int)
    requires i < |rows| && PeriodicRows(a, rows, dates, stop) && HasDates(rows, i, dates, stop)
    ensures Startable(YearAt(a, rows, i, stop), dates)
  {
    assert i < |rows| - 1 ==> rows[i + 1].start <= stop;
  }

  /** Whatever a year takes, the next year has dates again. */
  lemma DatesHandedOn(a: Asset, rows: seq<Row>, i: nat, dates: seq<int>, li: nat, stop: int)
    requires i + 1 < |rows| && PeriodicRows(a, rows, dates, stop) && HasDates(rows, i, dates, stop)
    requires 0 < li < |dates| && dates[li - 1] <= rows[i].stop
    ensures PeriodicRows(a, rows, dates[li..], stop) && HasDates(rows, i + 1, dates[li..], stop)
    ensures StopsAmong(rows, i, dates, stop) ==> StopsAmong(rows, i + 1, dates[li..], stop)
  {
    hide YearsHold, StopsAmong, RowsTile;
    TilesOf(a, rows, dates, stop);
    HoldLater(rows, i, dates, li, stop);
    StopsLater(rows, i, dates, li, stop);
    PostingFrom(dates, li, stop);
    if i + 2 < |rows| || rows[i + 1].stop < stop {
      FirstLeft(rows, i + 1, dates[li..], stop);
    }
  }

  lemma PostingFrom(dates: seq<int>, li: nat, stop: int)
    requires Posting(dates, stop) && li < |dates|
    ensures Posting(dates[li..], stop) && dates[li..][|dates| - li - 1] == dates[|dates| - 1]
    ensures |dates[li..]| > 1 ==> dates[li] < stop
  {}

  lemma FirstLeft(rows: seq<Row>, i: nat, dates: seq<int>, stop: int)
    requires i < |rows| && RowsTile(rows, stop) && Increasing(dates) && YearsHold(rows, i, dates, stop)
    requires i + 1 < |rows| || rows[i].stop < stop
    ensures dates != [] && dates[0] <= rows[i].stop
  {
    if i + 1 < |rows| {
      NotLastStops(rows, stop, i);
    }
    var p :| 0 <= p < |dates| && rows[i].start <= dates[p] <= rows[i].stop;
    assert p > 0 ==> dates[0] < dates[p];
  }

  lemma HoldLater(rows: seq<Row>, i: nat, dates: seq<int>, li: nat, stop: int)
    requires RowsTile(rows, stop) && Increasing(dates) && i < |rows| && YearsHold(rows, i, dates, stop)
    requires 0 < li < |dates| && dates[li - 1] <= rows[i].stop
    ensures YearsHold(rows, i + 1, dates[li..], stop)
  {
    forall k | i + 1 <= k < |rows| && rows[k].stop < stop
      ensures HoldsDate(dates[li..], rows[k].start, rows[k].stop)
    {
      StopsGrow(rows, stop, i, k - 1);
      var p :| 0 <= p < |dates| && rows[k].start <= dates[p] <= rows[k].stop;
      LaterDate(dates, li - 1, p);
      assert dates[li..][p - li] == dates[p];
    }
  }

  lemma StopsLater(rows: seq<Row>, i: nat, dates: seq<int>, li: nat, stop: int)
    requires RowsTile(rows, stop) && Increasing(dates) && i < |rows|
    requires 0 < li < |dates| && dates[li - 1] <= rows[i].stop
    ensures StopsAmong(rows, i, dates, stop) ==> StopsAmong(rows, i + 1, dates[li..], stop)
  {
    if StopsAmong(rows, i, dates, stop) {
      forall k | i + 1 <= k < |rows| && rows[k].stop < stop
        ensures rows[k].stop in dates[li..]
      {
        StopsGrow(rows, stop, i, k - 1);
        var p :| 0 <= p < |dates| && dates[p] == rows[k].stop;
        LaterDate(dates, li - 1, p);
        assert dates[li..][p - li] == rows[k].stop;
      }
    }
  }

  lemma NotLastStops(rows: seq<Row>, stop: int, i: nat)
    requires RowsTile(rows, stop) && i + 1 < |rows|
    ensures rows[i].stop < stop
  {
    assert rows[i + 1].start <= stop;
  }

  lemma {:induction false} StopsGrow(rows: seq<Row>, stop: int, i: nat, j: nat)
    requires RowsTile(rows, stop) && i <= j < |rows|
    ensures rows[i].stop <= rows[j].stop
    decreases j - i
  {
    if i < j {
      StopsGrow(rows, stop, i, j - 1);
    }
  }

  /** Every year gets a line, so the table is computed. */
  lemma {:induction false} PeriodicOk(a: Asset, rows: seq<Row>, i: nat, start: int, stop: int, dates: seq<int>,
      depreciated: int)
    requires i < |rows| && PeriodicRows(a, rows, dates, stop) && HasDates(rows, i, dates, stop)
    requires depreciated == a.base - Residual(a, rows, i) && Unfinished(rows[i..], Residual(a, rows, i))
    ensures var r := Spread(a, rows, i, start, stop, dates, Residual(a, rows, i), depreciated);
      r.Ok? && |r.value| == |rows| - i
    decreases |rows| - i
  {
    hide SpreadOne, PeriodicRows, HasDates, Startable, Residual;
    var y := YearAt(a, rows, i, stop);
    YearStartable(a, rows, i, dates, stop);
    assert rows[i..][0] == rows[i] && rows[i..][1..] == rows[i + 1..];
    PeriodicYear(y, dates, start, a.base, depreciated);
    ResidualStep(a, rows, i);
    var (settled, li) := SpreadOne(y, dates, start, Residual(a, rows, i), depreciated);
    if i < |rows| - 1 {
      PeriodicYearEnds(y, dates, start, a.base, depreciated);
      DatesHandedOn(a, rows, i, dates, li, stop);
      PeriodicOk(a, rows, i + 1, start, stop, dates[li..], settled.value.depreciated);
    }
  }

  /** How many of the dates lie in year `k`. */
  function DatesIn(rows: seq<Row>, k: nat, dates: seq<int>): int
    requires k < |rows|
  {
    CountUpTo(dates, rows[k].stop) - if k == 0 then 0 else CountUpTo(dates, rows[k - 1].stop)
  }

  /** Year `k` lasts through all of its dates: after none of the lines before the last is
      there nothing left, or the degressive-linear amount used up. */
  predicate Lasts(a: Asset, rows: seq<Row>, k: nat, dates: seq<int>, stop: int)
    requires k < |rows|
  {
    TakesAll(YearAt(a, rows, k, stop), dates, Residual(a, rows, k), DatesIn(rows, k, dates))
  }

  /** All dates are those before year `i` and those left for it. */
  ghost predicate SplitAt(rows: seq<Row>, i: nat, all: seq<int>, dates: seq<int>)
    requires i < |rows|
  {
    && |dates| <= |all| && dates == all[|all| - |dates|..] && Increasing(all)
    && (if i == 0 then dates == all else CountUpTo(all, rows[i - 1].stop) == |all| - |dates|)
  }

  lemma CountLeft(all: seq<int>, dates: seq<int>, before: int, stop: int)
    requires Increasing(all) && |dates| <= |all| && dates == all[|all| - |dates|..]
    requires before <= stop && CountUpTo(all, before) == |all| - |dates|
    ensures CountUpTo(all, stop) == |all| - |dates| + CountUpTo(dates, stop)
  {
    var front := all[..|all| - |dates|];
    assert all == front + dates;
    CountConcat(front, dates, stop);
    CountIncreasing(all, before);
    hide CountUpTo;
    AllUpTo(front, stop);
  }

  lemma DatesInLeft(rows: seq<Row>, i: nat, all: seq<int>, dates: seq<int>, stop: int)
    requires i < |rows| && SplitAt(rows, i, all, dates) && RowsTile(rows, stop)
    ensures DatesIn(rows, i, all) == CountUpTo(dates, rows[i].stop)
    ensures CountUpTo(dates, rows[i].stop) < |dates| && i + 1 < |rows| ==>
      SplitAt(rows, i + 1, all, dates[CountUpTo(dates, rows[i].stop)..])
  {
    hide CountUpTo, Increasing;
    if i > 0 {
      assert rows[i].start == rows[i - 1].stop + 1;
      CountLeft(all, dates, rows[i - 1].stop, rows[i].stop);
    }
    var n := CountUpTo(dates, rows[i].stop);
    if n < |dates| {
      assert dates[n..] == all[|all| - |dates| + n..];
    }
  }

  lemma {:induction false} AllUpTo(dates: seq<int>, stop: int)
    requires forall k :: 0 <= k < |dates| ==> dates[k] <= stop
    ensures CountUpTo(dates, stop) == |dates|
  {
    if dates != [] {
      AllUpTo(dates[1..], stop);
    }
  }

  lemma SameStops(a: Asset, rows: seq<Row>, i: nat, stop: int, all: seq<int>, dates: seq<int>)
    requires i < |rows| && (i == 0 ==> dates == all)
    ensures forall j: nat :: (StopsAt(YearAt(a, rows, i, stop), dates, Residual(a, rows, i), j)
                              <==> StopsAt(YearAt(a, rows, i, stop), all, Residual(a, rows, i), j))
  {}

  /** One year that is not the last: it hands on only later dates exactly if it lasts through
      its dates, and then hands on exactly the dates after it. */
  lemma PeriodicStep(a: Asset, rows: seq<Row>, i: nat, start: int, stop: int, all: seq<int>, dates: seq<int>,
      depreciated: int)
    requires i < |rows| - 1 && PeriodicRows(a, rows, dates, stop) && HasDates(rows, i, dates, stop)
    requires SplitAt(rows, i, all, dates)
    requires depreciated == a.base - Residual(a, rows, i) != a.base
    ensures var (settled, li) := SpreadOne(YearAt(a, rows, i, stop), dates, start, Residual(a, rows, i), depreciated);
      && settled.Ok? && settled.value.lines != []
      && settled.value.remaining == Residual(a, rows, i + 1)
      && settled.value.depreciated == a.base - Residual(a, rows, i + 1)
      && PeriodicRows(a, rows, dates[li..], stop) && HasDates(rows, i + 1, dates[li..], stop)
      && (StopsAmong(rows, i, dates, stop) ==> StopsAmong(rows, i + 1, dates[li..], stop))
      && var lasts := Lasts(a, rows, i, all, stop);
      && (HandsOnLater(dates, li, rows[i].stop) <==> lasts)
      && (StopsAmong(rows, i, dates, stop) ==> (EndsOnPosting(Finish(rows[i], settled.value.lines)) <==> lasts))
      && (lasts ==> SplitAt(rows, i + 1, all, dates[li..]))
  {
    hide SpreadOne, PeriodicRows, HasDates, Startable, Residual, SplitAt, StopsAt, EndsOnPosting, DatesIn, HandsOnLater;
    var y := YearAt(a, rows, i, stop);
    YearStartable(a, rows, i, dates, stop);
    PeriodicYear(y, dates, start, a.base, depreciated);
    PeriodicYearEnds(y, dates, start, a.base, depreciated);
    ResidualStep(a, rows, i);
    var (settled, li) := SpreadOne(y, dates, start, Residual(a, rows, i), depreciated);
    TilesOf(a, rows, dates, stop);
    NotLastStops(rows, stop, i);
    DatesInLeft(rows, i, all, dates, stop);
    SplitFirst(rows, i, all, dates);
    SameStops(a, rows, i, stop, all, dates);
    DatesHandedOn(a, rows, i, dates, li, stop);
  }

  /** Every year of the table starts in itself, or on the last of the posting dates. */
  ghost predicate StartOwn(table: seq<Entry>, lastDate: int)
    requires Filled(table)
  {
    forall i :: 0 < i < |table| ==>
      table[i].row.start <= table[i].lines[0].date || table[i].lines[0].date == lastDate
  }

  lemma StartOwnCons(e: Entry, rest: seq<Entry>, dates: seq<int>, li: nat)
    requires e.lines != [] && li < |dates| && Increasing(dates)
    requires rest != [] && LaidOn(rest, dates[li..]) && rest[0].row.start == e.row.stop + 1
    ensures Filled(rest) && Filled([e] + rest)
    ensures StartOwn([e] + rest, dates[|dates| - 1])
      <==> HandsOnLater(dates, li, e.row.stop) && StartOwn(rest, dates[|dates| - 1])
  {
    hide Contiguous, WithinStops, Rises, Bounded, LastDate;
    var table := [e] + rest;
    assert forall k :: 0 < k < |table| ==> table[k] == rest[k - 1];
    assert forall k :: 0 <= k < |rest| ==> rest[k] == table[k + 1];
    assert table[1].lines[0].date == dates[li];
    assert dates[li] == dates[|dates| - 1] <==> li == |dates| - 1;
  }

  /** All years but the last of the table hand on only later dates, and end on posting dates
      if the fiscal years do, exactly if each lasts through its dates. */
  lemma {:induction false} PeriodicEnds(a: Asset, rows: seq<Row>, i: nat, start: int, stop: int, all: seq<int>,
                                        dates: seq<int>, depreciated: int)
    requires i < |rows| && PeriodicRows(a, rows, dates, stop) && HasDates(rows, i, dates, stop)
      && SplitAt(rows, i, all, dates)
    requires depreciated == a.base - Residual(a, rows, i) && Unfinished(rows[i..], Residual(a, rows, i))
    ensures var r := Spread(a, rows, i, start, stop, dates, Residual(a, rows, i), depreciated);
      && r.Ok? && |r.value| == |rows| - i && Filled(r.value)
      && var lasts := forall k: nat :: i <= k < |rows| - 1 ==> Lasts(a, rows, k, all, stop);
      && (StartOwn(r.value, dates[|dates| - 1]) <==> lasts)
      && (StopsAmong(rows, i, dates, stop) ==> (YearsEndOnPosting(r.value) <==> lasts))
    decreases |rows| - i
  {
    hide SpreadOne, PeriodicRows, HasDates, Residual, SplitAt, EndsOnPosting, Lasts, LaidOn, HandsOnLater, StopsAmong;
    PeriodicOk(a, rows, i, start, stop, dates, depreciated);
    SpreadFilled(a, rows, i, start, stop, dates, Residual(a, rows, i), depreciated);
    if i < |rows| - 1 {
      PeriodicStep(a, rows, i, start, stop, all, dates, depreciated);
      assert rows[i..][0] == rows[i] && rows[i..][1..] == rows[i + 1..];
      ResidualStep(a, rows, i);
      var (settled, li) := SpreadOne(YearAt(a, rows, i, stop), dates, start, Residual(a, rows, i), depreciated);
      var e := Finish(rows[i], settled.value.lines);
      TilesOf(a, rows, dates, stop);
      TilesOf(a, rows, dates[li..], stop);
      PeriodicOk(a, rows, i + 1, start, stop, dates[li..], settled.value.depreciated);
      SpreadLaid(a, rows, i + 1, start, stop, dates[li..], settled.value.remaining, settled.value.depreciated);
      var rest := Spread(a, rows, i + 1, start, stop, dates[li..], settled.value.remaining,
        settled.value.depreciated).value;
      EndsConsBoth(e, rest);
      StartOwnCons(e, rest, dates, li);
      assert dates[li..][|dates| - li - 1] == dates[|dates| - 1];
      hide YearsEndOnPosting, StartOwn;
      if Lasts(a, rows, i, all, stop) {
        PeriodicEnds(a, rows, i + 1, start, stop, all, dates[li..], settled.value.depreciated);
      }
    }
  }

  lemma TilesOf(a: Asset, rows: seq<Row>, dates: seq<int>, stop: int)
    requires PeriodicRows(a, rows, dates, stop)
    ensures RowsTile(rows, stop) && Increasing(dates)
  {}

  lemma SplitFirst(rows: seq<Row>, i: nat, all: seq<int>, dates: seq<int>)
    requires i < |rows| && SplitAt(rows, i, all, dates)
    ensures i == 0 ==> dates == all
  {}

  lemma EndsConsBoth(e: Entry, rest: seq<Entry>)
    requires rest != []
    ensures YearsEndOnPosting([e] + rest) <==> EndsOnPosting(e) && YearsEndOnPosting(rest)
  {
    var table := [e] + rest;
    assert table[0] == e;
    assert forall k :: 0 <= k < |rest| ==> rest[k] == table[k + 1];
  }

  /* ---- the table ---- */

  /** Every fiscal year that ends before the stop date ends on a posting date. */
  ghost predicate StopsPosted(f: Frame) {
    forall k :: 0 <= k < |f.spans| && f.spans[k].Valid() && f.spans[k].stop.Ord() < f.stop ==>
      f.spans[k].stop.Ord() in f.dates
  }

  /** Every fiscal year that ends before the stop date holds a posting date. */
  ghost predicate YearsPosted(f: Frame) {
    forall k :: 0 <= k < |f.spans| && f.spans[k].Valid() && f.spans[k].stop.Ord() < f.stop ==>
      HoldsDate(f.dates, f.spans[k].start.Ord(), f.spans[k].stop.Ord())
  }

  /** An asset depreciated over a number of years, not by days. */
  ghost predicate YearsAsset(a: Asset) {
    a.Valid() && a.time == Years && a.number > 0 && !a.daysCalc && a.base != 0
  }

  /** All years but the last of the table last through their dates. */
  ghost predicate AllLast(a: Asset, f: Frame)
    requires a.Valid() && Framed(a, f) && (a.number > 0 || a.time == End)
  {
    forall k: nat :: k < |RowsOf(a, f)| - 1 ==> Lasts(a, RowsOf(a, f), k, f.dates, f.stop)
  }

  /** For all five methods, any period and any sign: when every fiscal year holds a posting
      date the table is always computed.  Each of its years starts in itself (or on the last
      posting date of all) exactly if those before last through their dates; and where
      fiscal years end on posting dates, exactly then do those of the table. */
  lemma PeriodicTable(a: Asset, f: Frame)
    requires YearsAsset(a) && Framed(a, f) && YearsPosted(f)
    ensures Computed(a, f) && |TableOn(a, f).value| == |RowsOf(a, f)| > 0
    ensures StartOwn(TableOn(a, f).value, f.dates[|f.dates| - 1]) <==> AllLast(a, f)
    ensures StopsPosted(f) ==> (YearsEndOnPosting(TableOn(a, f).value) <==> AllLast(a, f))
  {
    hide Spread, Rows, Date.Ord, YearsEndOnPosting, Lasts, StopsPosted, YearsPosted, StartOwn;
    var rows := RowsOf(a, f);
    RowsOfTile(a, f);
    DegressiveLinearTakes(a, f);
    RowsPosted(a, f);
    FirstHasDates(a, f);
    RowsUnfinished(a, f.spans, 0, a.base, |f.dates|, 0);
    assert rows[0..] == rows && rows[..0] == [];
    assert Residual(a, rows, 0) == a.base;
    PeriodicEnds(a, rows, 0, f.start, f.stop, f.dates, f.dates, 0);
  }

  /** A table whose years last through their dates starts each year in itself. */
  lemma LastingInYears(a: Asset, f: Frame)
    requires Computed(a, f) && StartOwn(TableOn(a, f).value, f.dates[|f.dates| - 1])
    ensures InYears(TableOn(a, f).value)
  {
    hide Spread, RowsOf, Contiguous, WithinStops;
    RowsOfTile(a, f);
    var table := TableOn(a, f).value;
    SpreadLaid(a, RowsOf(a, f), 0, f.start, f.stop, f.dates, a.base, 0);
    TableLaid(a, f);
    hide TableOn, Rises, Bounded, Filled, Flatten;
    forall i | 0 < i < |table| && table[i].lines[0].date == f.dates[|f.dates| - 1]
      ensures table[i].lines[0].date == LastDate(table)
    {
      LastIsLast(table, i, 0);
      LastBounded(table, f.dates);
    }
  }

  lemma LastBounded(table: seq<Entry>, dates: seq<int>)
    requires table != [] && LaidOn(table, dates)
    ensures LastDate(table) <= dates[|dates| - 1]
  {
    FlattenEnd(table);
  }

  /** The rows of the table are dated like the fiscal years. */
  lemma RowsPosted(a: Asset, f: Frame)
    requires a.Valid() && Framed(a, f) && (a.number > 0 || a.time == End)
    ensures YearsPosted(f) ==> YearsHold(RowsOf(a, f), 0, f.dates, f.stop)
    ensures StopsPosted(f) ==> StopsAmong(RowsOf(a, f), 0, f.dates, f.stop)
  {
    hide Rows, Date.Ord;
    var rows := RowsOf(a, f);
    FramedSpans(a, f);
    RowsShape(a, f.spans, 0, a.base, |f.dates|, DayAmount(a, f.stop - f.start + 1));
    forall k | 0 <= k < |rows|
      ensures rows[k].start == f.spans[0 + k].start.Ord() && rows[k].stop == f.spans[0 + k].stop.Ord()
    {
      assert RowDated(rows[k], f.spans[0 + k], DayAmount(a, f.stop - f.start + 1));
    }
  }

  lemma FirstHasDates(a: Asset, f: Frame)
    requires a.Valid() && Framed(a, f) && (a.number > 0 || a.time == End) && a.time == Years
    requires YearsHold(RowsOf(a, f), 0, f.dates, f.stop)
    ensures RowsOf(a, f) != [] && HasDates(RowsOf(a, f), 0, f.dates, f.stop)
  {
    hide Rows, Date.Ord;
    var rows := RowsOf(a, f);
    RowsOfTile(a, f);
    if |rows| > 1 || rows[0].stop < f.stop {
      FirstLeft(rows, 0, f.dates, f.stop);
    }
  }
}
