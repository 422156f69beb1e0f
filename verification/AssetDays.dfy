/** Depreciation by days: every day of the asset's life is counted exactly once,
    and what rounding the day rate costs ends up, bounded, in the last line. */
module AssetDays {
  import opened Outcome
  import opened AssetTypes
  import opened AssetAmounts
  import opened AssetLines
  import opened AssetConservation
  import opened AssetBoard
  import opened AssetTiling

  function SumDays(lines: seq<Line>): int {
    if lines == [] then 0 else lines[0].days + SumDays(lines[1..])
  }

  lemma {:induction false} SumDaysConcat(x: seq<Line>, z: seq<Line>)
    ensures SumDays(x + z) == SumDays(x) + SumDays(z)
  {
    if x == [] {
      assert x + z == z;
    } else {
      assert (x + z)[1..] == x[1..] + z;
      SumDaysConcat(x[1..], z);
    }
  }

  /** The days of a year's first `n` lines reach from `prev` to the `n`-th date. */
  lemma {:induction false} YearDays(y: Year, dates: seq<int>, lines: seq<Line>, prev: int, n: nat)
    requires 0 < n <= |lines| <= |dates|
    requires forall k :: 0 <= k < |lines| ==> DatedLine(y, dates, k, lines[k], prev)
    ensures SumDays(lines[..n]) == dates[n - 1] + 1 - prev
  {
    assert lines[..n] == lines[..n - 1] + [lines[n - 1]];
    assert SumDays([lines[n - 1]]) == lines[n - 1].days by {
      assert [lines[n - 1]][1..] == [];
    }
    SumDaysConcat(lines[..n - 1], [lines[n - 1]]);
    assert DatedLine(y, dates, n - 1, lines[n - 1], prev);
    if n > 1 {
      YearDays(y, dates, lines, prev, n - 1);
    } else {
      assert lines[..0] == [];
    }
  }

  /** Every line but possibly the last is its days times the rate. */
  ghost predicate Rated(lines: seq<Line>, rate: int) {
    forall k :: 0 <= k < |lines| - 1 ==> lines[k].amount == lines[k].days * rate
  }

  /** The last line either takes what remains or is rated too. */
  ghost predicate RatedEnd(lines: seq<Line>, rate: int) {
    lines != [] ==> var last := lines[|lines| - 1]; last.remaining == 0 || last.amount == last.days * rate
  }

  lemma YearRated(y: Year, dates: seq<int>, lines: seq<Line>, prev: int)
    requires 0 < |lines| <= |dates| && y.row.dayAmount > 0
    requires forall k :: 0 <= k < |lines| ==> DatedLine(y, dates, k, lines[k], prev)
    ensures Rated(lines, y.row.dayAmount) && RatedEnd(lines, y.row.dayAmount)
    ensures !y.last ==> lines[|lines| - 1].amount == lines[|lines| - 1].days * y.row.dayAmount
    ensures y.last && |lines| == |dates| ==> lines[|lines| - 1].remaining == 0
  {
    forall k | 0 <= k < |lines|
      ensures if Final(y, dates, k) then lines[k].remaining == 0 else lines[k].amount == lines[k].days * y.row.dayAmount
    {
      assert DatedLine(y, dates, k, lines[k], prev);
    }
  }

  lemma SpreadOneDays(a: Asset, rows: seq<Row>, i: nat, start: int, stop: int, dates: seq<int>, remaining: int,
      depreciated: int)
    requires i < |rows| && |dates| > 0 && rows[i].dayAmount > 0
    requires var settled := SpreadOne(YearAt(a, rows, i, stop), dates, start, remaining, depreciated).0;
      settled.Ok? && settled.value.lines != []
    ensures var lines := SpreadOne(YearAt(a, rows, i, stop), dates, start, remaining, depreciated).0.value.lines;
      var last := lines[|lines| - 1];
      && SumDays(lines) == last.date + 1 - MaxInt(rows[i].start, start)
      && Rated(lines, rows[i].dayAmount) && RatedEnd(lines, rows[i].dayAmount)
      && (i < |rows| - 1 ==> last.amount == last.days * rows[i].dayAmount)
  {
    hide SpreadOne, Rated, RatedEnd;
    var y := YearAt(a, rows, i, stop);
    var prev := MaxInt(rows[i].start, start);
    SpreadOneDated(y, dates, start, remaining, depreciated);
    var lines := SpreadOne(y, dates, start, remaining, depreciated).0.value.lines;
    YearRated(y, dates, lines, prev);
    YearDays(y, dates, lines, prev, |lines|);
    assert lines[..|lines|] == lines;
    assert DatedLine(y, dates, |lines| - 1, lines[|lines| - 1], prev);
  }

  /** Over years that end on their posting dates the lines count each day from the
      first to the last line date once, at the day rate but for the last line. */
  lemma {:induction false} SpreadDays(a: Asset, rows: seq<Row>, i: nat, start: int, stop: int, dates: seq<int>,
                                      remaining: int, depreciated: int, rate: int)
    requires i <= |rows| && |dates| > 0 && RowsTile(rows, stop) && rate > 0
    requires forall k :: 0 <= k < |rows| ==> rows[k].dayAmount == rate
    requires i < |rows| ==> start <= rows[i].stop + 1
    requires Spread(a, rows, i, start, stop, dates, remaining, depreciated).Ok?
    requires YearsEndOnPosting(Spread(a, rows, i, start, stop, dates, remaining, depreciated).value)
    ensures var table := Spread(a, rows, i, start, stop, dates, remaining, depreciated).value;
      table != [] ==>
        && i < |rows| && Filled(table)
        && SumDays(Flatten(table)) == LastDate(table) + 1 - MaxInt(rows[i].start, start)
        && Rated(Flatten(table), rate) && RatedEnd(Flatten(table), rate)
    decreases |rows| - i
  {
    if i < |rows| {
      hide SpreadOne, Rated, RatedEnd, YearsEndOnPosting;
      var (settled, li) := SpreadOne(YearAt(a, rows, i, stop), dates, start, remaining, depreciated);
      var run := settled.value;
      if run.lines != [] {
        SpreadOneDays(a, rows, i, start, stop, dates, remaining, depreciated);
        var rest := Spread(a, rows, i + 1, start, stop, dates[li..], run.remaining, run.depreciated).value;
        var e := Finish(rows[i], run.lines);
        EndsCons(e, rest);
        if rest != [] {
          assert i + 1 < |rows|;
          assert rows[i + 1].start == rows[i].stop + 1;
          SpreadDays(a, rows, i + 1, start, stop, dates[li..], run.remaining, run.depreciated, rate);
        }
        DaysCons(e, rest, rate);
      }
    }
  }

  lemma DaysCons(e: Entry, rest: seq<Entry>, rate: int)
    requires e.lines != [] && Rated(e.lines, rate) && RatedEnd(e.lines, rate)
    requires rest != [] ==>
      && Filled(rest) && Rated(Flatten(rest), rate) && RatedEnd(Flatten(rest), rate)
      && e.lines[|e.lines| - 1].amount == e.lines[|e.lines| - 1].days * rate
    ensures var table := [e] + rest;
      && Filled(table)
      && SumDays(Flatten(table)) == SumDays(e.lines) + SumDays(Flatten(rest))
      && LastDate(table) == (if rest == [] then e.lines[|e.lines| - 1].date else LastDate(rest))
      && Rated(Flatten(table), rate) && RatedEnd(Flatten(table), rate)
  {
    var table := [e] + rest;
    assert table[1..] == rest && Flatten(table) == e.lines + Flatten(rest);
    assert forall k :: 0 < k < |table| ==> table[k] == rest[k - 1];
    SumDaysConcat(e.lines, Flatten(rest));
    if rest == [] {
      assert Flatten(table) == e.lines;
    } else {
      assert Flatten(rest) == rest[0].lines + Flatten(rest[1..]);
    }
  }
}
