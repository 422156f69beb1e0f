/** Spreading loses nothing: every line's running values add up to the base, and
    every year's lines add up to the year's amount. */
module AssetConservation {
  import opened Outcome
  import opened AssetTypes
  import opened AssetAmounts
  import opened AssetLines

  /** Consecutive lines that start with `depreciated` already taken from `base`:
      each continues where the one before stopped, and what was depreciated, the
      line itself and what remains always make up the base. */
  ghost predicate Chain(lines: seq<Line>, base: int, depreciated: int) {
    lines == [] ||
    (&& lines[0].depreciated == depreciated
     && depreciated + lines[0].amount + lines[0].remaining == base
     && Chain(lines[1..], base, depreciated + lines[0].amount))
  }

  function Flatten(table: seq<Entry>): seq<Line> {
    if table == [] then [] else table[0].lines + Flatten(table[1..])
  }

  lemma {:induction false} ChainConcat(x: seq<Line>, z: seq<Line>, base: int, depreciated: int)
    ensures SumLines(x + z) == SumLines(x) + SumLines(z)
    ensures Chain(x, base, depreciated) && Chain(z, base, depreciated + SumLines(x))
      <==> Chain(x + z, base, depreciated)
  {
    if x == [] {
      assert x + z == z;
    } else {
      assert (x + z)[1..] == x[1..] + z;
      ChainConcat(x[1..], z, base, depreciated + x[0].amount);
    }
  }

  /** Any line of a chain splits it: the value remaining after the line is the
      base less everything up to and including it. */
  lemma {:induction false} ChainAt(lines: seq<Line>, base: int, depreciated: int, k: nat)
    requires Chain(lines, base, depreciated) && k < |lines|
    ensures lines[k].depreciated == depreciated + SumLines(lines[..k])
    ensures lines[k].remaining == base - depreciated - SumLines(lines[..k + 1])
  {
    if k == 0 {
      assert lines[..1] == [lines[0]];
    } else {
      ChainAt(lines[1..], base, depreciated + lines[0].amount, k - 1);
      assert lines[..k][1..] == lines[1..][..k - 1];
      assert lines[..k + 1][1..] == lines[1..][..k];
    }
  }

  /** The loop variables agree with the lines made so far. */
  ghost predicate Agrees(run: Run, base: int, depreciated: int) {
    && Chain(run.lines, base, depreciated)
    && run.check == SumLines(run.lines)
    && run.depreciated == depreciated + run.check
    && run.depreciated + run.remaining == base
  }

  lemma AddLineAgrees(y: Year, dates: seq<int>, li: nat, run: Run, base: int, depreciated: int)
    requires li < |dates| && Agrees(run, base, depreciated)
    ensures Agrees(AddLine(y, dates, li, run), base, depreciated)
  {
    hide LineAmount;
    var next := AddLine(y, dates, li, run);
    var line := next.lines[|run.lines|];
    assert next.lines == run.lines + [line];
    assert [line][1..] == [] && SumLines([line]) == line.amount;
    ChainConcat(run.lines, [line], base, depreciated);
  }

  lemma {:induction false} WalkAgrees(y: Year, dates: seq<int>, li: nat, run: Run, base: int, depreciated: int)
    requires li < |dates| && Agrees(run, base, depreciated)
    ensures Agrees(Walk(y, dates, li, run).0, base, depreciated)
    decreases |dates| - li
  {
    hide Agrees, AddLine;
    if !Breaks(y, dates, li, run) {
      AddLineAgrees(y, dates, li, run, base, depreciated);
      if li < |dates| - 1 {
        WalkAgrees(y, dates, li + 1, AddLine(y, dates, li, run), base, depreciated);
      }
    }
  }

  lemma SettleAgrees(y: Year, run: Run, base: int, depreciated: int)
    requires Agrees(run, base, depreciated) && Settle(y, run).Ok?
    ensures Agrees(Settle(y, run).value, base, depreciated)
    ensures y.a.time == Years && y.row.dayAmount == 0 ==> SumLines(Settle(y, run).value.lines) == y.row.fyAmount
    ensures run.lines == [] <==> Settle(y, run).value.lines == []
  {
    var done := Settle(y, run).value;
    if done != run {
      var k := |run.lines| - 1;
      var old_, new_ := run.lines[k], done.lines[k];
      assert run.lines == run.lines[..k] + [old_] && done.lines == run.lines[..k] + [new_];
      assert [old_][1..] == [] && [new_][1..] == [];
      assert SumLines([old_]) == old_.amount && SumLines([new_]) == new_.amount;
      ChainConcat(run.lines[..k], [old_], base, depreciated);
      ChainConcat(run.lines[..k], [new_], base, depreciated);
    }
  }

  /** Each year's lines add up to the year's amount. */
  ghost predicate YearsAddUp(table: seq<Entry>) {
    forall k :: 0 <= k < |table| ==> SumLines(table[k].lines) == table[k].row.fyAmount
  }

  /** Whatever the method and the dates: a table that is completed is one chain of
      running values; when years are settled, every year's lines add up to its
      amount and the whole table to the amounts of all years. */
  lemma {:induction false} SpreadConserves(a: Asset, rows: seq<Row>, i: nat, start: int, stop: int, dates: seq<int>,
                                           base: int, depreciated: int)
    requires i <= |rows| && |dates| > 0
    requires Spread(a, rows, i, start, stop, dates, base - depreciated, depreciated).Ok?
    ensures var table := Spread(a, rows, i, start, stop, dates, base - depreciated, depreciated).value;
      && Chain(Flatten(table), base, depreciated)
      && (a.time == Years && (forall k :: i <= k < |rows| ==> rows[k].dayAmount == 0) ==>
            YearsAddUp(table) && SumLines(Flatten(table)) == SumFy(rows[i..]))
    decreases |rows| - i
  {
    NothingConserves(base, depreciated);
    SumFyFrom(rows, i);
    if i < |rows| {
      hide SpreadOne, Chain, Flatten, SumLines, YearsAddUp, SumFy;
      var y := YearAt(a, rows, i, stop);
      var (settled, li) := SpreadOne(y, dates, start, base - depreciated, depreciated);
      SpreadOneAgrees(y, dates, start, base, depreciated);
      var run := settled.value;
      if run.lines == [] {
        SumFyFrom(rows, i + 1);
      } else {
        SpreadConserves(a, rows, i + 1, start, stop, dates[li..], base, run.depreciated);
        var rest := Spread(a, rows, i + 1, start, stop, dates[li..], run.remaining, run.depreciated).value;
        PrependEntry(Finish(rows[i], run.lines), rest, base, depreciated);
      }
    }
  }

  lemma NothingConserves(base: int, depreciated: int)
    ensures Flatten([]) == [] && Chain([], base, depreciated) && YearsAddUp([]) && SumLines([]) == 0
  {}

  lemma SumFyFrom(rows: seq<Row>, i: nat)
    requires i <= |rows|
    ensures SumFy(rows[i..]) == if i == |rows| then 0 else rows[i].fyAmount + SumFy(rows[i + 1..])
  {
    if i < |rows| {
      assert rows[i..][0] == rows[i] && rows[i..][1..] == rows[i + 1..];
    }
  }

  lemma SpreadOneAgrees(y: Year, dates: seq<int>, start: int, base: int, depreciated: int)
    requires |dates| > 0 && SpreadOne(y, dates, start, base - depreciated, depreciated).0.Ok?
    ensures var run := SpreadOne(y, dates, start, base - depreciated, depreciated).0.value;
      && Chain(run.lines, base, depreciated)
      && run.depreciated == depreciated + SumLines(run.lines) == base - run.remaining
      && (y.a.time == Years && y.row.dayAmount == 0 ==> SumLines(run.lines) == y.row.fyAmount)
  {
    hide Walk, Settle;
    var first := Start(y, start, base - depreciated, depreciated);
    WalkAgrees(y, dates, 0, first, base, depreciated);
    SettleAgrees(y, Walk(y, dates, 0, first).0, base, depreciated);
  }

  lemma PrependEntry(e: Entry, rest: seq<Entry>, base: int, depreciated: int)
    requires Chain(e.lines, base, depreciated) && Chain(Flatten(rest), base, depreciated + SumLines(e.lines))
    ensures var table := [e] + rest;
      && Chain(Flatten(table), base, depreciated)
      && SumLines(Flatten(table)) == SumLines(e.lines) + SumLines(Flatten(rest))
      && (YearsAddUp(rest) && SumLines(e.lines) == e.row.fyAmount ==> YearsAddUp(table))
  {
    var table := [e] + rest;
    assert table[1..] == rest;
    ChainConcat(e.lines, Flatten(rest), base, depreciated);
    assert forall k :: 0 < k < |table| ==> table[k] == rest[k - 1];
  }
}
