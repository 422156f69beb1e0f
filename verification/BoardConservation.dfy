/** Whatever was posted, the rebuilt lines bring the total to the depreciable
    amount, with exactly one exception. */
module BoardConservation {
  import opened Outcome
  import opened AssetTypes
  import opened AssetLines
  import opened AssetBoard

  /** Lines created up to the table's last date use up everything. */
  lemma {:induction false} EmitUsesUp(items: seq<Item>, most: int, lastDate: int, number: nat, done: int)
    requires items != [] && items[|items| - 1].line.date == lastDate
    ensures done + SumNew(Emit(items, most, lastDate, number, done)) == most
  {
    var line := items[0].line;
    var amount := if line.date == lastDate then most - done else line.amount;
    var rest := items[1..];
    if |items| == 1 {
      assert Emit(rest, most, lastDate, number + 1, done + amount) == [];
      assert amount != 0 ==> Emit(items, most, lastDate, number, done)[1..] == [];
    } else {
      EmitUsesUp(rest, most, lastDate, if amount == 0 then number else number + 1, done + amount);
      if amount != 0 {
        assert Emit(items, most, lastDate, number, done)[1..] == Emit(rest, most, lastDate, number + 1, done + amount);
      }
    }
  }

  lemma {:induction false} ItemsEnd(table: seq<Entry>, i: nat)
    requires i < |table| && Filled(table)
    ensures var items := Items(table, i); items != [] && items[|items| - 1].line.date == LastDate(table)
    decreases |table| - i
  {
    if i < |table| - 1 {
      ItemsEnd(table, i + 1);
    } else {
      assert Items(table, i + 1) == [];
    }
  }

  lemma ItemsFromEnd(table: seq<Entry>, i: nat, j: nat)
    requires i < |table| && Filled(table)
    requires j <= |table[i].lines| && (i == |table| - 1 ==> j < |table[i].lines|)
    ensures var items := ItemsFrom(table, i, j); items != [] && items[|items| - 1].line.date == LastDate(table)
  {
    var tagged, rest := Tag(table[i].lines, table[i].row.init), Items(table, i + 1);
    assert ItemsFrom(table, i, j) == tagged[j..] + rest;
    if i < |table| - 1 {
      ItemsEnd(table, i + 1);
    } else {
      assert rest == [] && tagged[j..][|tagged| - 1 - j] == tagged[|tagged| - 1];
    }
  }

  lemma EmitFromUsesUp(table: seq<Entry>, i: nat, j: nat, most: int, number: nat, done: int)
    requires i < |table| && Filled(table)
    requires j <= |table[i].lines| && (i == |table| - 1 ==> j < |table[i].lines|)
    ensures done + SumNew(Emit(ItemsFrom(table, i, j), most, LastDate(table), number, done)) == most
  {
    ItemsFromEnd(table, i, j);
    EmitUsesUp(ItemsFrom(table, i, j), most, LastDate(table), number, done);
  }

  /** The day is the end of the table's last year and lies in no earlier year. */
  ghost predicate AtEndOfTable(table: seq<Entry>, day: int)
    requires table != []
  {
    YearOf(table, day, 0) == |table| - 1 && table[|table| - 1].row.stop == day
  }

  /** Before the table's last date the position found is inside the table, unless
      the last posted date is the end of the last year. */
  lemma LocateInside(table: seq<Entry>, day: int)
    requires table != [] && Filled(table) && day < LastDate(table)
    ensures var p := Locate(table, day);
      && (AtEndOfTable(table, day) ==> p.year == |table|)
      && (!AtEndOfTable(table, day) ==>
            p.year < |table| && (p.year == |table| - 1 ==> p.line < |table[p.year].lines|))
  {}

  lemma YearOfSame(table: seq<Entry>, other: seq<Entry>, day: int, i: nat)
    requires i < |table| == |other| && forall k :: 0 <= k < |table| ==> table[k].row == other[k].row
    ensures YearOf(table, day, i) == YearOf(other, day, i)
    decreases |table| - i
  {}

  lemma CompensateKeepsDates(table: seq<Entry>, p: Position, diff: int)
    requires table != [] && Filled(table) && Compensate(table, p, diff).Ok?
    ensures var r := Compensate(table, p, diff).value;
      && |r| == |table| && Filled(r) && LastDate(r) == LastDate(table)
      && forall k :: 0 <= k < |r| ==> |r[k].lines| == |table[k].lines|
  {}

  function LastRemaining(table: seq<Entry>): int
    requires table != [] && Filled(table)
  {
    var lines := table[|table| - 1].lines;
    lines[|lines| - 1].remaining
  }

  lemma GroupKeepsEnd(table: seq<Entry>, start: int)
    requires table != [] && Filled(table)
    ensures LastRemaining(Group(table, start)) == LastRemaining(table)
    ensures LastDate(Group(table, start)) == LastDate(table)
  {
    var lines := table[0].lines;
    var n := GroupSize(lines, start);
    var grouped := GroupLines(lines, start);
    if 0 < n < |lines| {
      assert grouped[|grouped| - 1] == lines[n..][|lines| - n - 1];
    }
  }

  /** Inside the table, posted plus created lines always make up the depreciable
      amount: grouped early lines, a compensated deviation and skipped zero lines
      included. */
  lemma BoardConserves(a: Asset, table: seq<Entry>, posted: Posted)
    requires a.Valid() && table != [] && Filled(table)
    requires posted.count == 0 ==> posted.total == 0
    requires Rebuild(a, table, posted).Ok?
    requires posted.count > 0 ==> !AtEndOfTable(table, posted.last)
    ensures posted.total + SumNew(Rebuild(a, table, posted).value) == a.Depreciable()
  {
    hide Emit, ItemsFrom, Asset.Depreciable, GroupLines;
    var grouped := Group(table, a.dateStart.Ord());
    if posted.count == 0 {
      EmitFromUsesUp(grouped, 0, 0, a.Depreciable(), 0, 0);
    } else {
      YearOfSame(table, grouped, posted.last, 0);
      LocateInside(grouped, posted.last);
      var p := Locate(grouped, posted.last);
      var diff := p.residual - (a.base - posted.total);
      CompensateKeepsDates(grouped, p, diff);
      var adjusted := Compensate(grouped, p, diff).value;
      EmitFromUsesUp(adjusted, p.year, p.line, a.Depreciable(), posted.count, posted.total);
    }
  }

  /** After an entry dated on the last day of the table's last year, with a table
      line still to come, the rebuild completes if and only if the posted total is
      already what the table depreciates, and then creates nothing. */
  lemma BoardAtEndOfTable(a: Asset, table: seq<Entry>, posted: Posted)
    requires a.Valid() && table != [] && Filled(table)
    requires posted.count > 0 && AtEndOfTable(table, posted.last) && posted.last < LastDate(table)
    ensures Rebuild(a, table, posted).Ok? <==> posted.total == a.base - LastRemaining(table)
    ensures Rebuild(a, table, posted) == if posted.total == a.base - LastRemaining(table) then Ok([])
      else Err(NoSuchTableLine)
  {
    var grouped := Group(table, a.dateStart.Ord());
    YearOfSame(table, grouped, posted.last, 0);
    GroupKeepsEnd(table, a.dateStart.Ord());
    LocateInside(grouped, posted.last);
  }

  /** A rebuild that completes conserves the depreciable amount exactly if the table leaves
      what may not be depreciated, or the last posted date is not the end of the table's
      last year. */
  lemma CompletedBoardConserves(a: Asset, table: seq<Entry>, posted: Posted)
    requires a.Valid() && table != [] && Filled(table)
    requires posted.count == 0 ==> posted.total == 0
    requires Rebuild(a, table, posted).Ok?
    ensures posted.total + SumNew(Rebuild(a, table, posted).value) == a.Depreciable()
      <==> LastRemaining(table) == a.base - a.Depreciable() || posted.count == 0 || !AtEndOfTable(table, posted.last)
  {
    if posted.count > 0 && AtEndOfTable(table, posted.last) {
      GroupKeepsEnd(table, a.dateStart.Ord());
      BoardAtEndOfTable(a, table, posted);
    } else {
      BoardConserves(a, table, posted);
    }
  }
}
