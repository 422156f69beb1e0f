/** What a rebuild creates from a computed table, line by line. */
module AssetSchedule {
  import opened Outcome
  import opened Calendar
  import opened AssetTypes
  import opened AssetDates
  import opened AssetLines
  import opened AssetConservation
  import opened AssetBoard
  import opened BoardConservation
  import opened BoardStability
  import opened AssetTable
  import opened AssetTheorems

  /* ---- lines before the start date become one ---- */

  /** Line `n` is the first that is not before the start date, or the last if all are. */
  ghost predicate FirstFrom(lines: seq<Line>, start: int, n: nat) {
    && n < |lines| && (forall j :: 0 <= j < n ==> lines[j].date < start)
    && (lines[n].date >= start || n == |lines| - 1)
  }

  lemma FirstFromOne(lines: seq<Line>, start: int, n: nat, m: nat)
    requires FirstFrom(lines, start, n) && FirstFrom(lines, start, m)
    ensures n == m
  {}

  /** One line for the first `n + 1`: of the date of the last of them, leaving what it leaves,
      and of the amount of all of them together; then the others as they were. */
  ghost predicate Merged(lines: seq<Line>, n: nat, grouped: seq<Line>) {
    && n < |lines| && |grouped| == |lines| - n && grouped[1..] == lines[n + 1..]
    && grouped[0] == Line(lines[n].date, lines[n].days, SumLines(lines[..n + 1]), 0, lines[n].remaining)
  }

  lemma {:induction false} GroupEndIs(lines: seq<Line>, start: int, i: nat)
    requires i < |lines| && forall j :: 0 <= j < i ==> lines[j].date < start
    ensures var n := GroupEnd(lines, start, i); n > i && FirstFrom(lines, start, n - 1)
    decreases |lines| - i
  {
    if lines[i].date < start && i + 1 < |lines| {
      GroupEndIs(lines, start, i + 1);
    }
  }

  /** Grouping the lines before the start date: if the first line is before it, all up to the
      first that is not become one; nothing else changes. */
  lemma GroupMerges(table: seq<Entry>, start: int) returns (n: nat)
    requires table != [] && Filled(table)
    ensures FirstFrom(table[0].lines, start, n)
    ensures var lines, r := table[0].lines, Group(table, start);
      && |r| == |table| && r[1..] == table[1..] && r[0].row == table[0].row
      && (if lines[0].date >= start then r == table else Merged(lines, n, r[0].lines))
  {
    hide SumLines, GroupEnd;
    var lines := table[0].lines;
    if lines[0].date >= start {
      n := 0;
    } else {
      GroupEndIs(lines, start, 0);
      n := GroupEnd(lines, start, 0) - 1;
    }
  }

  /* ---- the lines created ---- */

  /** The line created for an item, when `done` is depreciated before it: with its date, days
      and flag, and its amount, or whatever is left on the table's last date. */
  ghost predicate MadeFrom(item: Item, line: NewLine, most: int, lastDate: int, done: int) {
    && line.date == item.line.date && line.days == item.line.days && line.init == item.init
    && line.amount == (if item.line.date == lastDate then most - done else item.line.amount)
    && line.amount != 0
  }

  /** The lines come from the items at these positions, in order and numbered on. */
  ghost predicate MadeAt(items: seq<Item>, at: seq<nat>, lines: seq<NewLine>, most: int, lastDate: int, number: nat,
      done: int) {
    && |at| == |lines|
    && (forall k :: 0 <= k < |at| ==> at[k] < |items|)
    && (forall k, m :: 0 <= k < m < |at| ==> at[k] < at[m])
    && forall k :: 0 <= k < |at| ==>
         && lines[k].number == number + k + 1
         && MadeFrom(items[at[k]], lines[k], most, lastDate, done + SumNew(lines[..k]))
  }

  /** An item without a line has no amount, or finds nothing left on the last date. */
  ghost predicate LeftOut(items: seq<Item>, at: seq<nat>, lastDate: int) {
    forall q :: 0 <= q < |items| && q !in at ==> items[q].line.amount == 0 || items[q].line.date == lastDate
  }

  function Shifted(at: seq<nat>): (r: seq<nat>)
    ensures |r| == |at| && forall k :: 0 <= k < |at| ==> r[k] == at[k] + 1
  {
    seq(|at|, k requires 0 <= k < |at| => at[k] + 1)
  }

  lemma MadeShifted(items: seq<Item>, at: seq<nat>, lines: seq<NewLine>, most: int, lastDate: int, number: nat,
      done: int)
    requires items != [] && MadeAt(items[1..], at, lines, most, lastDate, number, done)
    ensures MadeAt(items, Shifted(at), lines, most, lastDate, number, done)
  {
    hide MadeFrom, SumNew;
    forall k | 0 <= k < |at|
      ensures items[Shifted(at)[k]] == items[1..][at[k]]
    {}
  }

  lemma MadeCons(items: seq<Item>, at: seq<nat>, line: NewLine, lines: seq<NewLine>, most: int, lastDate: int,
      number: nat, done: int)
    requires items != [] && MadeAt(items, at, lines, most, lastDate, number + 1, done + line.amount)
    requires forall k :: 0 <= k < |at| ==> at[k] > 0
    requires line.number == number + 1 && MadeFrom(items[0], line, most, lastDate, done)
    ensures MadeAt(items, [0] + at, [line] + lines, most, lastDate, number, done)
  {
    hide MadeFrom, SumNew;
    var where, all := [0] + at, [line] + lines;
    forall k | 0 <= k < |where|
      ensures all[k].number == number + k + 1
      ensures MadeFrom(items[where[k]], all[k], most, lastDate, done + SumNew(all[..k]))
    {
      if k == 0 {
        NothingNew(all);
      } else {
        SumNewHead(line, lines[..k - 1]);
        assert all[..k] == [line] + lines[..k - 1];
        assert where[k] == at[k - 1] && all[k] == lines[k - 1];
      }
    }
  }

  lemma NothingNew(lines: seq<NewLine>)
    ensures SumNew(lines[..0]) == 0
  {}

  lemma ShiftedHas(at: seq<nat>, q: nat)
    ensures q in at ==> q + 1 in Shifted(at)
  {
    if q in at {
      var k :| 0 <= k < |at| && at[k] == q;
      assert Shifted(at)[k] == q + 1;
    }
  }

  lemma LeftOutShifted(items: seq<Item>, at: seq<nat>, lastDate: int)
    requires items != [] && LeftOut(items[1..], at, lastDate)
    ensures LeftOut(items, [0] + Shifted(at), lastDate)
    ensures items[0].line.amount == 0 || items[0].line.date == lastDate ==> LeftOut(items, Shifted(at), lastDate)
  {
    forall q | 0 < q < |items| && q !in Shifted(at)
      ensures items[q].line.amount == 0 || items[q].line.date == lastDate
    {
      ShiftedHas(at, q - 1);
      assert items[q] == items[1..][q - 1];
    }
    assert forall q :: q in Shifted(at) ==> q in [0] + Shifted(at);
  }

  /** Every created line comes from a table line, and every table line with an amount is
      created. */
  ghost predicate Makes(items: seq<Item>, at: seq<nat>, most: int, lastDate: int, number: nat, done: int) {
    && MadeAt(items, at, Emit(items, most, lastDate, number, done), most, lastDate, number, done)
    && LeftOut(items, at, lastDate)
  }

  lemma SkipMakes(items: seq<Item>, at: seq<nat>, most: int, lastDate: int, number: nat, done: int)
    requires items != [] && Makes(items[1..], at, most, lastDate, number, done)
    requires 0 == if items[0].line.date == lastDate then most - done else items[0].line.amount
    ensures Makes(items, Shifted(at), most, lastDate, number, done)
  {
    EmitSkip(items, most, lastDate, number, done);
    hide Emit, MadeAt, LeftOut;
    LeftOutShifted(items, at, lastDate);
    MadeShifted(items, at, Emit(items[1..], most, lastDate, number, done), most, lastDate, number, done);
  }

  lemma TakeMakes(items: seq<Item>, at: seq<nat>, most: int, lastDate: int, number: nat, done: int, amount: int)
    requires items != [] && amount != 0 && Makes(items[1..], at, most, lastDate, number + 1, done + amount)
    requires amount == if items[0].line.date == lastDate then most - done else items[0].line.amount
    ensures Makes(items, [0] + Shifted(at), most, lastDate, number, done)
  {
    EmitHead(items, most, lastDate, number, done, amount);
    hide Emit, MadeAt, LeftOut;
    var rest, line := Emit(items[1..], most, lastDate, number + 1, done + amount), items[0].line;
    LeftOutShifted(items, at, lastDate);
    MadeShifted(items, at, rest, most, lastDate, number + 1, done + amount);
    MadeCons(items, Shifted(at), NewLine(number + 1, line.date, line.days, amount, items[0].init), rest, most,
      lastDate, number, done);
  }

  lemma {:induction false} EmitMade(items: seq<Item>, most: int, lastDate: int, number: nat, done: int)
    returns (at: seq<nat>)
    ensures Makes(items, at, most, lastDate, number, done)
  {
    if items == [] {
      at := [];
    } else {
      hide Makes;
      var amount := if items[0].line.date == lastDate then most - done else items[0].line.amount;
      if amount == 0 {
        at := EmitMade(items[1..], most, lastDate, number, done);
        SkipMakes(items, at, most, lastDate, number, done);
        at := Shifted(at);
      } else {
        at := EmitMade(items[1..], most, lastDate, number + 1, done + amount);
        TakeMakes(items, at, most, lastDate, number, done, amount);
        at := [0] + Shifted(at);
      }
    }
  }

  /* ---- the schedule of an asset with nothing posted ---- */

  /** The item of the first line. */
  lemma FirstOfGroup(table: seq<Entry>, start: int, n: nat)
    requires table != [] && Filled(table) && FirstFrom(table[0].lines, start, n)
    ensures var items, line := Items(Group(table, start), 0), table[0].lines[n];
      && items != [] && items[0].init == table[0].row.init
      && items[0].line.date == line.date && items[0].line.days == line.days
      && items[0].line.amount == SumLines(table[0].lines[..n + 1])
  {
    var lines, g := table[0].lines, Group(table, start);
    var m := GroupMerges(table, start);
    FirstFromOne(lines, start, n, m);
    assert Items(g, 0) == Tag(g[0].lines, g[0].row.init) + Items(g, 1);
    if lines[0].date >= start {
      assert lines[..1] == [lines[0]] && [lines[0]][1..] == [];
      assert SumLines([lines[0]]) == lines[0].amount;
    }
  }

  lemma FirstCreated(items: seq<Item>, most: int, lastDate: int)
    requires items != []
    ensures var line := items[0].line; var amount := if line.date == lastDate then most else line.amount;
      amount != 0 ==>
        var all := Emit(items, most, lastDate, 0, 0);
        all != [] && all[0] == NewLine(1, line.date, line.days, amount, items[0].init)
  {
    var line := items[0].line;
    var amount := if line.date == lastDate then most else line.amount;
    if amount != 0 {
      EmitHead(items, most, lastDate, 0, 0, amount);
    }
  }

  /** The first line of the schedule takes everything up to the first table line from the
      start date on, and no line is dated before the start unless no line of the first year
      reaches it. */
  lemma ScheduleFromStart(a: Asset, table: seq<Entry>) returns (n: nat)
    requires a.Valid() && table != [] && Laid(table)
    ensures Filled(table) && FirstFrom(table[0].lines, a.dateStart.Ord(), n)
    ensures var r := Rebuild(a, table, Posted(0, 0, 0)); var first := table[0].lines[n];
      var amount := if first.date == LastDate(table) then a.Depreciable() else SumLines(table[0].lines[..n + 1]);
      && r.Ok?
      && (forall k :: 0 <= k < |r.value| ==> first.date <= r.value[k].date)
      && (amount != 0 ==>
            r.value != [] && r.value[0] == NewLine(1, first.date, first.days, amount, table[0].row.init))
      && (first.date < a.dateStart.Ord() ==>
            forall j :: 0 <= j < |table[0].lines| ==> table[0].lines[j].date < a.dateStart.Ord())
  {
    hide Emit, Laid, LastDate, GroupLines, Rising, Items, SumLines, Date.Ord, Asset.Depreciable, Locate, Compensate,
      Contiguous, WithinStops, Rises, Merged;
    var start := a.dateStart.Ord();
    LaidFilled(table);
    n := GroupMerges(table, start);
    var g := Group(table, start);
    GroupLaid(table, start);
    GroupKeepsEnd(table, start);
    ItemsFromStart(g, 0);
    ItemsRise(g);
    var items := Items(g, 0);
    FirstOfGroup(table, start, n);
    EmitIncreasing(items, a.Depreciable(), LastDate(g), 0, 0);
    FirstCreated(items, a.Depreciable(), LastDate(g));
    assert Rebuild(a, table, Posted(0, 0, 0)) == Ok(Emit(items, a.Depreciable(), LastDate(g), 0, 0));
  }

  /** All its lines, one by one: they come in order from the lines of the table with the first
      ones grouped, numbered from 1, and every line of the table with an amount has its own. */
  lemma ScheduleMakes(a: Asset, table: seq<Entry>) returns (at: seq<nat>)
    requires a.Valid() && table != [] && Filled(table)
    ensures var r := Rebuild(a, table, Posted(0, 0, 0)); var items := Items(Group(table, a.dateStart.Ord()), 0);
      && r.Ok? && LeftOut(items, at, LastDate(table))
      && MadeAt(items, at, r.value, a.Depreciable(), LastDate(table), 0, 0)
  {
    hide Emit, LastDate, GroupLines, Items, MadeAt, LeftOut, Date.Ord, Asset.Depreciable;
    var g := Group(table, a.dateStart.Ord());
    GroupKeepsEnd(table, a.dateStart.Ord());
    ItemsFromStart(g, 0);
    at := EmitMade(Items(g, 0), a.Depreciable(), LastDate(g), 0, 0);
  }

  /* ---- an amount that was changed before it was posted ---- */

  /** No line of the table is dated between the two days. */
  ghost predicate Adjacent(table: seq<Entry>, day: int, next: int) {
    forall i, j :: 0 <= i < |table| && 0 <= j < |table[i].lines| ==> !(day < table[i].lines[j].date < next)
  }

  /** The year of a line on the day goes on after it, or ends that day. */
  ghost predicate GoesOn(table: seq<Entry>, day: int) {
    forall i, j :: 0 <= i < |table| && 0 <= j < |table[i].lines| && table[i].lines[j].date == day ==>
      j + 1 < |table[i].lines| || table[i].row.stop == day
  }

  lemma RisingFrom(items: seq<Item>, q: nat, lastDate: int)
    requires Rising(items, lastDate) && q <= |items|
    ensures Rising(items[q..], lastDate)
  {
    var rest := items[q..];
    assert forall p :: 0 <= p < |rest| ==> rest[p] == items[q + p];
  }

  /** After a line comes the next one of the table. */
  lemma NextItem(g: seq<Entry>, i: nat, j: nat)
    requires g != [] && Laid(g) && Filled(g) && i < |g| && j < |g[i].lines| && g[i].lines[j].date < LastDate(g)
    ensures var items := ItemsFrom(g, i, j + 1);
      && Rising(items, LastDate(g))
      && (items != [] ==>
            && g[i].lines[j].date < items[0].line.date
            && exists x, y :: 0 <= x < |g| && 0 <= y < |g[x].lines| && items[0].line == g[x].lines[y])
  {
    hide Laid, Items, Offset, ItemsFrom, LastDate, Rising;
    ItemsRise(g);
    ItemAt(g, i, j);
    ItemAt(g, i, j + 1);
    AllItems(g);
    var all, q := Items(g, 0), Offset(g, i) + j + 1;
    RisingFrom(all, q, LastDate(g));
    if all[q..] != [] {
      assert all[q..][0] == all[q];
      var x, y := PositionOf(g, q, |g|);
      ItemAt(g, x, y);
      LaterItem(all, q, LastDate(g));
    }
  }

  lemma LaterItem(items: seq<Item>, q: nat, lastDate: int)
    requires Rising(items, lastDate) && 0 < q < |items| && items[q - 1].line.date < lastDate
    ensures items[q - 1].line.date < items[q].line.date
  {}

  /** A first created line of the date of the first item is created from it. */
  lemma CreatedFirst(items: seq<Item>, most: int, lastDate: int, number: nat, done: int)
    requires items != [] && Rising(items, lastDate)
    requires var all := Emit(items, most, lastDate, number, done); all != [] && all[0].date == items[0].line.date
    ensures (if items[0].line.date == lastDate then most - done else items[0].line.amount) != 0
  {
    var amount := if items[0].line.date == lastDate then most - done else items[0].line.amount;
    if amount == 0 {
      EmitSkip(items, most, lastDate, number, done);
      hide Emit;
      RisingRest(items, lastDate);
      EmitIncreasing(items[1..], most, lastDate, number, done);
      if items[0].line.date == lastDate {
        NothingMore(items[1..], most, lastDate, number);
      }
    }
  }
  /** The first of the lines, its amount changed by `delta`, and the rest. */
  function Absorbed(lines: seq<NewLine>, delta: int): seq<NewLine>
    requires lines != []
  {
    [lines[0].(amount := lines[0].amount - delta)] + lines[1..]
  }

  lemma EmitAbsorbs(items: seq<Item>, changed: Item, most: int, lastDate: int, number: nat, done: int, delta: int)
    requires items != [] && Rising(items, lastDate)
    requires changed == Item(items[0].line.(amount := items[0].line.amount - delta), items[0].init)
    requires var all := Emit(items, most, lastDate, number, done);
      all != [] && all[0].date == items[0].line.date && all[0].amount != delta
    ensures Emit([changed] + items[1..], most, lastDate, number, done + delta)
      == Absorbed(Emit(items, most, lastDate, number, done), delta)
  {
    CreatedFirst(items, most, lastDate, number, done);
    var amount := if items[0].line.date == lastDate then most - done else items[0].line.amount;
    EmitHead(items, most, lastDate, number, done, amount);
    hide Emit;
    EmitHead([changed] + items[1..], most, lastDate, number, done + delta, amount - delta);
    assert ([changed] + items[1..])[1..] == items[1..];
  }

  /** Line `k` of the schedule posted in its own year, with `delta` more depreciated than
      scheduled: the next line takes it off, and nothing else changes. */
  lemma OnwardsAbsorb(a: Asset, g: seq<Entry>, k: nat, i: nat, j: nat, delta: int)
    requires Inner(g, i, j) && Filled(g) && 0 < k < |Schedule(a, g)| && g[i].row.start <= g[i].lines[j].date
    requires var all, line := Schedule(a, g), g[i].lines[j];
      && line.date == all[k - 1].date && line.remaining == a.base - SumNew(all[..k])
      && Emit(ItemsFrom(g, i, j + 1), a.Depreciable(), LastDate(g), k, SumNew(all[..k])) == all[k..]
      && Adjacent(g, line.date, all[k].date) && GoesOn(g, line.date) && all[k].amount != delta
    ensures var all := Schedule(a, g);
      Onwards(a, g, Posted(k, all[k - 1].date, SumNew(all[..k]) + delta)) == Ok(Absorbed(all[k..], delta))
  {
    hide Emit, Laid, LastDate, Locate, Schedule, Asset.Depreciable, Items, Rising, Compensate, SumNew, AtEndOfTable,
      ItemsFrom, Adjacent, GoesOn, Filled, Onwards, Absorbed;
    var all, done := Schedule(a, g), SumNew(Schedule(a, g)[..k]);
    FromTheNext(g, i, j, a.Depreciable(), k, done, all, k);
    var p := NextPosition(g, i, j, all[k].date);
    AbsorbStep(a, g, all[k - 1].date, k, p, ItemsFrom(g, i, j + 1), all[k..], done, delta);
  }

  lemma AbsorbStep(a: Asset, g: seq<Entry>, day: int, k: nat, p: Position, items: seq<Item>, rest: seq<NewLine>,
      done: int, delta: int)
    requires g != [] && Filled(g) && p == Locate(g, day) && p.residual == a.base - done
    requires p.year < |g| && p.line < |g[p.year].lines|
    requires items != [] && items[0] == Item(g[p.year].lines[p.line], g[p.year].row.init)
    requires items[1..] == ItemsFrom(g, p.year, p.line + 1) && Rising(items, LastDate(g))
    requires Emit(items, a.Depreciable(), LastDate(g), k, done) == rest != []
    requires rest[0].date == items[0].line.date && rest[0].amount != delta
    ensures Onwards(a, g, Posted(k, day, done + delta)) == Ok(Absorbed(rest, delta))
  {
    hide Emit, LastDate, Locate, Asset.Depreciable, Rising, ItemsFrom, Onwards, Absorbed;
    OnwardsFrom(a, g, Posted(k, day, done + delta), p, delta);
    EmitAbsorbs(items, Lessened(g, p, delta), a.Depreciable(), LastDate(g), k, done, delta);
  }

  lemma FromTheNext(g: seq<Entry>, i: nat, j: nat, most: int, number: nat, done: int, all: seq<NewLine>, k: nat)
    requires Inner(g, i, j) && Filled(g) && k < |all|
    requires Emit(ItemsFrom(g, i, j + 1), most, LastDate(g), number, done) == all[k..]
    ensures all[k..][0] == all[k]
    ensures ItemsFrom(g, i, j + 1) != [] && ItemsFrom(g, i, j + 1)[0].line.date <= all[k].date
  {
    hide Laid, LastDate, ItemsFrom, AtEndOfTable, Emit;
    EmitIncreasingOf(g, i, j, most, number, done);
  }

  /** The item at a position, its amount less `delta`. */
  function Lessened(g: seq<Entry>, p: Position, delta: int): Item
    requires p.year < |g| && p.line < |g[p.year].lines|
  {
    var line := g[p.year].lines[p.line];
    Item(line.(amount := line.amount - delta), g[p.year].row.init)
  }

  lemma OnwardsFrom(a: Asset, g: seq<Entry>, posted: Posted, p: Position, delta: int)
    requires g != [] && Filled(g) && p == Locate(g, posted.last) && p.residual - (a.base - posted.total) == delta
    requires p.year < |g| && p.line < |g[p.year].lines|
    ensures Onwards(a, g, posted)
      == Ok(Emit([Lessened(g, p, delta)] + ItemsFrom(g, p.year, p.line + 1), a.Depreciable(), LastDate(g), posted.count,
        posted.total))
  {
    hide Emit, LastDate, Locate, Asset.Depreciable, ItemsFrom, Compensate;
    ItemsFromCompensated(g, p, delta);
    CompensateKeepsDates(g, p, delta);
  }

  /** After the line comes the first item dated on the next day, at the position found. */
  lemma NextPosition(g: seq<Entry>, i: nat, j: nat, next: int) returns (p: Position)
    requires Inner(g, i, j) && Filled(g) && g[i].row.start <= g[i].lines[j].date
    requires Adjacent(g, g[i].lines[j].date, next) && GoesOn(g, g[i].lines[j].date)
    requires ItemsFrom(g, i, j + 1) != [] && ItemsFrom(g, i, j + 1)[0].line.date <= next
    ensures p == Locate(g, g[i].lines[j].date) && p.residual == g[i].lines[j].remaining
    ensures p.year < |g| && p.line < |g[p.year].lines|
    ensures var items := ItemsFrom(g, i, j + 1);
      && items != [] && items[0] == Item(g[p.year].lines[p.line], g[p.year].row.init)
      && items[1..] == ItemsFrom(g, p.year, p.line + 1)
    ensures g[p.year].lines[p.line].date == next && Rising(ItemsFrom(g, i, j + 1), LastDate(g))
  {
    hide Laid, LastDate, Locate, Items, Rising, AtEndOfTable, ItemsFrom;
    p := Locate(g, g[i].lines[j].date);
    NextItem(g, i, j);
    LocateInYear(g, i, j);
    NothingAfter(g);
    FirstItem(g, p);
  }

  lemma NothingAfter(g: seq<Entry>)
    ensures ItemsFrom(g, |g|, 0) == []
  {}

  /** The items from a position that lies inside a year. */
  lemma FirstItem(g: seq<Entry>, p: Position)
    requires p.year < |g| && p.line < |g[p.year].lines|
    ensures ItemsFrom(g, p.year, p.line)
      == [Item(g[p.year].lines[p.line], g[p.year].row.init)] + ItemsFrom(g, p.year, p.line + 1)
  {
    var tagged := Tag(g[p.year].lines, g[p.year].row.init);
    var rest := Items(g, p.year + 1);
    hide Items;
    assert tagged[p.line..] == [tagged[p.line]] + tagged[p.line + 1..];
    assert ([tagged[p.line]] + tagged[p.line + 1..]) + rest == [tagged[p.line]] + (tagged[p.line + 1..] + rest);
  }

  lemma EmitIncreasingOf(g: seq<Entry>, i: nat, j: nat, most: int, number: nat, done: int)
    requires g != [] && Laid(g) && Filled(g) && i < |g| && j < |g[i].lines| && g[i].lines[j].date < LastDate(g)
    ensures var items := ItemsFrom(g, i, j + 1); var all := Emit(items, most, LastDate(g), number, done);
      all != [] ==> items != [] && items[0].line.date <= all[0].date
  {
    hide Laid, Rising, ItemsFrom, LastDate;
    NextItem(g, i, j);
    EmitIncreasing(ItemsFrom(g, i, j + 1), most, LastDate(g), number, done);
  }

  /** Post the first `k` lines of a schedule whose years start in themselves, with amounts
      that total `delta` more than scheduled, and rebuild: the next line takes it off, and the
      lines after it come back as they were.  No table line without an amount may come in
      between, and the next line must not vanish. */
  lemma DeviationAbsorbed(a: Asset, table: seq<Entry>, k: nat, delta: int)
    requires a.Valid() && table != [] && Laid(table) && Chain(Flatten(table), a.base, 0) && InYears(table)
    requires 0 < k < |Rebuild(a, table, Posted(0, 0, 0)).value|
    requires var all, g := Rebuild(a, table, Posted(0, 0, 0)).value, Group(table, a.dateStart.Ord());
      && !AtEndOfTable(table, all[k - 1].date)
      && Adjacent(g, all[k - 1].date, all[k].date) && GoesOn(g, all[k - 1].date) && all[k].amount != delta
    ensures var all := Rebuild(a, table, Posted(0, 0, 0)).value;
      Rebuild(a, table, Posted(k, all[k - 1].date, SumNew(all[..k]) + delta)) == Ok(Absorbed(all[k..], delta))
  {
    hide Emit, Laid, Chain, LastDate, Locate, YearOf, ItemsFrom, Items, GroupLines, Flatten, SumNew, Asset.Depreciable,
      InPlaceAt, Contiguous, Absorbed, Adjacent, GoesOn, Date.Ord;
    LaidFilled(table);
    var start := a.dateStart.Ord();
    var g := Group(table, start);
    GroupLaid(table, start);
    GroupChain(table, start, a.base);
    GroupKeepsEnd(table, start);
    ItemsFromStart(g, 0);
    ItemsRise(g);
    CreatedInTime(Items(g, 0), a.Depreciable(), LastDate(g), k);
    var all := Rebuild(a, table, Posted(0, 0, 0)).value;
    assert all == Schedule(a, g);
    var day := all[k - 1].date;
    YearOfSame(table, g, day, 0);
    var i, j := LineOfCreated(a, g, k);
    OwnYear(table, start, i, j);
    OnwardsAbsorb(a, g, k, i, j, delta);
  }

  lemma OwnYear(table: seq<Entry>, start: int, i: nat, j: nat)
    requires table != [] && Laid(table) && Filled(table) && InYears(table)
    requires var g := Group(table, start);
      i < |g| && j < |g[i].lines| && Laid(g) && g[i].lines[j].date < LastDate(g) == LastDate(table)
    ensures var g := Group(table, start); g[i].row.start <= g[i].lines[j].date
  {
    hide LastDate;
    var g := Group(table, start);
    if i == 0 {
      FirstYearInPlace(g);
      assert InPlaceAt(g, 0, j);
    } else if j > 0 {
      assert g[i] == table[i];
      NotAfterLast(g, i, 0, i, j);
      LinesOrdered(g, i, 0, i, j);
    } else {
      assert g[i] == table[i];
    }
  }

  /* ---- a line posted before the table begins ---- */

  lemma {:induction false} LineOfNone(lines: seq<Line>, day: int, from: int, j: nat)
    requires j < |lines| && day < from && forall k :: 0 <= k < |lines| ==> day < lines[k].date
    ensures LineOf(lines, day, from, j) == |lines| - 1
    decreases |lines| - j
  {
    if j < |lines| - 1 {
      LineOfNone(lines, day, lines[j].date, j + 1);
    }
  }

  lemma {:induction false} YearOfNone(table: seq<Entry>, day: int, i: nat)
    requires i < |table| && forall k :: i <= k < |table| ==> day < table[k].row.start
    ensures YearOf(table, day, i) == |table| - 1
    decreases |table| - i
  {
    if i < |table| - 1 {
      YearOfNone(table, day, i + 1);
    }
  }

  /** Before the first year there is no line. */
  lemma NothingEarlier(table: seq<Entry>, day: int)
    requires table != [] && Laid(table) && day < table[0].row.start
    ensures Filled(table)
    ensures forall i :: 0 <= i < |table| ==> day < table[i].row.start
    ensures var lines := table[|table| - 1].lines; forall j :: 0 <= j < |lines| ==> day < lines[j].date
  {
    assert Filled(table) && Contiguous(table);
    assert table[0].row.start <= table[0].lines[0].date;
    hide Laid, Items, ItemsFrom, LastDate, Offset;
    forall i | 0 < i < |table|
      ensures day < table[i].row.start
    {
      ContiguousRows(table, 0, i);
    }
    var last := |table| - 1;
    ItemsRise(table);
    ItemAt(table, 0, 0);
    forall j | 0 <= j < |table[last].lines|
      ensures day < table[last].lines[j].date
    {
      ItemAt(table, last, j);
      RisingAbove(Items(table, 0), Offset(table, last) + j, LastDate(table));
    }
  }

  lemma RisingAbove(items: seq<Item>, q: nat, lastDate: int)
    requires Rising(items, lastDate) && q < |items|
    ensures items[0].line.date <= items[q].line.date
  {}

  lemma NothingLater(g: seq<Entry>, p: Position)
    requires g != [] && p.year == |g| - 1 && p.line == |g[p.year].lines| - 1
    ensures ItemsFrom(g, p.year, p.line + 1) == [] && LastDate(g) == g[p.year].lines[p.line].date
  {
    assert Items(g, |g|) == [] && Tag(g[p.year].lines, g[p.year].row.init)[p.line + 1..] == [];
  }

  /** One line of the amount, or none if that is zero. */
  ghost predicate TakesRest(created: seq<NewLine>, number: nat, date: int, amount: int) {
    if amount == 0 then created == []
    else
      |created| == 1 && created[0].number == number && created[0].date == date && created[0].amount == amount
  }

  /** If the last posted line is dated before the first year of the table, the rebuild skips to
      the table's very last line and gives it everything that is left. */
  lemma PostedBeforeTable(a: Asset, table: seq<Entry>, posted: Posted)
    requires a.Valid() && table != [] && Laid(table) && posted.count > 0 && posted.last < table[0].row.start
    ensures Filled(table) && Rebuild(a, table, posted).Ok?
    ensures TakesRest(Rebuild(a, table, posted).value, posted.count + 1, LastDate(table),
      a.Depreciable() - posted.total)
  {
    hide Emit, LastDate, GroupLines, ItemsFrom, Items, Asset.Depreciable, Date.Ord, Laid, LineOf, YearOf;
    LaidFilled(table);
    var g := Group(table, a.dateStart.Ord());
    GroupLaid(table, a.dateStart.Ord());
    GroupKeepsEnd(table, a.dateStart.Ord());
    NothingEarlier(g, posted.last);
    YearOfNone(g, posted.last, 0);
    var i := |g| - 1;
    LineOfNone(g[i].lines, posted.last, g[i].row.start, 0);
    RowsOrdered(g, i);
    var p := Locate(g, posted.last);
    var n := |g[i].lines| - 1;
    assert p == Position(i, n, g[i].lines[n].remaining);
    LastItemOnly(a, g, posted, p);
  }

  lemma RowsOrdered(g: seq<Entry>, i: nat)
    requires Laid(g) && i < |g|
    ensures g[i].row.start <= g[i].row.stop
  {}

  lemma LastItemOnly(a: Asset, g: seq<Entry>, posted: Posted, p: Position)
    requires g != [] && Filled(g) && p == Locate(g, posted.last)
    requires p.year == |g| - 1 && p.line == |g[p.year].lines| - 1
    ensures Onwards(a, g, posted).Ok?
    ensures TakesRest(Onwards(a, g, posted).value, posted.count + 1, LastDate(g), a.Depreciable() - posted.total)
  {
    hide Emit, Locate, Asset.Depreciable, Compensate, ItemsFrom, LastDate, Onwards, Filled;
    var item := Lessened(g, p, p.residual - (a.base - posted.total));
    OnwardsFrom(a, g, posted, p, p.residual - (a.base - posted.total));
    NothingLater(g, p);
    assert [item] + [] == [item];
    EmitOne(item, a.Depreciable(), posted.count, posted.total);
  }

  lemma EmitOne(item: Item, most: int, number: nat, done: int)
    ensures Emit([item], most, item.line.date, number, done)
      == if most == done then [] else [NewLine(number + 1, item.line.date, item.line.days, most - done, item.init)]
  {
    assert [item][1..] == [];
  }

  /** End to end, from any asset and any defined fiscal years. */
  lemma AssetFromStart(a: Asset, fys: seq<FiscalYear>) returns (n: nat)
    requires a.Valid() && ValidYears(fys) && Table(a, fys).Ok? && Table(a, fys).value != []
    ensures var table := Table(a, fys).value; var lines := table[0].lines;
      var r := Rebuild(a, table, Posted(0, 0, 0));
      && FirstFrom(lines, a.dateStart.Ord(), n) && r.Ok?
      && (forall k :: 0 <= k < |r.value| ==> lines[n].date <= r.value[k].date)
      && ((exists j :: 0 <= j < |lines| && lines[j].date >= a.dateStart.Ord()) ==>
            forall k :: 0 <= k < |r.value| ==> a.dateStart.Ord() <= r.value[k].date)
      && var amount := if lines[n].date == LastDate(table) then a.Depreciable() else SumLines(lines[..n + 1]);
      amount != 0 ==>
        r.value != [] && r.value[0] == NewLine(1, lines[n].date, lines[n].days, amount, table[0].row.init)
  {
    hide Table, TableOn, FrameOf, Rebuild, Laid, LastDate, SumLines, Asset.Depreciable, Date.Ord;
    TableOfFrame(a, fys);
    TableLaid(a, FrameOf(a, fys).value);
    n := ScheduleFromStart(a, Table(a, fys).value);
  }
}
