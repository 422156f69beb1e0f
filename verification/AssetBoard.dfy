/** Rebuilding the stored depreciation lines against what is already posted. */
module AssetBoard {
  import opened Outcome
  import opened AssetTypes
  import opened AssetLines

  /** A line the rebuild creates; `number` is the number in its name. */
  datatype NewLine = NewLine(number: nat, date: int, days: int, amount: int, init: bool)

  /** What the rebuild needs of the posted (or initial) lines: how many there are,
      the date of the latest, and their total. */
  datatype Posted = Posted(count: nat, last: int, total: int)

  /** A table line together with the initial-balance flag of its year. */
  datatype Item = Item(line: Line, init: bool)

  ghost predicate Filled(table: seq<Entry>) {
    forall i :: 0 <= i < |table| ==> table[i].lines != []
  }

  function LastDate(table: seq<Entry>): int
    requires table != [] && table[|table| - 1].lines != []
  {
    var lines := table[|table| - 1].lines;
    lines[|lines| - 1].date
  }

  /* ---- lines before the start date become one ---- */

  /** How many leading lines are grouped: all up to and including the first that
      is not before the start date, if the first one is before it. */
  function GroupSize(lines: seq<Line>, start: int): (n: nat)
    requires lines != []
    ensures n <= |lines|
  {
    if lines[0].date < start then GroupEnd(lines, start, 0) else 0
  }

  function GroupEnd(lines: seq<Line>, start: int, i: nat): (n: nat)
    requires i <= |lines|
    ensures i <= n <= |lines|
    decreases |lines| - i
  {
    if i == |lines| then i
    else if lines[i].date >= start then i + 1
    else GroupEnd(lines, start, i + 1)
  }

  /** The grouped line is the last of the group with the group's total. */
  function GroupLines(lines: seq<Line>, start: int): (r: seq<Line>)
    requires lines != []
    ensures r != []
  {
    var n := GroupSize(lines, start);
    if n == 0 then lines
    else [lines[n - 1].(amount := SumLines(lines[..n]), depreciated := 0)] + lines[n..]
  }

  function Group(table: seq<Entry>, start: int): (r: seq<Entry>)
    requires table != [] && Filled(table)
    ensures Filled(r) && |r| == |table| && r[1..] == table[1..] && r[0].row == table[0].row
  {
    table[0 := table[0].(lines := GroupLines(table[0].lines, start))]
  }

  method GroupEarlyLines(table: seq<Entry>, start: int) returns (r: seq<Entry>)
    requires table != [] && Filled(table)
    ensures r == Group(table, start)
  {
    var lines := table[0].lines;
    var flag := lines[0].date < start;
    var lines1, lines2: seq<Line> := [], [];
    for i := 0 to |lines|
      invariant lines[0].date >= start ==> !flag && lines1 == [] && lines2 == lines[..i]
      invariant lines[0].date < start && flag ==>
          lines1 == lines[..i] && lines2 == [] && GroupEnd(lines, start, i) == GroupSize(lines, start)
      invariant lines[0].date < start && !flag ==>
          var n := GroupSize(lines, start); 0 < n <= i && lines1 == lines[..n] && lines2 == lines[n..i]
    {
      if flag {
        lines1 := lines1 + [lines[i]];
        if lines[i].date >= start {
          flag := false;
        }
      } else {
        lines2 := lines2 + [lines[i]];
      }
    }
    ghost var n := GroupSize(lines, start);
    assert lines1 == lines[..n] && lines2 == lines[n..];
    if lines1 != [] {
      var total := 0;
      for k := 0 to |lines1|
        invariant total == SumLines(lines1[..k])
      {
        SumSnoc(lines1[..k], lines1[k]);
        assert lines1[..k + 1] == lines1[..k] + [lines1[k]];
        total := total + lines1[k].amount;
      }
      assert lines1[..|lines1|] == lines1;
      lines1 := [lines1[|lines1| - 1].(amount := total, depreciated := 0)];
    }
    assert lines1 + lines2 == GroupLines(lines, start);
    r := table[0 := table[0].(lines := lines1 + lines2)];
  }

  lemma {:induction false} SumSnoc(lines: seq<Line>, line: Line)
    ensures SumLines(lines + [line]) == SumLines(lines) + line.amount
  {
    if lines != [] {
      assert (lines + [line])[1..] == lines[1..] + [line];
      SumSnoc(lines[1..], line);
    }
  }

  /* ---- where the rebuild starts ---- */

  /** The year of the table the day lies in, or the last year. */
  function YearOf(table: seq<Entry>, day: int, i: nat): (k: nat)
    requires i < |table|
    ensures i <= k < |table|
    decreases |table| - i
  {
    if table[i].row.start <= day <= table[i].row.stop || i == |table| - 1 then i
    else YearOf(table, day, i + 1)
  }

  /** The first line that reaches the day from a line (or year start) not after
      it, or the last line. */
  function LineOf(lines: seq<Line>, day: int, from: int, j: nat): (k: nat)
    requires j < |lines|
    ensures j <= k < |lines|
    decreases |lines| - j
  {
    if from <= day <= lines[j].date || j == |lines| - 1 then j
    else LineOf(lines, day, lines[j].date, j + 1)
  }

  /** The position after the last posted date and the residual the table expects
      there. */
  datatype Position = Position(year: nat, line: nat, residual: int)

  function Locate(table: seq<Entry>, day: int): (p: Position)
    requires table != [] && Filled(table)
    ensures p.year <= |table|
    ensures p.year < |table| ==> p.line <= |table[p.year].lines|
  {
    var i := YearOf(table, day, 0);
    var entry := table[i];
    if entry.row.stop == day then Position(i + 1, 0, entry.lines[|entry.lines| - 1].remaining)
    else
      var j := LineOf(entry.lines, day, entry.row.start, 0);
      Position(i, if entry.lines[j].date == day then j + 1 else j, entry.lines[j].remaining)
  }

  method FindPosition(table: seq<Entry>, day: int) returns (p: Position)
    requires table != [] && Filled(table)
    ensures p == Locate(table, day)
  {
    var i := 0;
    while !(table[i].row.start <= day <= table[i].row.stop) && i < |table| - 1
      invariant i < |table|
      invariant YearOf(table, day, 0) == YearOf(table, day, i)
      decreases |table| - i
    {
      i := i + 1;
    }
    var entry := table[i];
    if entry.row.stop == day {
      return Position(i + 1, 0, entry.lines[|entry.lines| - 1].remaining);
    }
    var from := entry.row.start;
    var j := 0;
    while !(from <= day <= entry.lines[j].date) && j < |entry.lines| - 1
      invariant j < |entry.lines|
      invariant LineOf(entry.lines, day, entry.row.start, 0) == LineOf(entry.lines, day, from, j)
      decreases |entry.lines| - j
    {
      from := entry.lines[j].date;
      j := j + 1;
    }
    p := Position(i, if entry.lines[j].date == day then j + 1 else j, entry.lines[j].remaining);
  }

  /* ---- the lines it creates ---- */

  function Tag(lines: seq<Line>, init: bool): (r: seq<Item>)
    ensures |r| == |lines|
    ensures forall k :: 0 <= k < |r| ==> r[k] == Item(lines[k], init)
  {
    seq(|lines|, k requires 0 <= k < |lines| => Item(lines[k], init))
  }

  /** All lines of the table from year `i` on, in order. */
  function Items(table: seq<Entry>, i: nat): seq<Item>
    requires i <= |table|
    decreases |table| - i
  {
    if i == |table| then [] else Tag(table[i].lines, table[i].row.init) + Items(table, i + 1)
  }

  /** All lines from line `j` of year `i` on. */
  function ItemsFrom(table: seq<Entry>, i: nat, j: nat): seq<Item>
    requires i <= |table| && (i < |table| ==> j <= |table[i].lines|)
  {
    if i == |table| then []
    else Tag(table[i].lines, table[i].row.init)[j..] + Items(table, i + 1)
  }

  /** One created line per item with an amount; the line on the table's last date
      takes whatever is left to depreciate. */
  function Emit(items: seq<Item>, most: int, lastDate: int, number: nat, done: int): seq<NewLine> {
    if items == [] then []
    else
      var line := items[0].line;
      var amount := if line.date == lastDate then most - done else line.amount;
      if amount == 0 then Emit(items[1..], most, lastDate, number, done)
      else [NewLine(number + 1, line.date, line.days, amount, items[0].init)]
           + Emit(items[1..], most, lastDate, number + 1, done + amount)
  }

  function SumNew(lines: seq<NewLine>): int {
    if lines == [] then 0 else lines[0].amount + SumNew(lines[1..])
  }

  /** Lines are created item by item: those of a first stretch, then those of the
      rest, counted and summed on. */
  lemma {:induction false} EmitConcat(x: seq<Item>, z: seq<Item>, most: int, lastDate: int, number: nat, done: int)
    ensures var e := Emit(x, most, lastDate, number, done);
      Emit(x + z, most, lastDate, number, done) == e + Emit(z, most, lastDate, number + |e|, done + SumNew(e))
  {
    if x == [] {
      assert x + z == z;
    } else {
      assert (x + z)[1..] == x[1..] + z;
      var line := x[0].line;
      var amount := if line.date == lastDate then most - done else line.amount;
      if amount == 0 {
        EmitConcat(x[1..], z, most, lastDate, number, done);
      } else {
        EmitConcat(x[1..], z, most, lastDate, number + 1, done + amount);
        EmitConcatCons(x, z, most, lastDate, number, done, amount);
      }
    }
  }

  lemma EmitConcatCons(x: seq<Item>, z: seq<Item>, most: int, lastDate: int, number: nat, done: int, amount: int)
    requires x != [] && amount != 0
    requires amount == if x[0].line.date == lastDate then most - done else x[0].line.amount
    requires var e := Emit(x[1..], most, lastDate, number + 1, done + amount);
      Emit(x[1..] + z, most, lastDate, number + 1, done + amount)
      == e + Emit(z, most, lastDate, number + 1 + |e|, done + amount + SumNew(e))
    ensures var e := Emit(x, most, lastDate, number, done);
      Emit(x + z, most, lastDate, number, done) == e + Emit(z, most, lastDate, number + |e|, done + SumNew(e))
  {
    hide Emit, SumNew;
    var rest := Emit(x[1..], most, lastDate, number + 1, done + amount);
    var head := [NewLine(number + 1, x[0].line.date, x[0].line.days, amount, x[0].init)];
    EmitHead(x, most, lastDate, number, done, amount);
    EmitHead(x + z, most, lastDate, number, done, amount);
    assert (x + z)[1..] == x[1..] + z;
    SumNewHead(head[0], rest);
    var tail := Emit(z, most, lastDate, number + 1 + |rest|, done + amount + SumNew(rest));
    assert head + (rest + tail) == (head + rest) + tail;
  }

  lemma EmitHead(x: seq<Item>, most: int, lastDate: int, number: nat, done: int, amount: int)
    requires x != [] && amount != 0
    requires amount == if x[0].line.date == lastDate then most - done else x[0].line.amount
    ensures Emit(x, most, lastDate, number, done)
            == [NewLine(number + 1, x[0].line.date, x[0].line.days, amount, x[0].init)]
               + Emit(x[1..], most, lastDate, number + 1, done + amount)
  {}

  lemma SumNewHead(first: NewLine, rest: seq<NewLine>)
    ensures SumNew([first] + rest) == first.amount + SumNew(rest)
  {
    assert ([first] + rest)[1..] == rest;
  }

  /** The variables of the loops that create lines. */
  datatype Progress = Progress(created: seq<NewLine>, number: nat, done: int)

  function EmitOn(p: Progress, items: seq<Item>, most: int, lastDate: int): Progress {
    var e := Emit(items, most, lastDate, p.number, p.done);
    Progress(p.created + e, p.number + |e|, p.done + SumNew(e))
  }

  /** What one item adds. */
  function Take(p: Progress, item: Item, most: int, lastDate: int): Progress {
    var amount := if item.line.date == lastDate then most - p.done else item.line.amount;
    if amount == 0 then p
    else Progress(p.created + [NewLine(p.number + 1, item.line.date, item.line.days, amount, item.init)],
                  p.number + 1, p.done + amount)
  }

  lemma EmitOnStep(p: Progress, items: seq<Item>, most: int, lastDate: int)
    requires items != []
    ensures EmitOn(p, items, most, lastDate) == EmitOn(Take(p, items[0], most, lastDate), items[1..], most, lastDate)
  {
    var q := Take(p, items[0], most, lastDate);
    if q != p {
      var e := Emit(items, most, lastDate, p.number, p.done);
      var rest := Emit(items[1..], most, lastDate, q.number, q.done);
      assert e == [e[0]] + rest && e[1..] == rest;
      assert p.created + ([e[0]] + rest) == (p.created + [e[0]]) + rest;
    }
  }

  lemma EmitOnNone(p: Progress, most: int, lastDate: int)
    ensures EmitOn(p, [], most, lastDate) == p
  {}

  /** The lines of one year, after those created already. */
  method CreateYear(p: Progress, lines: seq<Line>, init: bool, from: nat, most: int, lastDate: int)
      returns (r: Progress)
    requires from <= |lines|
    ensures r == EmitOn(p, Tag(lines, init)[from..], most, lastDate)
  {
    hide EmitOn;
    r := p;
    ghost var items := Tag(lines, init);
    var j := from;
    while j < |lines|
      invariant from <= j <= |lines|
      invariant EmitOn(p, items[from..], most, lastDate) == EmitOn(r, items[j..], most, lastDate)
    {
      EmitOnStep(r, items[j..], most, lastDate);
      assert items[j..][0] == Item(lines[j], init) && items[j..][1..] == items[j + 1..];
      var line := lines[j];
      var amount := if line.date == lastDate then most - r.done else line.amount;
      if amount != 0 {
        var number := r.number + 1;
        r := Progress(r.created + [NewLine(number, line.date, line.days, amount, init)], number, r.done + amount);
      }
      j := j + 1;
    }
    assert items[j..] == [];
    EmitOnNone(r, most, lastDate);
  }

  /** Going on from `p` through the table's lines from line `j` of year `i`. */
  function Onward(p: Progress, table: seq<Entry>, i: nat, j: nat, most: int, lastDate: int): Progress
    requires i <= |table| && (i < |table| ==> j <= |table[i].lines|)
  {
    EmitOn(p, ItemsFrom(table, i, j), most, lastDate)
  }

  lemma OnwardYear(p: Progress, table: seq<Entry>, i: nat, j: nat, most: int, lastDate: int)
    requires i < |table| && j <= |table[i].lines|
    ensures var q := EmitOn(p, Tag(table[i].lines, table[i].row.init)[j..], most, lastDate);
      Onward(p, table, i, j, most, lastDate) == Onward(q, table, i + 1, 0, most, lastDate)
  {
    hide Emit, SumNew;
    var x, z := Tag(table[i].lines, table[i].row.init)[j..], Items(table, i + 1);
    ItemsFromStart(table, i + 1);
    EmitConcat(x, z, most, lastDate, p.number, p.done);
    var e := Emit(x, most, lastDate, p.number, p.done);
    var f := Emit(z, most, lastDate, p.number + |e|, p.done + SumNew(e));
    SumNewConcat(e, f);
    assert ItemsFrom(table, i, j) == x + z;
    assert p.created + (e + f) == (p.created + e) + f;
  }

  lemma {:induction false} SumNewConcat(x: seq<NewLine>, z: seq<NewLine>)
    ensures SumNew(x + z) == SumNew(x) + SumNew(z)
  {
    if x == [] {
      assert x + z == z;
    } else {
      assert (x + z)[1..] == x[1..] + z;
      SumNewConcat(x[1..], z);
    }
  }

  method CreateLines(a: Asset, table: seq<Entry>, p: Position, number: nat, done: int) returns (created: seq<NewLine>)
    requires table != [] && Filled(table)
    requires p.year <= |table| && (p.year < |table| ==> p.line <= |table[p.year].lines|)
    ensures created == Emit(ItemsFrom(table, p.year, p.line), a.Depreciable(), LastDate(table), number, done)
  {
    OnwardStart(table, p.year, p.line, a.Depreciable(), LastDate(table), number, done);
    var progress := CreateOnward(Progress([], number, done), table, p.year, p.line, a.Depreciable(), LastDate(table));
    created := progress.created;
  }

  method CreateOnward(p: Progress, table: seq<Entry>, year: nat, line: nat, most: int, lastDate: int)
      returns (r: Progress)
    requires year <= |table| && (year < |table| ==> line <= |table[year].lines|)
    ensures r == Onward(p, table, year, line, most, lastDate)
  {
    hide EmitOn, Emit, ItemsFrom, Onward, Tag;
    r := p;
    var i: nat, j: nat := year, line;
    while i < |table|
      invariant i <= |table| && (i < |table| ==> j <= |table[i].lines|)
      invariant Onward(p, table, year, line, most, lastDate) == Onward(r, table, i, j, most, lastDate)
      decreases |table| - i
    {
      OnwardYear(r, table, i, j, most, lastDate);
      r := CreateYear(r, table[i].lines, table[i].row.init, j, most, lastDate);
      i, j := i + 1, 0;
    }
    OnwardDone(r, table, j, most, lastDate);
  }

  lemma OnwardStart(table: seq<Entry>, i: nat, j: nat, most: int, lastDate: int, number: nat, done: int)
    requires i <= |table| && (i < |table| ==> j <= |table[i].lines|)
    ensures Onward(Progress([], number, done), table, i, j, most, lastDate).created
            == Emit(ItemsFrom(table, i, j), most, lastDate, number, done)
  {}

  lemma OnwardDone(p: Progress, table: seq<Entry>, j: nat, most: int, lastDate: int)
    ensures Onward(p, table, |table|, j, most, lastDate) == p
  {}

  lemma ItemsFromStart(table: seq<Entry>, i: nat)
    requires i <= |table|
    ensures ItemsFrom(table, i, 0) == Items(table, i)
  {
    if i < |table| {
      var tagged := Tag(table[i].lines, table[i].row.init);
      assert tagged[0..] == tagged;
    }
  }

  /* ---- the rebuild ---- */

  /** The table with the first line after the posted ones made to absorb `diff`. */
  function Compensate(table: seq<Entry>, p: Position, diff: int): (r: Result<seq<Entry>>)
    ensures r.Ok? ==> |r.value| == |table|
  {
    if diff == 0 then Ok(table)
    else if p.year >= |table| || p.line >= |table[p.year].lines| then Err(NoSuchTableLine)
    else
      var lines := table[p.year].lines;
      var line := lines[p.line].(amount := lines[p.line].amount - diff);
      Ok(table[p.year := table[p.year].(lines := lines[p.line := line])])
  }

  /** The lines a rebuild creates after the posted ones, for a computed table. */
  function Rebuild(a: Asset, table0: seq<Entry>, posted: Posted): (r: Result<seq<NewLine>>)
    requires a.Valid() && Filled(table0)
  {
    if table0 == [] then Ok([])
    else
      var table := Group(table0, a.dateStart.Ord());
      if posted.count == 0 then
        Ok(Emit(ItemsFrom(table, 0, 0), a.Depreciable(), LastDate(table), 0, 0))
      else if LastDate(table) <= posted.last then Err(DurationConflict)
      else
        var p := Locate(table, posted.last);
        var adjusted :- Compensate(table, p, p.residual - (a.base - posted.total));
        Ok(Emit(ItemsFrom(adjusted, p.year, p.line), a.Depreciable(), LastDate(adjusted), posted.count, posted.total))
  }

  method RebuildLines(a: Asset, table0: seq<Entry>, posted: Posted) returns (r: Result<seq<NewLine>>)
    requires a.Valid() && Filled(table0)
    ensures r == Rebuild(a, table0, posted)
  {
    hide Emit, ItemsFrom, Items, Locate, Group, Asset.Depreciable;
    if table0 == [] {
      return Ok([]);
    }
    var table := GroupEarlyLines(table0, a.dateStart.Ord());
    if posted.count == 0 {
      var created := CreateLines(a, table, Position(0, 0, 0), 0, 0);
      return Ok(created);
    }
    if LastDate(table) <= posted.last {
      return Err(DurationConflict);
    }
    var p := FindPosition(table, posted.last);
    var diff := p.residual - (a.base - posted.total);
    if diff != 0 {
      if p.year >= |table| || p.line >= |table[p.year].lines| {
        return Err(NoSuchTableLine);
      }
      var lines := table[p.year].lines;
      var line := lines[p.line].(amount := lines[p.line].amount - diff);
      table := table[p.year := table[p.year].(lines := lines[p.line := line])];
    }
    var created := CreateLines(a, table, p, posted.count, posted.total);
    return Ok(created);
  }
}
