/** Posting part of a schedule and rebuilding it: exactly when the rest comes back. */
module BoardStability {
  import opened Outcome
  import opened AssetTypes
  import opened AssetLines
  import opened AssetConservation
  import opened AssetBoard
  import opened BoardConservation

  /* ---- the shape of a table ---- */

  /** Dates increase up to the last one, which may be repeated. */
  ghost predicate Rises(lines: seq<Line>, lastDate: int) {
    && (forall p :: 0 <= p < |lines| ==> lines[p].date <= lastDate)
    && forall p, q :: 0 <= p < q < |lines| ==>
         lines[p].date < lines[q].date || lines[p].date == lines[q].date == lastDate
  }

  ghost predicate Contiguous(table: seq<Entry>) {
    && (forall i :: 0 <= i < |table| ==> table[i].row.start <= table[i].row.stop)
    && (forall i :: 0 < i < |table| ==> table[i].row.start == table[i - 1].row.stop + 1)
  }

  /** No line lies beyond its year, but possibly the very last one. */
  ghost predicate WithinStops(table: seq<Entry>) {
    forall i, j :: 0 <= i < |table| && 0 <= j < |table[i].lines|
                   && (i < |table| - 1 || j < |table[i].lines| - 1) ==>
      table[i].lines[j].date <= table[i].row.stop
  }

  /** The shape every computed table has.  A line may lie before its year: a year that stops
      early hands its dates on to the next. */
  ghost predicate Laid(table: seq<Entry>) {
    table != [] ==>
      && Filled(table) && Contiguous(table) && WithinStops(table)
      && Rises(Flatten(table), LastDate(table))
      && table[0].row.start <= table[0].lines[0].date
  }

  /** A line in its own fiscal year, or the first line of a year dated on the last day of the
      year before. */
  predicate InPlaceAt(table: seq<Entry>, i: nat, j: nat)
    requires i < |table| && j < |table[i].lines|
  {
    var day := table[i].lines[j].date;
    table[i].row.start <= day || (j == 0 && i > 0 && day == table[i - 1].row.stop)
  }

  /** A line before the table's last date on the day, if there is one, is in place. */
  ghost predicate InPlace(table: seq<Entry>, day: int)
    requires table != [] && Filled(table)
  {
    day < LastDate(table) ==>
      forall i: nat, j: nat :: i < |table| && j < |table[i].lines| && table[i].lines[j].date == day ==>
        InPlaceAt(table, i, j)
  }

  /** Every year starts in itself, or after all posting dates. */
  ghost predicate InYears(table: seq<Entry>)
    requires table != [] ==> Filled(table)
  {
    forall i :: 0 < i < |table| ==>
      table[i].row.start <= table[i].lines[0].date || table[i].lines[0].date == LastDate(table)
  }

  /* ---- positions in the list of all lines ---- */

  ghost predicate Rising(items: seq<Item>, lastDate: int) {
    && (forall p :: 0 <= p < |items| ==> items[p].line.date <= lastDate)
    && forall p, q :: 0 <= p < q < |items| ==>
         items[p].line.date < items[q].line.date || items[p].line.date == items[q].line.date == lastDate
  }

  lemma ItemsRise(table: seq<Entry>)
    requires table != [] && Laid(table)
    ensures Filled(table) && Rising(Items(table, 0), LastDate(table))
  {
    ItemsAreLines(table, 0);
    assert table[0..] == table;
  }

  /** How many lines come before year `i`. */
  function Offset(table: seq<Entry>, i: nat): nat
    requires i <= |table|
  {
    if i == 0 then 0 else Offset(table, i - 1) + |table[i - 1].lines|
  }

  lemma {:induction false} OffsetItems(table: seq<Entry>, i: nat)
    requires i <= |table|
    ensures Offset(table, i) <= |Items(table, 0)| && Items(table, i) == Items(table, 0)[Offset(table, i)..]
  {
    var items := Items(table, 0);
    if i > 0 {
      OffsetItems(table, i - 1);
      var tagged, from := Tag(table[i - 1].lines, table[i - 1].row.init), Offset(table, i - 1);
      assert items[from..] == tagged + Items(table, i);
      assert items[from..][|tagged|..] == items[from + |tagged|..];
    }
  }

  lemma {:induction false} OffsetGrows(table: seq<Entry>, i: nat, k: nat)
    requires i < k <= |table|
    ensures Offset(table, i) + |table[i].lines| <= Offset(table, k)
    decreases k - i
  {
    if i < k - 1 {
      OffsetGrows(table, i, k - 1);
    }
  }

  /** Line `j` of year `i` in the list of all lines. */
  lemma ItemAt(table: seq<Entry>, i: nat, j: nat)
    requires i < |table| && j <= |table[i].lines|
    ensures var items, at := Items(table, 0), Offset(table, i) + j;
      && at <= |items| && ItemsFrom(table, i, j) == items[at..]
      && (j < |table[i].lines| ==> at < |items| && items[at] == Item(table[i].lines[j], table[i].row.init))
  {
    OffsetItems(table, i);
    var items, from := Items(table, 0), Offset(table, i);
    var tagged, rest := Tag(table[i].lines, table[i].row.init), Items(table, i + 1);
    assert items[from..] == tagged + rest;
    assert (tagged + rest)[j..] == tagged[j..] + rest;
    assert items[from..][j..] == items[from + j..];
    assert j < |tagged| ==> items[from..][j] == tagged[j];
  }

  /** Every position in the list of all lines is some line of some year. */
  lemma {:induction false} PositionOf(table: seq<Entry>, q: nat, n: nat) returns (i: nat, j: nat)
    requires n <= |table| && q < Offset(table, n)
    ensures i < n && j < |table[i].lines| && q == Offset(table, i) + j
  {
    if q >= Offset(table, n - 1) {
      i, j := n - 1, q - Offset(table, n - 1);
    } else {
      i, j := PositionOf(table, q, n - 1);
    }
  }

  lemma AllItems(table: seq<Entry>)
    ensures |Items(table, 0)| == Offset(table, |table|)
  {
    OffsetItems(table, |table|);
  }

  /** Before the last date no two lines share a date. */
  lemma SamePosition(table: seq<Entry>, i: nat, j: nat, i': nat, j': nat)
    requires table != [] && Laid(table) && i < |table| && j < |table[i].lines| && i' < |table| && j' < |table[i'].lines|
    requires table[i].lines[j].date == table[i'].lines[j'].date < LastDate(table)
    ensures i == i' && j == j'
  {
    hide Laid, Items, Offset, ItemsFrom, LastDate;
    ItemsRise(table);
    ItemAt(table, i, j);
    ItemAt(table, i', j');
    if i < i' { OffsetGrows(table, i, i'); }
    if i' < i { OffsetGrows(table, i', i); }
  }

  /* ---- locating a line of the table ---- */

  lemma {:induction false} ContiguousRows(table: seq<Entry>, i: nat, k: nat)
    requires Contiguous(table) && i < k < |table|
    ensures table[i].row.stop < table[k].row.start
    decreases k - i
  {
    if i + 1 < k {
      ContiguousRows(table, i, k - 1);
    }
  }

  /** A day of the table lies in the year found. */
  lemma {:induction false} YearOfDay(table: seq<Entry>, day: int, k: nat, i: nat)
    requires Contiguous(table) && k <= i < |table|
    requires table[k].row.start <= day <= table[i].row.stop
    ensures var y := YearOf(table, day, k); y <= i && table[y].row.start <= day <= table[y].row.stop
    decreases i - k
  {
    if !(day <= table[k].row.stop) {
      YearOfDay(table, day, k + 1, i);
    }
  }

  lemma YearOfInside(table: seq<Entry>, day: int, i: nat)
    requires Contiguous(table) && i < |table| && table[0].row.start <= day
    requires table[i].row.start <= day <= table[i].row.stop
    ensures YearOf(table, day, 0) == i
  {
    YearOfDay(table, day, 0, i);
    var y := YearOf(table, day, 0);
    if y < i {
      ContiguousRows(table, y, i);
    }
  }

  /** The line found is the first on or after the day. */
  lemma {:induction false} LineOfLine(lines: seq<Line>, from: int, day: int, k: nat, j: nat)
    requires k <= j < |lines| && day <= lines[j].date && (forall x :: k <= x < j ==> lines[x].date < day)
    requires if k < j then true else from <= day
    ensures LineOf(lines, day, from, k) == j
    decreases j - k
  {
    if k < j {
      LineOfLine(lines, lines[k].date, day, k + 1, j);
    }
  }

  /** If all lines come before the day, it is the last one. */
  lemma {:induction false} LineOfLast(lines: seq<Line>, from: int, day: int, k: nat)
    requires k < |lines| && forall x :: k <= x < |lines| ==> lines[x].date < day
    ensures LineOf(lines, day, from, k) == |lines| - 1
    decreases |lines| - k
  {
    if k < |lines| - 1 {
      LineOfLast(lines, lines[k].date, day, k + 1);
    }
  }

  /** Lines of the table before the last date, compared by date. */
  lemma LinesOrdered(table: seq<Entry>, i: nat, j: nat, i': nat, j': nat)
    requires table != [] && Laid(table) && i < |table| && j < |table[i].lines| && i' < |table| && j' < |table[i'].lines|
    requires i < i' || (i == i' && j < j')
    requires table[i].lines[j].date < LastDate(table)
    ensures table[i].lines[j].date < table[i'].lines[j'].date
  {
    hide Laid, Items, Offset, ItemsFrom, LastDate;
    ItemsRise(table);
    ItemAt(table, i, j);
    ItemAt(table, i', j');
    if i < i' { OffsetGrows(table, i, i'); }
  }

  lemma LinesBefore(table: seq<Entry>, i: nat, j: nat, i': nat)
    requires table != [] && Laid(table) && i < |table| && j < |table[i].lines| && i' <= i
    requires table[i].lines[j].date < LastDate(table)
    ensures forall x :: 0 <= x < |table[i'].lines| && (i' < i || x < j) ==>
      table[i'].lines[x].date < table[i].lines[j].date
    ensures forall x :: j < x < |table[i].lines| ==> table[i].lines[j].date < table[i].lines[x].date
  {
    assert Filled(table);
    hide Laid, LastDate;
    forall x | 0 <= x < |table[i'].lines| && (i' < i || x < j)
      ensures table[i'].lines[x].date < table[i].lines[j].date
    {
      if table[i'].lines[x].date < LastDate(table) {
        LinesOrdered(table, i', x, i, j);
      } else {
        NotAfterLast(table, i', x, i, j);
      }
    }
    forall x | j < x < |table[i].lines|
      ensures table[i].lines[j].date < table[i].lines[x].date
    {
      LinesOrdered(table, i, j, i, x);
    }
  }

  lemma NotAfterLast(table: seq<Entry>, i: nat, j: nat, i': nat, j': nat)
    requires table != [] && Laid(table) && i < |table| && j < |table[i].lines| && i' < |table| && j' < |table[i'].lines|
    requires i < i' || (i == i' && j < j')
    ensures table[i'].lines[j'].date < LastDate(table) ==> table[i].lines[j].date < LastDate(table)
  {
    hide Laid, Items, Offset, ItemsFrom, LastDate;
    ItemsRise(table);
    ItemAt(table, i, j);
    ItemAt(table, i', j');
    if i < i' { OffsetGrows(table, i, i'); }
  }

  /** A line before the last date, and not the end of the whole table. */
  ghost predicate Inner(table: seq<Entry>, i: nat, j: nat) {
    && table != [] && Laid(table) && i < |table| && j < |table[i].lines|
    && table[i].lines[j].date < LastDate(table) && !AtEndOfTable(table, table[i].lines[j].date)
  }

  lemma InnerDay(table: seq<Entry>, i: nat, j: nat)
    requires Inner(table, i, j)
    ensures Filled(table) && Contiguous(table)
    ensures table[0].row.start <= table[i].lines[j].date <= table[i].row.stop
  {
    hide YearOf;
    if i > 0 || j > 0 {
      LinesBefore(table, i, j, 0);
    }
  }

  /** After a line in its own year the position found is the next line, and the residual
      expected there is what the line leaves. */
  lemma LocateInYear(table: seq<Entry>, i: nat, j: nat)
    requires Inner(table, i, j) && table[i].row.start <= table[i].lines[j].date
    ensures Filled(table)
    ensures var day := table[i].lines[j].date; var p := Locate(table, day);
      && p.residual == table[i].lines[j].remaining
      && ItemsFrom(table, p.year, p.line) == ItemsFrom(table, i, j + 1)
      && (if table[i].row.stop == day then p.year == i + 1 && p.line == 0 else p.year == i && p.line == j + 1)
  {
    hide YearOf, LineOf, Laid, LastDate, ItemsFrom;
    var e := table[i];
    var day := e.lines[j].date;
    InnerDay(table, i, j);
    YearOfInside(table, day, i);
    LinesBefore(table, i, j, i);
    if e.row.stop == day {
      YearEndsLast(table, i, j);
      ItemsAfterYear(table, i);
    } else {
      LineOfLine(e.lines, e.row.start, day, 0, j);
    }
  }

  /** A line on the last day of its year ends it. */
  lemma YearEndsLast(table: seq<Entry>, i: nat, j: nat)
    requires Inner(table, i, j) && table[i].lines[j].date == table[i].row.stop
    requires YearOf(table, table[i].row.stop, 0) == i
    ensures j == |table[i].lines| - 1
  {
    hide YearOf;
    if j < |table[i].lines| - 1 {
      LinesOrdered(table, i, j, i, j + 1);
    }
  }

  lemma ItemsAfterYear(table: seq<Entry>, i: nat)
    requires i < |table|
    ensures ItemsFrom(table, i, |table[i].lines|) == ItemsFrom(table, i + 1, 0)
  {
    ItemsFromStart(table, i + 1);
    hide Items, Tag;
    var rest := Items(table, i + 1);
    assert Tag(table[i].lines, table[i].row.init)[|table[i].lines|..] == [] && [] + rest == rest;
  }

  /** After a line before its year the position found is at most that line itself; and it is
      that line exactly if the line is in place. */
  lemma LocateEarly(table: seq<Entry>, i: nat, j: nat)
    requires Inner(table, i, j) && table[i].lines[j].date < table[i].row.start
    ensures Filled(table)
    ensures var p := Locate(table, table[i].lines[j].date);
      && p.year < |table| && p.line < |table[p.year].lines|
      && Offset(table, p.year) + p.line <= Offset(table, i) + j
      && (InPlaceAt(table, i, j) ==>
            i > 0 && p == Position(i, 0, table[i - 1].lines[|table[i - 1].lines| - 1].remaining))
      && (!InPlaceAt(table, i, j) ==> Offset(table, p.year) + p.line < Offset(table, i) + j)
  {
    hide YearOf, LineOf, Laid, LastDate, AtEndOfTable;
    var day := table[i].lines[j].date;
    InnerDay(table, i, j);
    YearOfDay(table, day, 0, i);
    var y := YearOf(table, day, 0);
    assert y < i;
    if y + 1 < i {
      ContiguousRows(table, y, i - 1);
    }
    OffsetGrows(table, y, i);
    if y + 1 < i {
      OffsetGrows(table, y + 1, i);
    }
    if table[y].row.stop != day {
      LinesBefore(table, i, j, y);
      LineOfLast(table[y].lines, table[y].row.start, day, 0);
    }
  }

  /* ---- created lines against table lines ---- */

  function SumItems(items: seq<Item>): int {
    if items == [] then 0 else items[0].line.amount + SumItems(items[1..])
  }

  /** Before the last date every item contributes its own amount. */
  lemma {:induction false} EmitSums(items: seq<Item>, most: int, lastDate: int, number: nat, done: int)
    requires forall k :: 0 <= k < |items| ==> items[k].line.date != lastDate
    ensures SumNew(Emit(items, most, lastDate, number, done)) == SumItems(items)
  {
    if items != [] {
      var amount := items[0].line.amount;
      if amount == 0 {
        EmitSums(items[1..], most, lastDate, number, done);
      } else {
        EmitSums(items[1..], most, lastDate, number + 1, done + amount);
        assert Emit(items, most, lastDate, number, done)[1..]
          == Emit(items[1..], most, lastDate, number + 1, done + amount);
      }
    }
  }

  /** The first `k` created lines come from a prefix of the items that ends with
      the item of the `k`-th line. */
  lemma {:induction false} EmitPrefix(items: seq<Item>, most: int, lastDate: int, number: nat, done: int, k: nat)
    returns (m: nat)
    requires 0 < k <= |Emit(items, most, lastDate, number, done)|
    ensures 0 < m <= |items|
    ensures Emit(items[..m], most, lastDate, number, done) == Emit(items, most, lastDate, number, done)[..k]
    ensures items[m - 1].line.date == Emit(items, most, lastDate, number, done)[k - 1].date
    ensures items[m - 1].line.date != lastDate ==>
      items[m - 1].line.amount == Emit(items, most, lastDate, number, done)[k - 1].amount != 0
  {
    var line := items[0].line;
    var amount := if line.date == lastDate then most - done else line.amount;
    var rest := items[1..];
    if amount == 0 {
      EmitSkip(items, most, lastDate, number, done);
      hide Emit;
      var n := EmitPrefix(rest, most, lastDate, number, done, k);
      m := n + 1;
      PrefixSkips(items, most, lastDate, number, done, n, k);
    } else {
      EmitHead(items, most, lastDate, number, done, amount);
      EmitNone(most, lastDate, number + 1, done + amount);
      hide Emit;
      if k == 1 {
        m := 1;
        PrefixTakes(items, most, lastDate, number, done, amount, 0, 1);
      } else {
        var n := EmitPrefix(rest, most, lastDate, number + 1, done + amount, k - 1);
        m := n + 1;
        PrefixTakes(items, most, lastDate, number, done, amount, n, k);
      }
    }
  }

  lemma PrefixSkips(items: seq<Item>, most: int, lastDate: int, number: nat, done: int, n: nat, k: nat)
    requires n < |items| && k <= |Emit(items[1..], most, lastDate, number, done)|
    requires 0 == if items[0].line.date == lastDate then most - done else items[0].line.amount
    requires Emit(items[1..][..n], most, lastDate, number, done)
      == Emit(items[1..], most, lastDate, number, done)[..k]
    ensures Emit(items, most, lastDate, number, done) == Emit(items[1..], most, lastDate, number, done)
    ensures Emit(items[..n + 1], most, lastDate, number, done) == Emit(items, most, lastDate, number, done)[..k]
  {
    EmitSkip(items, most, lastDate, number, done);
    EmitSkip(items[..n + 1], most, lastDate, number, done);
    hide Emit;
    assert items[..n + 1][0] == items[0] && items[..n + 1][1..] == items[1..][..n];
  }

  lemma PrefixTakes(items: seq<Item>, most: int, lastDate: int, number: nat, done: int, amount: int, n: nat, k: nat)
    requires n < |items| && amount != 0
    requires amount == if items[0].line.date == lastDate then most - done else items[0].line.amount
    requires 0 < k <= |Emit(items[1..], most, lastDate, number + 1, done + amount)| + 1
    requires Emit(items[1..][..n], most, lastDate, number + 1, done + amount)
      == Emit(items[1..], most, lastDate, number + 1, done + amount)[..k - 1]
    ensures |Emit(items, most, lastDate, number, done)|
      == |Emit(items[1..], most, lastDate, number + 1, done + amount)| + 1
    ensures Emit(items[..n + 1], most, lastDate, number, done) == Emit(items, most, lastDate, number, done)[..k]
  {
    hide Emit;
    EmitHead(items, most, lastDate, number, done, amount);
    EmitHead(items[..n + 1], most, lastDate, number, done, amount);
    assert items[..n + 1][0] == items[0] && items[..n + 1][1..] == items[1..][..n];
    TakeMore(NewLine(number + 1, items[0].line.date, items[0].line.days, amount, items[0].init),
      Emit(items[1..], most, lastDate, number + 1, done + amount), k);
  }

  lemma TakeMore(head: NewLine, tail: seq<NewLine>, k: nat)
    requires 0 < k <= |tail| + 1
    ensures ([head] + tail)[..k] == [head] + tail[..k - 1]
  {}

  lemma EmitNone(most: int, lastDate: int, number: nat, done: int)
    ensures Emit([], most, lastDate, number, done) == []
  {}

  lemma EmitSkip(items: seq<Item>, most: int, lastDate: int, number: nat, done: int)
    requires items != []
    requires 0 == if items[0].line.date == lastDate then most - done else items[0].line.amount
    ensures Emit(items, most, lastDate, number, done) == Emit(items[1..], most, lastDate, number, done)
  {}

  /** The items' lines are the flattened table's lines. */
  lemma {:induction false} ItemsAreLines(table: seq<Entry>, i: nat)
    requires i <= |table|
    ensures var items, lines := Items(table, i), Flatten(table[i..]);
      |items| == |lines| && forall k :: 0 <= k < |items| ==> items[k].line == lines[k]
    decreases |table| - i
  {
    if i < |table| {
      ItemsAreLines(table, i + 1);
      assert table[i..][0] == table[i] && table[i..][1..] == table[i + 1..];
    }
  }

  lemma {:induction false} SumItemsIsSumLines(items: seq<Item>, lines: seq<Line>)
    requires |items| == |lines| && forall k :: 0 <= k < |items| ==> items[k].line == lines[k]
    ensures SumItems(items) == SumLines(lines)
  {
    if items != [] {
      SumItemsIsSumLines(items[1..], lines[1..]);
    }
  }

  /** What remains after the `m`-th item is the base less the items so far. */
  lemma RemainingAfter(table: seq<Entry>, base: int, m: nat)
    requires Chain(Flatten(table), base, 0) && 0 < m <= |Items(table, 0)|
    ensures Items(table, 0)[m - 1].line.remaining == base - SumItems(Items(table, 0)[..m])
  {
    var items, lines := Items(table, 0), Flatten(table);
    assert table[0..] == table;
    ItemsAreLines(table, 0);
    ChainAt(lines, base, 0, m - 1);
    SumItemsIsSumLines(items[..m], lines[..m]);
  }

  /* ---- grouping keeps the shape ---- */

  lemma GroupedDates(lines: seq<Line>, start: int)
    requires lines != []
    ensures var r := GroupLines(lines, start); var cut := |lines| - |r|;
      0 <= cut && forall j :: 0 <= j < |r| ==> r[j].date == lines[cut + j].date
  {
    hide SumLines, GroupSize;
    var r, n := GroupLines(lines, start), GroupSize(lines, start);
    if n > 0 {
      assert |r| == |lines| - n + 1;
    }
  }

  lemma LaidFilled(table: seq<Entry>)
    requires table != [] && Laid(table)
    ensures Filled(table) && Contiguous(table) && WithinStops(table) && Rises(Flatten(table), LastDate(table))
    ensures table[0].row.start <= table[0].lines[0].date
  {}

  lemma GroupFirst(table: seq<Entry>, start: int)
    requires table != [] && Filled(table)
    ensures var g := Group(table, start); |g| == |table| && g[0].lines == GroupLines(table[0].lines, start) != []
    ensures forall i :: 0 < i < |table| ==> Group(table, start)[i] == table[i]
  {}

  lemma GroupLaid(table: seq<Entry>, start: int)
    requires table != [] && Laid(table)
    ensures Filled(table) && Laid(Group(table, start))
  {
    hide GroupLines, LastDate, Rises, WithinStops, Contiguous, Flatten, Filled, Laid, Group;
    LaidFilled(table);
    var g := Group(table, start);
    GroupFirst(table, start);
    GroupKeepsEnd(table, start);
    GroupedDates(table[0].lines, start);
    var cut := |table[0].lines| - |g[0].lines|;
    GroupRises(table, g, cut, LastDate(table));
    GroupWithin(table, g, cut);
    LaidOf(g);
  }

  lemma LaidOf(table: seq<Entry>)
    requires table != [] && Filled(table) && Contiguous(table) && WithinStops(table)
    requires Rises(Flatten(table), LastDate(table)) && table[0].row.start <= table[0].lines[0].date
    ensures Laid(table)
  {}

  lemma RisesFrom(lines: seq<Line>, later: seq<Line>, cut: nat, lastDate: int)
    requires Rises(lines, lastDate) && |later| + cut == |lines|
    requires forall p :: 0 <= p < |later| ==> later[p].date == lines[cut + p].date
    ensures Rises(later, lastDate)
    ensures later != [] ==> lines[0].date <= later[0].date
  {
    forall p, q | 0 <= p < q < |later|
      ensures later[p].date < later[q].date || later[p].date == later[q].date == lastDate
    {
      assert later[p].date == lines[cut + p].date && later[q].date == lines[cut + q].date;
    }
  }

  lemma GroupRises(table: seq<Entry>, g: seq<Entry>, cut: nat, lastDate: int)
    requires table != [] && g != [] && table[1..] == g[1..] && |g[0].lines| + cut == |table[0].lines|
    requires g[0].lines != [] && Rises(Flatten(table), lastDate)
    requires forall j :: 0 <= j < |g[0].lines| ==> g[0].lines[j].date == table[0].lines[cut + j].date
    ensures Rises(Flatten(g), lastDate) && table[0].lines[0].date <= g[0].lines[0].date
  {
    hide Rises;
    var rest := Flatten(table[1..]);
    assert Flatten(table) == table[0].lines + rest && Flatten(g) == g[0].lines + rest;
    hide Flatten;
    RisesFrom(table[0].lines + rest, g[0].lines + rest, cut, lastDate);
  }

  lemma GroupWithin(table: seq<Entry>, g: seq<Entry>, cut: nat)
    requires table != [] && |g| == |table| && Contiguous(table) && WithinStops(table)
    requires g[0].row == table[0].row && |g[0].lines| + cut == |table[0].lines|
    requires forall j :: 0 <= j < |g[0].lines| ==> g[0].lines[j].date == table[0].lines[cut + j].date
    requires forall i :: 0 < i < |table| ==> g[i] == table[i]
    ensures Contiguous(g) && WithinStops(g)
  {
    assert forall i :: 0 <= i < |table| ==> g[i].row == table[i].row;
    forall i, j | 0 <= i < |g| && 0 <= j < |g[i].lines| && (i < |g| - 1 || j < |g[i].lines| - 1)
      ensures g[i].lines[j].date <= g[i].row.stop
    {
      if i == 0 {
        assert table[0].lines[cut + j].date <= table[0].row.stop;
      } else {
        assert table[i].lines[j].date <= table[i].row.stop;
      }
    }
  }

  /** Grouping changes nothing about which lines are in place. */
  lemma GroupInPlace(table: seq<Entry>, start: int, day: int)
    requires table != [] && Laid(table)
    ensures Filled(table) && (InPlace(table, day) <==> InPlace(Group(table, start), day))
  {
    hide GroupLines, LastDate;
    var g := Group(table, start);
    GroupKeepsEnd(table, start);
    GroupLaid(table, start);
    FirstYearInPlace(table);
    FirstYearInPlace(g);
    assert forall i :: 0 < i < |table| ==> g[i] == table[i];
    hide Laid;
    forall i: nat, j: nat | 0 < i < |table| && j < |table[i].lines|
      ensures InPlaceAt(table, i, j) == InPlaceAt(g, i, j)
    {
      assert g[i - 1].row == table[i - 1].row;
    }
    if InPlace(table, day) {
      forall i: nat, j: nat | i < |g| && j < |g[i].lines| && g[i].lines[j].date == day < LastDate(g)
        ensures InPlaceAt(g, i, j)
      {
        if i > 0 {
          assert InPlaceAt(table, i, j);
        }
      }
    }
    if InPlace(g, day) {
      forall i: nat, j: nat | i < |table| && j < |table[i].lines| && table[i].lines[j].date == day < LastDate(table)
        ensures InPlaceAt(table, i, j)
      {
        if i > 0 {
          assert InPlaceAt(g, i, j);
        }
      }
    }
  }

  lemma FirstYearInPlace(table: seq<Entry>)
    requires table != [] && Laid(table)
    ensures forall j: nat :: j < |table[0].lines| ==> InPlaceAt(table, 0, j)
  {
    var lines := Flatten(table);
    assert lines == table[0].lines + Flatten(table[1..]);
    forall j: nat | j < |table[0].lines|
      ensures InPlaceAt(table, 0, j)
    {
      assert lines[j] == table[0].lines[j] && lines[0] == table[0].lines[0];
    }
  }

  lemma GroupChain(table: seq<Entry>, start: int, base: int)
    requires table != [] && Filled(table) && Chain(Flatten(table), base, 0)
    ensures Chain(Flatten(Group(table, start)), base, 0)
  {
    var lines, rest := table[0].lines, Flatten(table[1..]);
    var n := GroupSize(lines, start);
    var g := Group(table, start);
    assert Flatten(g) == g[0].lines + rest;
    ChainConcat(lines, rest, base, 0);
    if n > 0 {
      MergedChain(lines, start, base);
      hide Chain, SumLines, GroupLines;
      ChainConcat(GroupLines(lines, start), rest, base, 0);
    }
  }

  lemma ChainOne(line: Line, base: int)
    requires line.depreciated == 0 && line.amount + line.remaining == base
    ensures Chain([line], base, 0) && SumLines([line]) == line.amount
  {
    assert [line][1..] == [];
  }

  lemma MergedChain(lines: seq<Line>, start: int, base: int)
    requires lines != [] && Chain(lines, base, 0) && GroupSize(lines, start) > 0
    ensures Chain(GroupLines(lines, start), base, 0) && SumLines(GroupLines(lines, start)) == SumLines(lines)
  {
    hide Chain, SumLines, GroupSize;
    var n := GroupSize(lines, start);
    var merged, front, back := GroupLines(lines, start)[0], lines[..n], lines[n..];
    assert lines == front + back && GroupLines(lines, start) == [merged] + back;
    ChainConcat(front, back, base, 0);
    ChainAt(lines, base, 0, n - 1);
    ChainOne(merged, base);
    ChainConcat([merged], back, base, 0);
  }

  /* ---- stability ---- */

  /** Once everything is depreciated, lines on the last date create nothing. */
  lemma {:induction false} NothingMore(items: seq<Item>, most: int, lastDate: int, number: nat)
    requires forall p :: 0 <= p < |items| ==> items[p].line.date == lastDate
    ensures Emit(items, most, lastDate, number, most) == []
  {
    if items != [] {
      NothingMore(items[1..], most, lastDate, number);
    }
  }

  /** The `k`-th created line ends the schedule if it is on the last date: it takes all
      that is left. */
  lemma OnLastDate(items: seq<Item>, most: int, lastDate: int, m: nat)
    requires Rising(items, lastDate) && 0 < m <= |items| && items[m - 1].line.date == lastDate
    ensures Emit(items, most, lastDate, 0, 0) == Emit(items[..m], most, lastDate, 0, 0)
  {
    hide Emit;
    var done, todo := items[..m], items[m..];
    assert items == done + todo;
    EmitConcat(done, todo, most, lastDate, 0, 0);
    EmitUsesUp(done, most, lastDate, 0, 0);
    forall p | 0 <= p < |todo|
      ensures todo[p].line.date == lastDate
    {
      assert todo[p] == items[m + p];
    }
    NothingMore(todo, most, lastDate, |Emit(done, most, lastDate, 0, 0)|);
  }

  /** The created lines never pass the table's last date, and only the last is on it. */
  lemma CreatedInTime(items: seq<Item>, most: int, lastDate: int, k: nat)
    requires Rising(items, lastDate)
    requires 0 < k <= |Emit(items, most, lastDate, 0, 0)|
    ensures var all := Emit(items, most, lastDate, 0, 0);
      all[k - 1].date <= lastDate && (all[k - 1].date == lastDate ==> k == |all|)
  {
    hide Emit;
    var all := Emit(items, most, lastDate, 0, 0);
    var m := EmitPrefix(items, most, lastDate, 0, 0, k);
    assert items[m - 1].line.date <= lastDate;
    hide Rising;
    if all[k - 1].date == lastDate {
      OnLastDate(items, most, lastDate, m);
      assert |all[..k]| == k;
    }
  }

  ghost predicate Increase(created: seq<NewLine>) {
    forall p, q :: 0 <= p < q < |created| ==> created[p].date < created[q].date
  }

  /** Created lines are on strictly increasing dates, also when the table repeats its
      last date. */
  lemma {:induction false} EmitIncreasing(items: seq<Item>, most: int, lastDate: int, number: nat, done: int)
    requires Rising(items, lastDate)
    ensures Increase(Emit(items, most, lastDate, number, done))
    ensures forall k :: 0 <= k < |Emit(items, most, lastDate, number, done)| ==>
      items != [] && items[0].line.date <= Emit(items, most, lastDate, number, done)[k].date
  {
    if items != [] {
      var line, rest := items[0].line, items[1..];
      var amount := if line.date == lastDate then most - done else line.amount;
      RisingRest(items, lastDate);
      hide Rising;
      if amount == 0 {
        EmitIncreasing(rest, most, lastDate, number, done);
      } else {
        EmitIncreasing(rest, most, lastDate, number + 1, done + amount);
        if line.date == lastDate {
          NothingMore(rest, most, lastDate, number + 1);
        }
        var all, tail := Emit(items, most, lastDate, number, done),
          Emit(rest, most, lastDate, number + 1, done + amount);
        assert forall k :: 0 < k < |all| ==> all[k] == tail[k - 1];
      }
    }
  }

  lemma RisingRest(items: seq<Item>, lastDate: int)
    requires items != [] && Rising(items, lastDate)
    ensures Rising(items[1..], lastDate)
    ensures items[0].line.date == lastDate ==> forall p :: 0 <= p < |items[1..]| ==> items[1..][p].line.date == lastDate
    ensures |items| > 1 ==> items[0].line.date <= items[1].line.date
    ensures |items| > 1 && items[0].line.date != lastDate ==> items[0].line.date < items[1].line.date
  {
    forall p | 0 <= p < |items[1..]|
      ensures items[1..][p].line.date <= lastDate
      ensures items[0].line.date == lastDate ==> items[1..][p].line.date == lastDate
    {
      assert items[1..][p] == items[p + 1];
    }
  }

  /** Among the lines is one of the date and the amount of the given one. */
  ghost predicate Holds(lines: seq<NewLine>, line: NewLine) {
    exists q :: 0 <= q < |lines| && lines[q].date == line.date && lines[q].amount == line.amount
  }

  /** An item with an amount that is not on the last date is created. */
  lemma {:induction false} EmitHolds(items: seq<Item>, most: int, lastDate: int, number: nat, done: int, q: nat,
      line: NewLine)
    requires q < |items| && items[q].line.date == line.date != lastDate && items[q].line.amount == line.amount != 0
    ensures Holds(Emit(items, most, lastDate, number, done), line)
  {
    var first, rest := items[0].line, items[1..];
    var amount := if first.date == lastDate then most - done else first.amount;
    var all := Emit(items, most, lastDate, number, done);
    if q == 0 {
      assert all[0].date == line.date && all[0].amount == line.amount;
    } else if amount == 0 {
      EmitHolds(rest, most, lastDate, number, done, q - 1, line);
    } else {
      EmitHolds(rest, most, lastDate, number + 1, done + amount, q - 1, line);
      var tail := Emit(rest, most, lastDate, number + 1, done + amount);
      var x :| 0 <= x < |tail| && tail[x].date == line.date && tail[x].amount == line.amount;
      assert all[x + 1] == tail[x];
    }
  }

  lemma {:induction false} SameItems(table: seq<Entry>, other: seq<Entry>, i: nat)
    requires i <= |table| == |other| && forall k :: i <= k < |table| ==> table[k] == other[k]
    ensures Items(table, i) == Items(other, i)
    decreases |table| - i
  {
    if i < |table| {
      SameItems(table, other, i + 1);
    }
  }

  /** A compensated line is the first to be created from its position on. */
  lemma ItemsFromCompensated(table: seq<Entry>, p: Position, diff: int)
    requires p.year < |table| && p.line < |table[p.year].lines|
    ensures var line := table[p.year].lines[p.line]; var r := Compensate(table, p, diff);
      && r.Ok?
      && ItemsFrom(r.value, p.year, p.line)
         == [Item(line.(amount := line.amount - diff), table[p.year].row.init)]
            + ItemsFrom(table, p.year, p.line + 1)
  {
    var r, e := Compensate(table, p, diff).value, table[p.year];
    var tagged, changed := Tag(e.lines, e.row.init), Tag(r[p.year].lines, e.row.init);
    SameItems(table, r, p.year + 1);
    var rest := Items(table, p.year + 1);
    hide Items;
    assert changed[p.line + 1..] == tagged[p.line + 1..];
    assert changed[p.line..] == [changed[p.line]] + changed[p.line + 1..];
    assert ([changed[p.line]] + tagged[p.line + 1..]) + rest == [changed[p.line]] + (tagged[p.line + 1..] + rest);
  }

  /** What remains after a line is what remained before it less its amount. */
  lemma PrevRemaining(table: seq<Entry>, base: int, i: nat)
    requires Chain(Flatten(table), base, 0) && Filled(table) && 0 < i < |table|
    ensures var last := table[i - 1].lines[|table[i - 1].lines| - 1];
      last.remaining == table[i].lines[0].remaining + table[i].lines[0].amount
  {
    hide Chain, Items, ItemsFrom;
    var items, n := Items(table, 0), |table[i - 1].lines|;
    ItemAt(table, i, 0);
    ItemAt(table, i - 1, n - 1);
    var q := Offset(table, i);
    RemainingAfter(table, base, q);
    RemainingAfter(table, base, q + 1);
    assert items[..q + 1] == items[..q] + [items[q]];
    SumItemsSnoc(items[..q], items[q]);
  }

  lemma {:induction false} SumItemsSnoc(items: seq<Item>, item: Item)
    ensures SumItems(items + [item]) == SumItems(items) + item.line.amount
  {
    if items != [] {
      assert (items + [item])[1..] == items[1..] + [item];
      SumItemsSnoc(items[1..], item);
    }
  }

  /** All created lines of a table. */
  function Schedule(a: Asset, table: seq<Entry>): seq<NewLine>
    requires table != [] && Filled(table)
  {
    Emit(Items(table, 0), a.Depreciable(), LastDate(table), 0, 0)
  }

  /** The table line of the `k`-th created line: it leaves what is not yet created, and the
      lines after it create the rest. */
  lemma LineOfCreated(a: Asset, g: seq<Entry>, k: nat) returns (i: nat, j: nat)
    requires g != [] && Laid(g) && Filled(g) && Chain(Flatten(g), a.base, 0)
    requires 0 < k <= |Schedule(a, g)| && Schedule(a, g)[k - 1].date < LastDate(g)
    ensures i < |g| && j < |g[i].lines|
    ensures var all, line := Schedule(a, g), g[i].lines[j];
      && line.date == all[k - 1].date && line.amount == all[k - 1].amount != 0
      && line.remaining == a.base - SumNew(all[..k])
      && Emit(ItemsFrom(g, i, j + 1), a.Depreciable(), LastDate(g), k, SumNew(all[..k])) == all[k..]
  {
    hide Emit, Laid, Chain, LastDate, ItemsFrom, Items, Offset, Asset.Depreciable;
    var most, lastDate, items := a.Depreciable(), LastDate(g), Items(g, 0);
    var all := Schedule(a, g);
    var m := EmitPrefix(items, most, lastDate, 0, 0, k);
    var (done, todo) := (items[..m], items[m..]);
    assert items == done + todo;
    EmitConcat(done, todo, most, lastDate, 0, 0);
    assert all == all[..k] + all[k..];
    AllItems(g);
    i, j := PositionOf(g, m - 1, |g|);
    ItemAt(g, i, j);
    ItemAt(g, i, j + 1);
    RemainingAfter(g, a.base, m);
    ItemsRise(g);
    assert forall p :: 0 <= p < |done| ==> done[p].line.date <= items[m - 1].line.date;
    EmitSums(done, most, lastDate, 0, 0);
  }

  /** What the rebuild creates when the last posted date comes before the table's. */
  function Onwards(a: Asset, g: seq<Entry>, posted: Posted): Result<seq<NewLine>>
    requires g != [] && Filled(g)
  {
    var p := Locate(g, posted.last);
    var adjusted :- Compensate(g, p, p.residual - (a.base - posted.total));
    CompensateKeepsDates(g, p, p.residual - (a.base - posted.total));
    Ok(Emit(ItemsFrom(adjusted, p.year, p.line), a.Depreciable(), LastDate(adjusted), posted.count, posted.total))
  }

  /** With the first `k` created lines posted, the last of them being line `j` of year `i`:
      in its own year, it is followed by exactly the lines not posted. */
  lemma OnwardsInYear(a: Asset, g: seq<Entry>, k: nat, i: nat, j: nat)
    requires Inner(g, i, j) && Filled(g) && 0 < k <= |Schedule(a, g)|
    requires var all, line := Schedule(a, g), g[i].lines[j];
      && line.date == all[k - 1].date && line.remaining == a.base - SumNew(all[..k])
      && Emit(ItemsFrom(g, i, j + 1), a.Depreciable(), LastDate(g), k, SumNew(all[..k])) == all[k..]
    requires g[i].row.start <= g[i].lines[j].date
    ensures var all := Schedule(a, g);
      Onwards(a, g, Posted(k, all[k - 1].date, SumNew(all[..k]))) == Ok(all[k..])
  {
    hide Emit, Inner, LastDate, ItemsFrom, Locate, Schedule, Asset.Depreciable, Items;
    LocateInYear(g, i, j);
  }

  /** As the first line of a year dated on the last day of the year before, it is found
      again, compensated to zero and left out. */
  lemma OnwardsFirst(a: Asset, g: seq<Entry>, k: nat, i: nat, j: nat)
    requires Inner(g, i, j) && Filled(g) && Chain(Flatten(g), a.base, 0) && 0 < k <= |Schedule(a, g)|
    requires var all, line := Schedule(a, g), g[i].lines[j];
      && line.date == all[k - 1].date && line.remaining == a.base - SumNew(all[..k])
      && Emit(ItemsFrom(g, i, j + 1), a.Depreciable(), LastDate(g), k, SumNew(all[..k])) == all[k..]
    requires g[i].lines[j].date < g[i].row.start && InPlaceAt(g, i, j)
    ensures var all := Schedule(a, g);
      Onwards(a, g, Posted(k, all[k - 1].date, SumNew(all[..k]))) == Ok(all[k..])
  {
    hide Laid, LastDate, ItemsFrom, Locate, Schedule, Asset.Depreciable, Items, Chain, Compensate, AtEndOfTable, Offset;
    LocateEarly(g, i, j);
    PrevRemaining(g, a.base, i);
    var p := Position(i, 0, g[i - 1].lines[|g[i - 1].lines| - 1].remaining);
    ItemsFromCompensated(g, p, g[i].lines[0].amount);
    CompensateKeepsDates(g, p, g[i].lines[0].amount);
    var adjusted := Compensate(g, p, g[i].lines[0].amount).value;
    assert ItemsFrom(adjusted, i, 0)[1..] == ItemsFrom(g, i, 1);
  }

  /** Otherwise it is created again. */
  lemma OnwardsAgain(a: Asset, g: seq<Entry>, k: nat, i: nat, j: nat)
    requires Inner(g, i, j) && Filled(g) && 0 < k <= |Schedule(a, g)|
    requires var all, line := Schedule(a, g), g[i].lines[j];
      line.date == all[k - 1].date && line.amount == all[k - 1].amount != 0
    requires !InPlaceAt(g, i, j)
    ensures var all := Schedule(a, g);
      var r := Onwards(a, g, Posted(k, all[k - 1].date, SumNew(all[..k])));
      r.Ok? && Holds(r.value, all[k - 1])
  {
    hide Laid, LastDate, ItemsFrom, Locate, Schedule, Asset.Depreciable, Items, Compensate, AtEndOfTable, Offset,
      Emit, Holds;
    var all := Schedule(a, g);
    LocateEarly(g, i, j);
    var p := Locate(g, all[k - 1].date);
    var diff := p.residual - (a.base - SumNew(all[..k]));
    ItemsFromCompensated(g, p, diff);
    CompensateKeepsDates(g, p, diff);
    ItemAt(g, i, j);
    ItemAt(g, p.year, p.line + 1);
    var from, q := Offset(g, p.year) + p.line, Offset(g, i) + j;
    var adjusted := ItemsFrom(Compensate(g, p, diff).value, p.year, p.line);
    assert adjusted[q - from] == Items(g, 0)[from + 1..][q - from - 1] == Items(g, 0)[q];
    EmitHolds(adjusted, a.Depreciable(), LastDate(g), k, SumNew(all[..k]), q - from, all[k - 1]);
  }

  /** What a rebuild should give after the first `k` of the lines `all` were posted: the
      lines not posted.  It is refused when the table's last date is posted; and on the last
      day of the table's last year, with a line still beyond it, it creates nothing or fails. */
  function AfterPosting(a: Asset, table: seq<Entry>, all: seq<NewLine>, k: nat): Result<seq<NewLine>>
    requires table != [] && Filled(table) && 0 < k <= |all|
  {
    var day := all[k - 1].date;
    if day == LastDate(table) then Err(DurationConflict)
    else if YearOf(table, day, 0) == |table| - 1 && table[|table| - 1].row.stop == day then
      if SumNew(all[..k]) == a.base - LastRemaining(table) then Ok([]) else Err(NoSuchTableLine)
    else Ok(all[k..])
  }

  /** Before the last date, and off the end of the table's last year. */
  lemma StableAt(a: Asset, g: seq<Entry>, k: nat)
    requires g != [] && Laid(g) && Filled(g) && Chain(Flatten(g), a.base, 0) && 0 < k <= |Schedule(a, g)|
    requires var day := Schedule(a, g)[k - 1].date; day < LastDate(g) && !AtEndOfTable(g, day)
    ensures var all := Schedule(a, g);
      var r := Onwards(a, g, Posted(k, all[k - 1].date, SumNew(all[..k])));
      && (InPlace(g, all[k - 1].date) <==> r == Ok(all[k..]))
      && (!InPlace(g, all[k - 1].date) ==> r.Ok? && Holds(r.value, all[k - 1]))
  {
    var all := Schedule(a, g);
    ItemsRise(g);
    EmitIncreasing(Items(g, 0), a.Depreciable(), LastDate(g), 0, 0);
    hide Emit, Laid, Chain, LastDate, ItemsFrom, Items, Locate, AtEndOfTable, Asset.Depreciable, Onwards, InPlaceAt,
      Schedule;
    var i, j := LineOfCreated(a, g, k);
    OnlyPlace(g, i, j);
    if !InPlaceAt(g, i, j) {
      OnwardsAgain(a, g, k, i, j);
      NotHeld(all, k);
    } else if g[i].row.start <= g[i].lines[j].date {
      OnwardsInYear(a, g, k, i, j);
    } else {
      OnwardsFirst(a, g, k, i, j);
    }
  }

  lemma OnlyPlace(g: seq<Entry>, i: nat, j: nat)
    requires g != [] && Laid(g) && Filled(g) && i < |g| && j < |g[i].lines| && g[i].lines[j].date < LastDate(g)
    ensures InPlace(g, g[i].lines[j].date) <==> InPlaceAt(g, i, j)
  {
    hide Laid, LastDate, InPlaceAt;
    forall i': nat, j': nat | i' < |g| && j' < |g[i'].lines| && g[i'].lines[j'].date == g[i].lines[j].date
      ensures i' == i && j' == j
    {
      SamePosition(g, i, j, i', j');
    }
  }

  lemma NotHeld(all: seq<NewLine>, k: nat)
    requires Increase(all) && 0 < k <= |all|
    ensures !Holds(all[k..], all[k - 1])
  {}

  /** Stability, for every table that can be computed.  Build its schedule with nothing
      posted, post the first `k` lines, and rebuild.  If the `k`-th line is in place, no
      deviation is left and exactly the unposted lines come back, with the same dates, days,
      amounts and numbers; the exceptions are those any table has.  If it is not, and only
      then, something else comes back: the posted line is created again. */
  lemma RebuildIsStable(a: Asset, table: seq<Entry>, k: nat)
    requires a.Valid() && table != [] && Laid(table) && Filled(table) && Chain(Flatten(table), a.base, 0)
    requires 0 < k <= |Rebuild(a, table, Posted(0, 0, 0)).value|
    ensures var all := Rebuild(a, table, Posted(0, 0, 0)).value;
      var again := Rebuild(a, table, Posted(k, all[k - 1].date, SumNew(all[..k])));
      && (again == AfterPosting(a, table, all, k) <==> InPlace(table, all[k - 1].date))
      && (!InPlace(table, all[k - 1].date) ==> again.Ok? && Holds(again.value, all[k - 1]))
      && (all[k - 1].date == LastDate(table) ==> k == |all|)
  {
    hide Emit, Laid, Chain, LastDate, LastRemaining, Locate, YearOf, ItemsFrom, Items, GroupLines, Flatten, SumNew,
      Asset.Depreciable, InPlaceAt, Holds, Contiguous;
    var start := a.dateStart.Ord();
    var g := Group(table, start);
    GroupLaid(table, start);
    GroupChain(table, start, a.base);
    GroupKeepsEnd(table, start);
    ItemsFromStart(g, 0);
    ItemsRise(g);
    CreatedInTime(Items(g, 0), a.Depreciable(), LastDate(g), k);
    var all := Rebuild(a, table, Posted(0, 0, 0)).value;
    assert all == Schedule(a, g);
    var day := all[k - 1].date;
    YearOfSame(table, g, day, 0);
    GroupInPlace(table, start, day);
    if day < LastDate(table) {
      if AtEndOfTable(table, day) {
        BoardAtEndOfTable(a, table, Posted(k, day, SumNew(all[..k])));
        var i, j := LineOfCreated(a, g, k);
        LastYearInPlace(g, i, j);
      } else {
        StableAt(a, g, k);
      }
    }
  }

  /** A line on the last day of the last year is in place. */
  lemma LastYearInPlace(g: seq<Entry>, i: nat, j: nat)
    requires g != [] && Laid(g) && Filled(g) && i < |g| && j < |g[i].lines|
    requires g[i].lines[j].date < LastDate(g) && g[i].lines[j].date == g[|g| - 1].row.stop
    ensures InPlace(g, g[i].lines[j].date)
  {
    OnlyPlace(g, i, j);
    hide LastDate, Rises, Flatten;
    if i < |g| - 1 {
      ContiguousRows(g, i, |g| - 1);
    }
  }

  /** If every year starts in itself, all lines are in place. */
  lemma InYearsInPlace(table: seq<Entry>, day: int)
    requires table != [] && Laid(table) && Filled(table) && InYears(table)
    ensures InPlace(table, day)
  {
    hide Laid, LastDate;
    if day < LastDate(table) {
      forall i: nat, j: nat | i < |table| && j < |table[i].lines| && table[i].lines[j].date == day
        ensures InPlaceAt(table, i, j)
      {
        if i == 0 {
          FirstYearInPlace(table);
        } else if j > 0 {
          NotAfterLast(table, i, 0, i, j);
          LinesOrdered(table, i, 0, i, j);
        }
      }
    }
  }
}
