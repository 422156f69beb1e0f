/** Stability of the stored schedule: post a prefix of a fresh schedule, rebuild,
    and find the same unposted lines linked after the last posted one. */
module AssetStability {
  import opened Outcome
  import opened AssetTypes
  import opened AssetDates
  import opened AssetLines
  import opened AssetConservation
  import opened AssetBoard
  import opened BoardStability
  import opened AssetTable
  import opened AssetTheorems
  import opened AssetLedger

  /** The stored lines with the first `k` posted. */
  function PostFirst(lines: seq<DepreciationLine>, k: nat): (r: seq<DepreciationLine>)
    ensures |r| == |lines|
  {
    seq(|lines|, i requires 0 <= i < |lines| => lines[i].(posted := lines[i].posted || i < k))
  }

  lemma {:induction false} StoreAt(created: seq<NewLine>, previous: Option<nat>, id: nat, j: nat)
    requires j < |created|
    ensures |Store(created, previous, id)| == |created|
    ensures var n := created[j];
      Store(created, previous, id)[j]
      == DepreciationLine(id + j, if j == 0 then previous else Some(id + j - 1), n.date, n.days, n.amount, n.init,
        false)
  {
    var rest := created[1..];
    assert Store(created, previous, id)[1..] == Store(rest, Some(id), id + 1);
    if j > 0 {
      StoreAt(rest, Some(id), id + 1, j - 1);
    } else if rest != [] {
      StoreAt(rest, Some(id), id + 1, 0);
    }
  }

  lemma {:induction false} NoneKept(lines: seq<DepreciationLine>)
    requires forall j :: 0 <= j < |lines| ==> !lines[j].Counted()
    ensures Kept(lines) == [] && SumCounted(lines) == 0
  {
    if lines != [] {
      NoneKept(lines[1..]);
    }
  }

  /** When exactly the first `k` lines count, they are what is kept. */
  lemma {:induction false} KeptPrefix(lines: seq<DepreciationLine>, k: nat)
    requires k <= |lines| && forall j :: 0 <= j < |lines| ==> (lines[j].Counted() <==> j < k)
    ensures Kept(lines) == lines[..k]
    ensures SumCounted(lines) == SumCounted(lines[..k])
    decreases k
  {
    if k == 0 {
      NoneKept(lines);
    } else {
      var head, rest := lines[..k], lines[1..];
      KeptPrefix(rest, k - 1);
      assert head == [lines[0]] + rest[..k - 1] && head[1..] == rest[..k - 1];
    }
  }

  lemma {:induction false} CountedIsNew(lines: seq<DepreciationLine>, created: seq<NewLine>)
    requires |lines| == |created|
    requires forall j :: 0 <= j < |lines| ==> lines[j].Counted() && lines[j].amount == created[j].amount
    ensures SumCounted(lines) == SumNew(created)
  {
    if lines != [] {
      CountedIsNew(lines[1..], created[1..]);
    }
  }

  /** After posting the first `k` stored lines, with no initial-balance entry among
      the others, exactly those `k` are kept, and they sum to their amounts. */
  lemma PostedPrefix(created: seq<NewLine>, k: nat)
    requires k <= |created| && forall j :: k <= j < |created| ==> !created[j].init
    ensures var lines := PostFirst(Store(created, None, 0), k);
      && |lines| == |created|
      && Kept(lines) == lines[..k]
      && SumCounted(lines[..k]) == SumNew(created[..k]) == SumCounted(lines)
      && forall j :: 0 <= j < k ==> lines[j].date == created[j].date && lines[j].id == j
  {
    hide Store, Kept, SumCounted, SumNew;
    StoreLength(created, None, 0);
    forall j | 0 <= j < |created|
      ensures Store(created, None, 0)[j].date == created[j].date && Store(created, None, 0)[j].id == j
      ensures Store(created, None, 0)[j].amount == created[j].amount
      ensures Store(created, None, 0)[j].init == created[j].init && !Store(created, None, 0)[j].posted
    {
      StoreAt(created, None, 0, j);
    }
    var lines := PostFirst(Store(created, None, 0), k);
    KeptPrefix(lines, k);
    CountedIsNew(lines[..k], created[..k]);
  }

  lemma {:induction false} StoreLength(created: seq<NewLine>, previous: Option<nat>, id: nat)
    ensures |Store(created, previous, id)| == |created|
  {
    if created != [] {
      StoreLength(created[1..], Some(id), id + 1);
    }
  }

  lemma {:induction false} LatestOfIncreasing(lines: seq<DepreciationLine>)
    requires lines != [] && forall p, q :: 0 <= p < q < |lines| ==> lines[p].date < lines[q].date
    ensures Latest(lines) == lines[|lines| - 1]
  {
    if |lines| > 1 {
      LatestOfIncreasing(lines[1..]);
    }
  }

  /** The book with what a rebuild creates, if it completes, stored after the kept lines. */
  function Stored(b: Book, kept: seq<DepreciationLine>, created: Result<seq<NewLine>>): Result<Book> {
    match created
    case Ok(lines) => Ok(Continue(b, kept, lines))
    case Err(error) => Err(error)
  }

  /** A stored line that is not posted, of the date and the amount of the given one. */
  ghost predicate OpenAgain(lines: seq<DepreciationLine>, line: NewLine) {
    exists q :: 0 <= q < |lines| && !lines[q].posted && lines[q].date == line.date && lines[q].amount == line.amount
  }

  lemma StoredAgain(b: Book, kept: seq<DepreciationLine>, created: seq<NewLine>, line: NewLine)
    requires Holds(created, line)
    ensures OpenAgain(Continue(b, kept, created).lines, line)
  {
    var q :| 0 <= q < |created| && created[q].date == line.date && created[q].amount == line.amount;
    var previous := if kept == [] then None else Some(Latest(kept).id);
    StoreAt(created, previous, b.nextId, q);
    hide Store;
    assert Continue(b, kept, created).lines[|kept| + q] == Store(created, previous, b.nextId)[q];
  }

  /** Stability of the stored schedule.  Take a fresh schedule, post its first `k` lines
      (initial-balance entries being among them) and rebuild.  When nothing is left to
      depreciate, all stays as it is.  Otherwise, if the `k`-th line is in place, the posted
      lines stay, and after them, linked to the last posted one, come exactly the lines that
      were not posted, with the exceptions that a rebuild of the table has: so a limit
      method with salvage is refused a rebuild when all is posted.  If it is not in place,
      there is an open line of its date and amount again. */
  lemma BookIsStable(a: Asset, table: seq<Entry>, k: nat)
    requires a.Valid() && table != [] && Filled(table) && Laid(table) && Chain(Flatten(table), a.base, 0)
    requires 0 < k <= |Rebuild(a, table, Posted(0, 0, 0)).value|
    requires var all := Rebuild(a, table, Posted(0, 0, 0)).value; forall j :: k <= j < |all| ==> !all[j].init
    ensures var all := Rebuild(a, table, Posted(0, 0, 0)).value;
      && var lines := PostFirst(Store(all, None, 0), k);
      && |lines| == |all| && Latest(lines[..k]).id == k - 1 && lines[k - 1].id == k - 1
      && var b := NewBook().(lines := lines, nextId := |all|);
      && var again := RebuildBook(a, b, table);
      && (a.base == SumNew(all[..k]) ==> again == Ok(b))
      && (a.base != SumNew(all[..k]) && InPlace(table, all[k - 1].date) ==>
            again == Stored(b, lines[..k], AfterPosting(a, table, all, k)))
      && (a.base != SumNew(all[..k]) && !InPlace(table, all[k - 1].date) ==>
            again.Ok? && OpenAgain(again.value.lines, all[k - 1]))
  {
    var all := Rebuild(a, table, Posted(0, 0, 0)).value;
    RebuildIsStable(a, table, k);
    CreatedIncrease(a, table);
    hide Rebuild, Laid, Chain, Filled, AfterPosting, InPlace, Holds, OpenAgain;
    PostedLast(all, k);
    var lines := PostFirst(Store(all, None, 0), k);
    var b := NewBook().(lines := lines, nextId := |all|);
    hide Store, PostFirst, Kept, Latest, SumCounted, SumNew, PostedOf, Increase, Continue, RebuildBook;
    RebuildAround(a, b, table);
    var created := Rebuild(a, table, PostedOf(lines));
    if created.Ok? && Holds(created.value, all[k - 1]) {
      StoredAgain(b, lines[..k], created.value, all[k - 1]);
    }
  }

  /** What a rebuild sees of the posted prefix. */
  lemma PostedLast(all: seq<NewLine>, k: nat)
    requires 0 < k <= |all| && Increase(all) && forall j :: k <= j < |all| ==> !all[j].init
    ensures var lines := PostFirst(Store(all, None, 0), k);
      && |lines| == |all| && Kept(lines) == lines[..k]
      && SumCounted(lines) == SumNew(all[..k])
      && PostedOf(lines) == Posted(k, all[k - 1].date, SumNew(all[..k]))
      && Latest(lines[..k]).id == k - 1 && lines[k - 1].id == k - 1
  {
    hide Store, PostFirst, SumCounted, SumNew;
    PostedPrefix(all, k);
    LatestOfIncreasing(PostFirst(Store(all, None, 0), k)[..k]);
  }

  lemma RebuildAround(a: Asset, b: Book, table: seq<Entry>)
    requires a.Valid() && Filled(table) && b.removal.None?
    ensures RebuildBook(a, b, table)
      == if a.base == SumCounted(b.lines) then Ok(b) else Stored(b, Kept(b.lines), Rebuild(a, table, PostedOf(b.lines)))
  {}

  lemma CreatedIncrease(a: Asset, table: seq<Entry>)
    requires a.Valid() && table != [] && Filled(table) && Laid(table)
    ensures Increase(Rebuild(a, table, Posted(0, 0, 0)).value)
  {
    hide Laid, Emit, Increase;
    var g := Group(table, a.dateStart.Ord());
    GroupLaid(table, a.dateStart.Ord());
    ItemsFromStart(g, 0);
    ItemsRise(g);
    EmitIncreasing(Items(g, 0), a.Depreciable(), LastDate(g), 0, 0);
  }

  /** End to end, from any asset and any defined fiscal years: stability of the stored
      schedule and its links. */
  lemma AssetBookIsStable(a: Asset, fys: seq<FiscalYear>, k: nat)
    requires a.Valid() && ValidYears(fys) && Table(a, fys).Ok?
    requires 0 < k <= |Rebuild(a, Table(a, fys).value, Posted(0, 0, 0)).value|
    requires var all := Rebuild(a, Table(a, fys).value, Posted(0, 0, 0)).value;
      forall j :: k <= j < |all| ==> !all[j].init
    ensures Table(a, fys).value != []
    ensures var table := Table(a, fys).value;
      && var all := Rebuild(a, table, Posted(0, 0, 0)).value;
      && var lines := PostFirst(Store(all, None, 0), k);
      && |lines| == |all| && Latest(lines[..k]).id == k - 1 && lines[k - 1].id == k - 1
      && var b := NewBook().(lines := lines, nextId := |all|);
      && var again := RebuildBook(a, b, table);
      && (a.base == SumNew(all[..k]) ==> again == Ok(b))
      && (a.base != SumNew(all[..k]) && InPlace(table, all[k - 1].date) ==>
            again == Stored(b, lines[..k], AfterPosting(a, table, all, k)))
      && (a.base != SumNew(all[..k]) && !InPlace(table, all[k - 1].date) ==>
            again.Ok? && OpenAgain(again.value.lines, all[k - 1]))
  {
    hide Table, TableOn, FrameOf, Framed, Chain, Laid, AfterPosting, InPlace, OpenAgain, RebuildBook;
    assert Table(a, fys).value != [];
    hide Rebuild;
    TableOfFrame(a, fys);
    ComputedChain(a, FrameOf(a, fys).value);
    TableLaid(a, FrameOf(a, fys).value);
    BookIsStable(a, Table(a, fys).value, k);
  }
}
