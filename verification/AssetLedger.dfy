/** The life of one asset in the books: rebuilding its schedule, posting lines and
    removing it, with every journal item the program writes. */
module AssetLedger {
  import opened Rounding
  import opened Calendar
  import opened Outcome
  import opened AssetTypes
  import opened AssetLines
  import opened AssetBoard

  /** The accounts of the asset's profile and of the removal form. */
  datatype Account =
    AccumulatedDepreciation | DepreciationExpense | AssetCost | ResidualValue | Sale | PlusValue | MinValue

  datatype MoveLine = MoveLine(account: Account, debit: int, credit: int)

  /** A stored depreciation line; `previous` is the id of the line before it. */
  datatype DepreciationLine = DepreciationLine(
    id: nat, previous: Option<nat>, date: int, days: int, amount: int, init: bool, posted: bool)
  {
    /** Counted as depreciated: posted, or an initial-balance entry. */
    predicate Counted() { posted || init }
  }

  datatype State = Open | Close | Removed

  datatype Regime = PostResidual | PostGainOrLoss

  /** Everything stored about the asset.  `removal` is the amount of the removal
      line, `ledger` all journal items written for the asset. */
  datatype Book = Book(
    lines: seq<DepreciationLine>, nextId: nat, removal: Option<int>, state: State, ledger: seq<MoveLine>)

  function SumCounted(lines: seq<DepreciationLine>): int {
    if lines == [] then 0 else (if lines[0].Counted() then lines[0].amount else 0) + SumCounted(lines[1..])
  }

  /** Amounts posted by moves of this asset. */
  function SumPosted(lines: seq<DepreciationLine>): int {
    if lines == [] then 0 else (if lines[0].posted then lines[0].amount else 0) + SumPosted(lines[1..])
  }

  /** Initial-balance amounts, for which the program wrote no journal items. */
  function SumInitial(lines: seq<DepreciationLine>): int {
    if lines == [] then 0
    else (if lines[0].init && !lines[0].posted then lines[0].amount else 0) + SumInitial(lines[1..])
  }

  function ValueResidual(a: Asset, b: Book): int {
    a.base - SumCounted(b.lines) - (if b.removal.Some? then b.removal.value else 0)
  }

  function Balance(ledger: seq<MoveLine>, account: Account): int {
    if ledger == [] then 0
    else
      (if ledger[0].account == account then ledger[0].debit - ledger[0].credit else 0)
      + Balance(ledger[1..], account)
  }

  function Total(ledger: seq<MoveLine>): int {
    if ledger == [] then 0 else ledger[0].debit - ledger[0].credit + Total(ledger[1..])
  }

  /* ---- posting a line ---- */

  function Positive(x: int): (r: int)
    ensures r >= 0
  {
    if x > 0 then x else 0
  }

  function JournalItem(account: Account, debit: int, credit: int): seq<MoveLine> {
    [MoveLine(account, debit, credit)]
  }

  /** The move of a depreciation line: depreciation against expense, on the sides
      the amount's sign asks for. */
  function DepreciationMove(amount: int): seq<MoveLine> {
    JournalItem(AccumulatedDepreciation, Positive(-amount), Positive(amount))
    + JournalItem(DepreciationExpense, Positive(amount), Positive(-amount))
  }

  predicate Postable(b: Book, k: nat) {
    k < |b.lines| && !b.lines[k].posted && !b.lines[k].init && b.removal.None?
  }

  /** Posting line `k`; an asset with nothing left is closed when its moves are
      posted at once. */
  function PostLine(a: Asset, autoPost: bool, b: Book, k: nat): (r: Book)
    requires Postable(b, k)
  {
    var posted := b.(lines := b.lines[k := b.lines[k].(posted := true)],
                     ledger := b.ledger + DepreciationMove(b.lines[k].amount));
    if autoPost && ValueResidual(a, posted) == 0 then posted.(state := Close) else posted
  }

  /* ---- rebuilding the schedule ---- */

  function Kept(lines: seq<DepreciationLine>): (r: seq<DepreciationLine>)
    ensures forall k :: 0 <= k < |r| ==> r[k].Counted() && r[k] in lines
  {
    if lines == [] then [] else (if lines[0].Counted() then [lines[0]] else []) + Kept(lines[1..])
  }

  /** The counted line with the latest date; the first found of equal dates. */
  function Latest(lines: seq<DepreciationLine>): (r: DepreciationLine)
    requires lines != []
    ensures r in lines && forall k :: 0 <= k < |lines| ==> lines[k].date <= r.date
  {
    if |lines| == 1 then lines[0]
    else
      var rest := Latest(lines[1..]);
      if rest.date <= lines[0].date then lines[0] else rest
  }

  function PostedOf(lines: seq<DepreciationLine>): Posted {
    var kept := Kept(lines);
    Posted(|kept|, if kept == [] then 0 else Latest(kept).date, SumCounted(kept))
  }

  /** New lines stored after `previous`, each linked to the one before it. */
  function Store(created: seq<NewLine>, previous: Option<nat>, id: nat): seq<DepreciationLine> {
    if created == [] then []
    else
      var n := created[0];
      [DepreciationLine(id, previous, n.date, n.days, n.amount, n.init, false)] + Store(created[1..], Some(id), id + 1)
  }

  /** The created lines stored after the kept ones, the first linked to the latest
      of them. */
  function Continue(b: Book, kept: seq<DepreciationLine>, created: seq<NewLine>): (r: Book)
    ensures r.removal == b.removal
  {
    var previous := if kept == [] then None else Some(Latest(kept).id);
    b.(lines := kept + Store(created, previous, b.nextId), nextId := b.nextId + |created|)
  }

  /** The schedule rebuilt from a computed table; nothing happens when nothing is
      left, and an error leaves the asset as it was. */
  function RebuildBook(a: Asset, b: Book, table: seq<Entry>): (r: Result<Book>)
    requires a.Valid() && Filled(table)
    ensures r.Ok? ==> r.value.removal == b.removal
  {
    if ValueResidual(a, b) == 0 then Ok(b)
    else
      var created :- Rebuild(a, table, PostedOf(b.lines));
      Ok(Continue(b, Kept(b.lines), created))
  }

  /** The rebuild of an asset whose table may not be computable; the table is not
      even computed when nothing is left. */
  function BoardOf(a: Asset, b: Book, table: Result<seq<Entry>>): (r: Result<Book>)
    requires a.Valid() && (table.Ok? ==> Filled(table.value))
    ensures r.Ok? ==> r.value.removal == b.removal
  {
    if ValueResidual(a, b) == 0 then Ok(b)
    else
      var entries :- table;
      RebuildBook(a, b, entries)
  }

  /* ---- early removal ---- */

  /** The index of the unposted line with the earliest date from `k` on. */
  function FirstOpen(lines: seq<DepreciationLine>): (r: Option<nat>)
    ensures r.Some? ==> r.value < |lines| && !lines[r.value].Counted()
    ensures r.Some? ==> forall k :: 0 <= k < |lines| && !lines[k].Counted() ==> lines[r.value].date <= lines[k].date
    ensures r.None? ==> forall k :: 0 <= k < |lines| ==> lines[k].Counted()
  {
    if lines == [] then None
    else
      var rest := FirstOpen(lines[1..]);
      if lines[0].Counted() then (if rest.Some? then Some(rest.value + 1) else None)
      else if rest.Some? && lines[rest.value + 1].date < lines[0].date then Some(rest.value + 1)
      else Some(0)
  }

  function DateOf(lines: seq<DepreciationLine>, id: nat, default: int): int {
    if lines == [] then default else if lines[0].id == id then lines[0].date else DateOf(lines[1..], id, default)
  }

  /** The date depreciation has reached: that of the previous line, or the start. */
  function ReachedBefore(a: Asset, lines: seq<DepreciationLine>, line: DepreciationLine): int
    requires a.Valid()
  {
    if line.previous.Some? then DateOf(lines, line.previous.value, a.dateStart.Ord()) else a.dateStart.Ord()
  }

  /** The scheduled amount in proportion to the days used of its period. */
  function EarlyAmount(days: int, period: int, amount: int): int
    requires period != 0
  {
    Round(Part(days as real / period as real, amount as real))
  }

  function Part(share: real, amount: real): real {
    share * amount
  }

  predicate DatedAfter(lines: seq<DepreciationLine>, k: nat, day: int) {
    exists i :: 0 <= i < |lines| && i != k && lines[i].Counted() && lines[i].date > day
  }

  /** Early removal on `day`: the first open line is cut down to the days before
      that day and posted, all other open lines are dropped.  Returns the book and
      the residual value. */
  function CutFirst(a: Asset, autoPost: bool, b: Book, day: int): (r: Result<(Book, int)>)
    requires a.Valid() && b.removal.None?
  {
    var first := FirstOpen(b.lines);
    if first.None? then Err(NothingToDepreciate)
    else
      var k := first.value;
      var line := b.lines[k];
      if day > line.date then Err(LinesNotPosted)
      else
        var reached := ReachedBefore(a, b.lines, line);
        if line.date == reached then Err(EmptyPeriod)
        else
          var amount := EarlyAmount(day - 1 - reached, line.date - reached, line.amount);
          var residual := ValueResidual(a, b) - amount;
          if amount == 0 then Ok((b.(lines := Kept(b.lines)), residual))
          else if DatedAfter(b.lines, k, day - 1) || a.dateStart.Ord() > day - 1 then Err(DateBeforePosted)
          else
            var cut := b.(lines := b.lines[k := line.(amount := amount, date := day - 1)]);
            var posted := PostLine(a, autoPost, cut, k);
            Ok((posted.(lines := Kept(posted.lines)), residual))
  }

  /** An asset without open lines has its schedule rebuilt first. */
  function EarlyRemoval(a: Asset, autoPost: bool, b: Book, table: Result<seq<Entry>>,
      day: int): (r: Result<(Book, int)>)
    requires a.Valid() && b.removal.None? && (table.Ok? ==> Filled(table.value))
  {
    if FirstOpen(b.lines).None? then
      var rebuilt :- BoardOf(a, b, table);
      CutFirst(a, autoPost, rebuilt, day)
    else CutFirst(a, autoPost, b, day)
  }

  /* ---- removal ---- */

  function LastLineDate(a: Asset, lines: seq<DepreciationLine>): int
    requires a.Valid()
  {
    if lines == [] then a.dateStart.Ord() else Latest(lines).date
  }

  /** The items that explain the residual: as such, or as sale and gain or loss. */
  function ResidualItems(residual: int, regime: Regime, sale: int): seq<MoveLine> {
    if residual == 0 then []
    else if regime == PostResidual then JournalItem(ResidualValue, residual, 0)
    else
      (if sale != 0 then JournalItem(Sale, sale, 0) else [])
      + JournalItem(if sale - residual > 0 then PlusValue else MinValue, Positive(residual - sale),
        Positive(sale - residual))
  }

  /** The journal items of a removal: accumulated depreciation and cost are taken
      back, the residual is posted as such or as gain or loss on the sale. */
  function RemovalMove(a: Asset, residual: int, regime: Regime, sale: int): seq<MoveLine> {
    var depreciated := a.base - residual;
    (if depreciated != 0 then JournalItem(AccumulatedDepreciation, Positive(depreciated), Positive(-depreciated))
      else [])
    + (JournalItem(AssetCost, Positive(-a.base), Positive(a.base)) + ResidualItems(residual, regime, sale))
  }

  function RemoveAsset(a: Asset, autoPost: bool, b: Book, table: Result<seq<Entry>>, day: int, early: bool,
                       regime: Regime, sale: int): (r: Result<Book>)
    requires a.Valid() && b.removal.None? && (table.Ok? ==> Filled(table.value))
  {
    var (book, residual) :- if early then EarlyRemoval(a, autoPost, b, table, day) else Ok((b, ValueResidual(a, b)));
    if day < LastLineDate(a, book.lines) then Err(RemovalBeforeLast)
    else Ok(book.(removal := Some(residual), state := Removed,
      ledger := book.ledger + RemovalMove(a, residual, regime, sale)))
  }

  /* ---- what every step keeps ---- */

  /** The accumulated-depreciation account holds exactly what was posted, and all
      journal items together balance. */
  ghost predicate Consistent(b: Book) {
    Balance(b.ledger, AccumulatedDepreciation) == -SumPosted(b.lines) && Total(b.ledger) == 0
  }

  lemma {:induction false} BalanceConcat(x: seq<MoveLine>, z: seq<MoveLine>, account: Account)
    ensures Balance(x + z, account) == Balance(x, account) + Balance(z, account)
    ensures Total(x + z) == Total(x) + Total(z)
  {
    if x == [] {
      assert x + z == z;
    } else {
      assert (x + z)[1..] == x[1..] + z;
      BalanceConcat(x[1..], z, account);
    }
  }

  lemma {:induction false} CountedSplits(lines: seq<DepreciationLine>)
    ensures SumCounted(lines) == SumPosted(lines) + SumInitial(lines)
  {
    if lines != [] {
      CountedSplits(lines[1..]);
    }
  }

  lemma {:induction false} SumsConcat(x: seq<DepreciationLine>, z: seq<DepreciationLine>)
    ensures SumPosted(x + z) == SumPosted(x) + SumPosted(z)
    ensures SumInitial(x + z) == SumInitial(x) + SumInitial(z)
  {
    if x == [] {
      assert x + z == z;
    } else {
      assert (x + z)[1..] == x[1..] + z;
      SumsConcat(x[1..], z);
    }
  }

  lemma SumsUpdate(lines: seq<DepreciationLine>, k: nat, line: DepreciationLine)
    requires k < |lines|
    ensures SumPosted(lines[k := line]) == SumPosted(lines) + SumPosted([line]) - SumPosted([lines[k]])
    ensures SumInitial(lines[k := line]) == SumInitial(lines) + SumInitial([line]) - SumInitial([lines[k]])
  {
    assert lines == lines[..k] + [lines[k]] + lines[k + 1..];
    assert lines[k := line] == lines[..k] + [line] + lines[k + 1..];
    SumsConcat(lines[..k] + [lines[k]], lines[k + 1..]);
    SumsConcat(lines[..k], [lines[k]]);
    SumsConcat(lines[..k] + [line], lines[k + 1..]);
    SumsConcat(lines[..k], [line]);
  }

  lemma SumsOne(line: DepreciationLine)
    ensures SumPosted([line]) == if line.posted then line.amount else 0
    ensures SumInitial([line]) == if line.init && !line.posted then line.amount else 0
  {
    assert [line][1..] == [];
  }

  lemma {:induction false} KeptSums(lines: seq<DepreciationLine>)
    ensures SumPosted(Kept(lines)) == SumPosted(lines) && SumInitial(Kept(lines)) == SumInitial(lines)
  {
    if lines != [] {
      KeptSums(lines[1..]);
      if lines[0].Counted() {
        assert Kept(lines)[1..] == Kept(lines[1..]);
      } else {
        assert Kept(lines) == Kept(lines[1..]);
      }
    }
  }

  lemma DepreciationMoveBalances(amount: int)
    ensures Total(DepreciationMove(amount)) == 0
    ensures Balance(DepreciationMove(amount), AccumulatedDepreciation) == -amount
    ensures Balance(DepreciationMove(amount), DepreciationExpense) == amount
  {
    MoveOfTwo(AccumulatedDepreciation, Positive(-amount), Positive(amount),
              JournalItem(DepreciationExpense, Positive(amount), Positive(-amount)), AccumulatedDepreciation);
    MoveOfTwo(AccumulatedDepreciation, Positive(-amount), Positive(amount),
              JournalItem(DepreciationExpense, Positive(amount), Positive(-amount)), DepreciationExpense);
    ItemBalance(DepreciationExpense, Positive(amount), Positive(-amount), AccumulatedDepreciation);
    ItemBalance(DepreciationExpense, Positive(amount), Positive(-amount), DepreciationExpense);
  }

  lemma ItemBalance(account: Account, debit: int, credit: int, of: Account)
    ensures Total(JournalItem(account, debit, credit)) == debit - credit
    ensures Balance(JournalItem(account, debit, credit), of) == if account == of then debit - credit else 0
  {
    assert JournalItem(account, debit, credit)[1..] == [];
  }

  lemma MoveOfTwo(account: Account, debit: int, credit: int, rest: seq<MoveLine>, of: Account)
    ensures var move := JournalItem(account, debit, credit) + rest;
      && Total(move) == debit - credit + Total(rest)
      && Balance(move, of) == (if account == of then debit - credit else 0) + Balance(rest, of)
  {
    ItemBalance(account, debit, credit, of);
    BalanceConcat(JournalItem(account, debit, credit), rest, of);
  }

  /** Posting keeps the books consistent and takes the amount off the residual. */
  lemma PostKeeps(a: Asset, autoPost: bool, b: Book, k: nat)
    requires Postable(b, k) && Consistent(b)
    ensures var r := PostLine(a, autoPost, b, k);
      && Consistent(r) && SumInitial(r.lines) == SumInitial(b.lines) && r.removal.None?
      && ValueResidual(a, r) == ValueResidual(a, b) - b.lines[k].amount
  {
    var line := b.lines[k];
    SumsUpdate(b.lines, k, line.(posted := true));
    SumsOne(line);
    SumsOne(line.(posted := true));
    DepreciationMoveBalances(line.amount);
    BalanceConcat(b.ledger, DepreciationMove(line.amount), AccumulatedDepreciation);
    CountedSplits(b.lines);
    CountedSplits(b.lines[k := line.(posted := true)]);
  }

  lemma {:induction false} StoreSums(created: seq<NewLine>, previous: Option<nat>, id: nat)
    ensures SumPosted(Store(created, previous, id)) == 0
    ensures (forall k :: 0 <= k < |created| ==> !created[k].init) ==> SumInitial(Store(created, previous, id)) == 0
  {
    if created != [] {
      StoreSums(created[1..], Some(id), id + 1);
      assert Store(created, previous, id)[1..] == Store(created[1..], Some(id), id + 1);
    }
  }

  /** Rebuilding writes no journal items and loses no posted line. */
  lemma RebuildKeeps(a: Asset, b: Book, table: seq<Entry>)
    requires a.Valid() && Filled(table) && RebuildBook(a, b, table).Ok? && Consistent(b)
    ensures var r := RebuildBook(a, b, table).value;
      && Consistent(r) && r.removal == b.removal && r.ledger == b.ledger && SumPosted(r.lines) == SumPosted(b.lines)
  {
    var r := RebuildBook(a, b, table).value;
    if r != b {
      var kept := Kept(b.lines);
      var created := Rebuild(a, table, PostedOf(b.lines)).value;
      var previous := if kept == [] then None else Some(Latest(kept).id);
      KeptSums(b.lines);
      StoreSums(created, previous, b.nextId);
      SumsConcat(kept, Store(created, previous, b.nextId));
    }
  }

  lemma BoardKeeps(a: Asset, b: Book, table: Result<seq<Entry>>)
    requires a.Valid() && Usable(table) && BoardOf(a, b, table).Ok? && Consistent(b)
    ensures Consistent(BoardOf(a, b, table).value)
  {
    if ValueResidual(a, b) != 0 {
      RebuildKeeps(a, b, table.value);
    }
  }

  /** After an early removal the residual returned is the residual of the book. */
  lemma CutFirstKeeps(a: Asset, autoPost: bool, b: Book, day: int)
    requires a.Valid() && b.removal.None? && Consistent(b) && CutFirst(a, autoPost, b, day).Ok?
    ensures var (book, residual) := CutFirst(a, autoPost, b, day).value;
      && Consistent(book) && book.removal.None? && residual == ValueResidual(a, book)
      && SumInitial(book.lines) == SumInitial(b.lines)
  {
    hide EarlyAmount, ReachedBefore, DatedAfter, PostLine, SumPosted, SumInitial, SumCounted, Kept, Balance, Date.Ord;
    var k := FirstOpen(b.lines).value;
    var line := b.lines[k];
    var reached := ReachedBefore(a, b.lines, line);
    var amount := EarlyAmount(day - 1 - reached, line.date - reached, line.amount);
    CountedSplits(b.lines);
    if amount == 0 {
      KeptSums(b.lines);
      CountedSplits(Kept(b.lines));
    } else {
      CutAndPostKeeps(a, autoPost, b, k, line.(amount := amount, date := day - 1));
    }
  }

  lemma CutAndPostKeeps(a: Asset, autoPost: bool, b: Book, k: nat, line: DepreciationLine)
    requires Postable(b, k) && Consistent(b) && !line.posted && !line.init
    ensures var r := PostLine(a, autoPost, b.(lines := b.lines[k := line]), k);
      var book := r.(lines := Kept(r.lines));
      && Consistent(book) && book.removal.None?
      && ValueResidual(a, book) == ValueResidual(a, b) - line.amount
      && SumInitial(book.lines) == SumInitial(b.lines)
  {
    var cut := b.(lines := b.lines[k := line]);
    SumsUpdate(b.lines, k, line);
    SumsOne(b.lines[k]);
    SumsOne(line);
    CountedSplits(b.lines);
    CountedSplits(cut.lines);
    PostKeeps(a, autoPost, cut, k);
    var posted := PostLine(a, autoPost, cut, k);
    hide PostLine;
    KeptSums(posted.lines);
    CountedSplits(posted.lines);
    CountedSplits(Kept(posted.lines));
  }

  /* ---- removal ends it ---- */

  lemma ResidualItemsBalance(residual: int, regime: Regime, sale: int)
    ensures Total(ResidualItems(residual, regime, sale)) == residual
    ensures Balance(ResidualItems(residual, regime, sale), AccumulatedDepreciation) == 0
  {
    ItemBalance(ResidualValue, residual, 0, AccumulatedDepreciation);
    var result := if sale - residual > 0 then PlusValue else MinValue;
    var last := JournalItem(result, Positive(residual - sale), Positive(sale - residual));
    ItemBalance(result, Positive(residual - sale), Positive(sale - residual), AccumulatedDepreciation);
    MoveOfTwo(Sale, sale, 0, last, AccumulatedDepreciation);
    assert [] + last == last;
  }

  /** The removal move balances under either policy, for amounts of either sign. */
  lemma RemovalMoveBalances(a: Asset, residual: int, regime: Regime, sale: int)
    ensures Total(RemovalMove(a, residual, regime, sale)) == 0
    ensures Balance(RemovalMove(a, residual, regime, sale), AccumulatedDepreciation) == a.base - residual
  {
    hide ResidualItems, JournalItem, Total, Balance;
    ResidualItemsBalance(residual, regime, sale);
    var depreciated, tail := a.base - residual, ResidualItems(residual, regime, sale);
    var rest := JournalItem(AssetCost, Positive(-a.base), Positive(a.base)) + tail;
    MoveOfTwo(AssetCost, Positive(-a.base), Positive(a.base), tail, AccumulatedDepreciation);
    MoveOfTwo(AccumulatedDepreciation, Positive(depreciated), Positive(-depreciated), rest, AccumulatedDepreciation);
    assert [] + rest == rest;
  }

  /** What is asked of the table handed to a removal. */
  ghost predicate Usable(table: Result<seq<Entry>>) {
    table.Ok? ==> Filled(table.value)
  }

  /** Removal, early or not and under either policy: all journal items balance, the
      recomputed residual is zero, and the accumulated-depreciation account is left
      with exactly the initial-balance amounts of the lines kept. */
  lemma RemovalSettles(a: Asset, autoPost: bool, b: Book, table: Result<seq<Entry>>, day: int, early: bool,
      regime: Regime, sale: int)
    requires a.Valid() && b.removal.None? && Usable(table) && Consistent(b)
    requires RemoveAsset(a, autoPost, b, table, day, early, regime, sale).Ok?
    ensures var r := RemoveAsset(a, autoPost, b, table, day, early, regime, sale).value;
      && r.state == Removed
      && Total(r.ledger) == 0
      && ValueResidual(a, r) == 0
      && Balance(r.ledger, AccumulatedDepreciation) == SumInitial(r.lines)
  {
    hide CutFirst, BoardOf, RemovalMove;
    var (book, residual) := (if early then EarlyRemoval(a, autoPost, b, table, day)
      else Ok((b, ValueResidual(a, b)))).value;
    if early {
      var open := if FirstOpen(b.lines).None? then BoardOf(a, b, table).value else b;
      if open != b {
        BoardKeeps(a, b, table);
      }
      CutFirstKeeps(a, autoPost, open, day);
    }
    RemovalMoveBalances(a, residual, regime, sale);
    BalanceConcat(book.ledger, RemovalMove(a, residual, regime, sale), AccumulatedDepreciation);
    CountedSplits(book.lines);
  }

  /** Posting and rebuilding in any order. */
  datatype Event = Posting(k: nat) | Rebuilding(table: seq<Entry>)

  function Step(a: Asset, autoPost: bool, b: Book, e: Event): (r: Book)
    requires a.Valid() && (e.Rebuilding? ==> Filled(e.table))
    ensures r.removal == b.removal
  {
    match e
    case Posting(k) => if Postable(b, k) then PostLine(a, autoPost, b, k) else b
    case Rebuilding(table) => var r := RebuildBook(a, b, table); if r.Ok? then r.value else b
  }

  ghost predicate FilledEvents(events: seq<Event>) {
    forall k :: 0 <= k < |events| && events[k].Rebuilding? ==> Filled(events[k].table)
  }

  function Run(a: Asset, autoPost: bool, b: Book, events: seq<Event>): (r: Book)
    requires a.Valid() && FilledEvents(events)
    ensures r.removal == b.removal
    decreases |events|
  {
    if events == [] then b else Run(a, autoPost, Step(a, autoPost, b, events[0]), events[1..])
  }

  lemma {:induction false} RunKeeps(a: Asset, autoPost: bool, b: Book, events: seq<Event>)
    requires a.Valid() && FilledEvents(events) && Consistent(b)
    ensures Consistent(Run(a, autoPost, b, events))
    decreases |events|
  {
    if events != [] {
      match events[0] {
        case Posting(k) => if Postable(b, k) { PostKeeps(a, autoPost, b, k); }
        case Rebuilding(table) => if RebuildBook(a, b, table).Ok? { RebuildKeeps(a, b, table); }
      }
      RunKeeps(a, autoPost, Step(a, autoPost, b, events[0]), events[1..]);
    }
  }

  /** A new asset: no lines, nothing posted. */
  function NewBook(): Book {
    Book([], 0, None, Open, [])
  }

  /** The asset's ledger over its whole life: any postings and rebuilds, then a
      removal.  If no line is an initial-balance entry the accumulated-depreciation
      account is back at zero. */
  lemma WholeLifeSettles(a: Asset, autoPost: bool, events: seq<Event>, table: Result<seq<Entry>>, day: int, early: bool,
                         regime: Regime, sale: int)
    requires a.Valid() && FilledEvents(events) && Usable(table)
    requires RemoveAsset(a, autoPost, Run(a, autoPost, NewBook(), events), table, day, early, regime, sale).Ok?
    ensures var r := RemoveAsset(a, autoPost, Run(a, autoPost, NewBook(), events), table, day, early, regime,
      sale).value;
      && Total(r.ledger) == 0 && ValueResidual(a, r) == 0
      && Balance(r.ledger, AccumulatedDepreciation) == SumInitial(r.lines)
      && ((forall k :: 0 <= k < |r.lines| ==> !r.lines[k].init) ==> Balance(r.ledger, AccumulatedDepreciation) == 0)
  {
    hide RemoveAsset;
    RunKeeps(a, autoPost, NewBook(), events);
    var b := Run(a, autoPost, NewBook(), events);
    RemovalSettles(a, autoPost, b, table, day, early, regime, sale);
    var r := RemoveAsset(a, autoPost, b, table, day, early, regime, sale).value;
    if forall k :: 0 <= k < |r.lines| ==> !r.lines[k].init {
      NoInitial(r.lines);
    }
  }

  lemma {:induction false} NoInitial(lines: seq<DepreciationLine>)
    requires forall k :: 0 <= k < |lines| ==> !lines[k].init
    ensures SumInitial(lines) == 0
  {
    if lines != [] {
      NoInitial(lines[1..]);
    }
  }

  /** Strictly after the date depreciation has reached, and no later than the first
      open line, the early amount lies between nothing and the scheduled amount. */
  lemma EarlyAmountBounds(day: int, reached: int, date: int, amount: int)
    requires reached < day <= date && amount >= 0
    ensures 0 <= EarlyAmount(day - 1 - reached, date - reached, amount) <= amount
  {
    var days, period := (day - 1 - reached) as real, (date - reached) as real;
    var share := days / period;
    assert 0.0 <= share <= 1.0;
    ShareOf(share, amount as real);
    hide Part;
    RoundBetween(0, Part(share, amount as real), amount);
  }

  lemma ShareOf(share: real, amount: real)
    requires 0.0 <= share <= 1.0 && amount >= 0.0
    ensures 0.0 <= Part(share, amount) <= amount
  {
    var rest := 1.0 - share;
    NotNegative(share, amount);
    NotNegative(rest, amount);
    assert rest * amount == amount - share * amount;
  }

  lemma NotNegative(x: real, y: real)
    requires x >= 0.0 && y >= 0.0
    ensures x * y >= 0.0
  {}

  /** The line's predecessor, if it is stored, is posted or an initial-balance entry. */
  ghost predicate PreviousCounted(lines: seq<DepreciationLine>, line: DepreciationLine) {
    forall c :: 0 <= c < |lines| && line.previous == Some(lines[c].id) ==> lines[c].Counted()
  }

  lemma {:induction false} DateOfStored(lines: seq<DepreciationLine>, id: nat, default: int)
    ensures DateOf(lines, id, default) == default
      || exists c :: 0 <= c < |lines| && lines[c].id == id && lines[c].date == DateOf(lines, id, default)
  {
    if lines != [] && lines[0].id != id {
      DateOfStored(lines[1..], id, default);
      var rest := lines[1..];
      if c :| 0 <= c < |rest| && rest[c].id == id && rest[c].date == DateOf(rest, id, default) {
        assert lines[c + 1] == rest[c];
      }
    }
  }

  /** On the date depreciation has reached or before it, nothing can be depreciated early. */
  lemma NothingEarlier(a: Asset, lines: seq<DepreciationLine>, k: nat, day: int)
    requires a.Valid() && k < |lines| && !lines[k].Counted() && PreviousCounted(lines, lines[k])
    requires day <= ReachedBefore(a, lines, lines[k])
    ensures DatedAfter(lines, k, day - 1) || a.dateStart.Ord() > day - 1
  {
    hide Date.Ord;
    if lines[k].previous.Some? {
      DateOfStored(lines, lines[k].previous.value, a.dateStart.Ord());
    }
  }

  /** An early removal depreciates between nothing and the scheduled amount of the line it
      cuts: nothing at all on the date depreciation has reached, or before it. */
  lemma EarlyRemovalBounds(a: Asset, autoPost: bool, b: Book, day: int)
    requires a.Valid() && b.removal.None? && Consistent(b) && CutFirst(a, autoPost, b, day).Ok?
    requires var line := b.lines[FirstOpen(b.lines).value]; line.amount >= 0 && PreviousCounted(b.lines, line)
    ensures var line := b.lines[FirstOpen(b.lines).value];
      var book := CutFirst(a, autoPost, b, day).value.0;
      && ValueResidual(a, b) - line.amount <= ValueResidual(a, book) <= ValueResidual(a, b)
      && (day <= ReachedBefore(a, b.lines, line) ==> ValueResidual(a, book) == ValueResidual(a, b))
  {
    hide EarlyAmount, ReachedBefore, DatedAfter, PreviousCounted, Date.Ord;
    CutFirstKeeps(a, autoPost, b, day);
    var k := FirstOpen(b.lines).value;
    var line := b.lines[k];
    if ReachedBefore(a, b.lines, line) < day {
      EarlyAmountBounds(day, ReachedBefore(a, b.lines, line), line.date, line.amount);
    } else {
      NothingEarlier(a, b.lines, k, day);
    }
  }
}
