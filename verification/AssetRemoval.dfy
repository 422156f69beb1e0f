/** What an asset's postings and its removal do to every account. */
module AssetRemoval {
  import opened Calendar
  import opened Outcome
  import opened AssetTypes
  import opened AssetLines
  import opened AssetBoard
  import opened AssetLedger

  /* ---- the removal move ---- */

  /** What a removal changes an account by: the cost and what is depreciated are taken back;
      a residual that is not sold stays as such, and on a sale it is set against the sale
      value, as gain or as loss. */
  function OnRemoval(base: int, residual: int, regime: Regime, sale: int, account: Account): int {
    match account
    case AccumulatedDepreciation => base - residual
    case AssetCost => -base
    case DepreciationExpense => 0
    case ResidualValue => if regime == PostResidual then residual else 0
    case Sale => if regime == PostGainOrLoss && residual != 0 then sale else 0
    case PlusValue =>
      if regime == PostGainOrLoss && residual != 0 && sale > residual then residual - sale else 0
    case MinValue =>
      if regime == PostGainOrLoss && residual != 0 && sale < residual then residual - sale else 0
  }

  lemma ResidualItemsOn(residual: int, regime: Regime, sale: int, account: Account)
    ensures account !in {AccumulatedDepreciation, AssetCost} ==>
      Balance(ResidualItems(residual, regime, sale), account) == OnRemoval(0, residual, regime, sale, account)
    ensures account in {AccumulatedDepreciation, AssetCost} ==>
      Balance(ResidualItems(residual, regime, sale), account) == 0
  {
    ItemBalance(ResidualValue, residual, 0, account);
    var result := if sale - residual > 0 then PlusValue else MinValue;
    var last := JournalItem(result, Positive(residual - sale), Positive(sale - residual));
    ItemBalance(result, Positive(residual - sale), Positive(sale - residual), account);
    MoveOfTwo(Sale, sale, 0, last, account);
    assert [] + last == last;
  }

  /** The removal move, account by account. */
  lemma RemovalMoveOn(a: Asset, residual: int, regime: Regime, sale: int, account: Account)
    ensures Balance(RemovalMove(a, residual, regime, sale), account)
      == OnRemoval(a.base, residual, regime, sale, account)
  {
    hide ResidualItems, JournalItem, Balance;
    ResidualItemsOn(residual, regime, sale, account);
    var depreciated, tail := a.base - residual, ResidualItems(residual, regime, sale);
    var rest := JournalItem(AssetCost, Positive(-a.base), Positive(a.base)) + tail;
    MoveOfTwo(AssetCost, Positive(-a.base), Positive(a.base), tail, account);
    MoveOfTwo(AccumulatedDepreciation, Positive(depreciated), Positive(-depreciated), rest, account);
    assert [] + rest == rest;
  }

  /* ---- the accounts over a whole life ---- */

  /** Every posted line is on the two depreciation accounts, and nothing is on any other. */
  ghost predicate Booked(b: Book) {
    forall account :: Balance(b.ledger, account) == PostedOn(SumPosted(b.lines), account)
  }

  function PostedOn(posted: int, account: Account): int {
    match account
    case AccumulatedDepreciation => -posted
    case DepreciationExpense => posted
    case _ => 0
  }

  lemma DepreciationMoveOn(amount: int, account: Account)
    ensures Balance(DepreciationMove(amount), account) == PostedOn(amount, account)
  {
    var rest := JournalItem(DepreciationExpense, Positive(amount), Positive(-amount));
    MoveOfTwo(AccumulatedDepreciation, Positive(-amount), Positive(amount), rest, account);
    ItemBalance(DepreciationExpense, Positive(amount), Positive(-amount), account);
  }

  /** Posting a line adds its amount to both. */
  lemma PostBooked(a: Asset, autoPost: bool, b: Book, k: nat)
    requires Postable(b, k) && Booked(b)
    ensures Booked(PostLine(a, autoPost, b, k))
  {
    hide Balance, ValueResidual, DepreciationMove;
    var line, r := b.lines[k], PostLine(a, autoPost, b, k);
    SumsUpdate(b.lines, k, line.(posted := true));
    SumsOne(line);
    SumsOne(line.(posted := true));
    forall account
      ensures Balance(r.ledger, account) == PostedOn(SumPosted(r.lines), account)
    {
      DepreciationMoveOn(line.amount, account);
      BalanceConcat(b.ledger, DepreciationMove(line.amount), account);
    }
  }

  /** With moves posted at once, the line that takes all that is left closes the asset; nothing
      else about its state changes. */
  lemma PostCloses(a: Asset, autoPost: bool, b: Book, k: nat)
    requires Postable(b, k) && Consistent(b)
    ensures PostLine(a, autoPost, b, k).state
      == if autoPost && ValueResidual(a, b) == b.lines[k].amount then Close else b.state
  {
    hide ValueResidual, DepreciationMove, Consistent;
    PostKeeps(a, autoPost, b, k);
    var posted := b.(lines := b.lines[k := b.lines[k].(posted := true)]);
    SameResidual(a, posted, PostLine(a, autoPost, b, k));
    SameResidual(a, posted, posted.(ledger := b.ledger + DepreciationMove(b.lines[k].amount)));
  }

  lemma SameResidual(a: Asset, b: Book, c: Book)
    requires c.lines == b.lines && c.removal == b.removal
    ensures ValueResidual(a, c) == ValueResidual(a, b)
  {}

  lemma RebuildBooked(a: Asset, b: Book, table: seq<Entry>)
    requires a.Valid() && Filled(table) && RebuildBook(a, b, table).Ok? && Consistent(b) && Booked(b)
    ensures Booked(RebuildBook(a, b, table).value)
  {
    hide RebuildBook, Balance;
    RebuildKeeps(a, b, table);
  }

  /** Over any postings and rebuilds. */
  lemma {:induction false} RunBooked(a: Asset, autoPost: bool, b: Book, events: seq<Event>)
    requires a.Valid() && FilledEvents(events) && Consistent(b) && Booked(b)
    ensures Booked(AssetLedger.Run(a, autoPost, b, events)) && Consistent(AssetLedger.Run(a, autoPost, b, events))
    decreases |events|
  {
    hide Booked, Consistent, PostLine, RebuildBook;
    if events != [] {
      match events[0] {
        case Posting(k) =>
          if Postable(b, k) {
            PostKeeps(a, autoPost, b, k);
            PostBooked(a, autoPost, b, k);
          }
        case Rebuilding(table) =>
          if RebuildBook(a, b, table).Ok? {
            RebuildKeeps(a, b, table);
            RebuildBooked(a, b, table);
          }
      }
      RunBooked(a, autoPost, Step(a, autoPost, b, events[0]), events[1..]);
    }
  }

  /* ---- early removal ---- */

  /** The amount is the part of `amount` that `days` are of `period`, to the nearest minor
      unit. */
  ghost predicate NearestPart(part: int, days: int, period: int, amount: int)
    requires period != 0
  {
    var exact := (days * amount) as real / period as real;
    exact - 0.5 <= part as real <= exact + 0.5
  }

  lemma EarlyAmountNearest(days: int, period: int, amount: int)
    requires period != 0
    ensures NearestPart(EarlyAmount(days, period, amount), days, period, amount)
  {
    var x, y, z := days as real, period as real, amount as real;
    PartIs(x, y, z);
    assert (days * amount) as real == x * z;
  }

  lemma PartIs(x: real, y: real, z: real)
    requires y != 0.0
    ensures Part(x / y, z) == x * z / y
  {
    var q := x / y;
    assert q * y == x;
    Regroup(q, y, z);
    assert (q * z) * y == x * z;
  }

  lemma Regroup(x: real, y: real, z: real)
    ensures (x * y) * z == (x * z) * y
  {}

  /** The day depreciation has reached before a line: the start date if the line follows none,
      or one that is gone, and otherwise the date of the line it follows. */
  ghost predicate ReachedOn(a: Asset, lines: seq<DepreciationLine>, line: DepreciationLine, day: int)
    requires a.Valid()
  {
    if line.previous.Some? && exists c :: 0 <= c < |lines| && lines[c].id == line.previous.value then
      exists c :: 0 <= c < |lines| && lines[c].id == line.previous.value && lines[c].date == day
    else day == a.dateStart.Ord()
  }

  lemma {:induction false} DateOfMissing(lines: seq<DepreciationLine>, id: nat, default: int)
    requires forall c :: 0 <= c < |lines| ==> lines[c].id != id
    ensures DateOf(lines, id, default) == default
  {
    if lines != [] {
      DateOfMissing(lines[1..], id, default);
    }
  }

  lemma {:induction false} DateOfPresent(lines: seq<DepreciationLine>, id: nat, default: int, c: nat) returns (d: nat)
    requires c < |lines| && lines[c].id == id
    ensures d < |lines| && lines[d].id == id && lines[d].date == DateOf(lines, id, default)
  {
    if lines[0].id == id {
      d := 0;
    } else {
      d := DateOfPresent(lines[1..], id, default, c - 1);
      d := d + 1;
    }
  }

  lemma ReachedIs(a: Asset, lines: seq<DepreciationLine>, line: DepreciationLine)
    requires a.Valid()
    ensures ReachedOn(a, lines, line, ReachedBefore(a, lines, line))
  {
    hide Date.Ord;
    if line.previous.Some? {
      var id := line.previous.value;
      if c: nat :| c < |lines| && lines[c].id == id {
        var d := DateOfPresent(lines, id, a.dateStart.Ord(), c);
      } else {
        DateOfMissing(lines, id, a.dateStart.Ord());
      }
    }
  }

  /** The lines an early removal leaves: those posted, and the first open one cut to the part
      of its period before the day and dated the day before; its amount goes to both
      depreciation accounts.  It is left out if that amount is zero. */
  lemma EarlyRemovalCuts(a: Asset, autoPost: bool, b: Book, day: int) returns (amount: int, reached: int)
    requires a.Valid() && b.removal.None? && CutFirst(a, autoPost, b, day).Ok?
    ensures FirstOpen(b.lines).Some?
    ensures var k := FirstOpen(b.lines).value; var line := b.lines[k];
      var book := CutFirst(a, autoPost, b, day).value.0;
      && ReachedOn(a, b.lines, line, reached)
      && day <= line.date != reached && NearestPart(amount, day - 1 - reached, line.date - reached, line.amount)
      && book.lines == Kept(if amount == 0 then b.lines
           else b.lines[k := line.(amount := amount, date := day - 1, posted := true)])
      && (Booked(b) ==> Booked(book) && SumPosted(book.lines) == SumPosted(b.lines) + amount)
  {
    hide EarlyAmount, ReachedBefore, DatedAfter, Kept, NearestPart, Booked, ValueResidual, SumPosted, DepreciationMove,
      ReachedOn;
    var k := FirstOpen(b.lines).value;
    var line := b.lines[k];
    ReachedIs(a, b.lines, line);
    reached := ReachedBefore(a, b.lines, line);
    amount := EarlyAmount(day - 1 - reached, line.date - reached, line.amount);
    EarlyAmountNearest(day - 1 - reached, line.date - reached, line.amount);
    CutPosted(a, autoPost, b, k, line.(amount := amount, date := day - 1));
    if Booked(b) {
      if amount == 0 {
        KeptSums(b.lines);
        SameBooked(b, b.(lines := Kept(b.lines)));
      } else {
        CutBooked(a, autoPost, b, k, line.(amount := amount, date := day - 1));
      }
    }
  }

  lemma SameBooked(b: Book, c: Book)
    requires Booked(b) && c.ledger == b.ledger && SumPosted(c.lines) == SumPosted(b.lines)
    ensures Booked(c)
  {}

  lemma CutPosted(a: Asset, autoPost: bool, b: Book, k: nat, line: DepreciationLine)
    requires Postable(b, k) && !line.posted && !line.init
    ensures PostLine(a, autoPost, b.(lines := b.lines[k := line]), k).lines == b.lines[k := line.(posted := true)]
  {}

  lemma CutBooked(a: Asset, autoPost: bool, b: Book, k: nat, line: DepreciationLine)
    requires Postable(b, k) && Booked(b) && !line.posted && !line.init
    ensures var r := PostLine(a, autoPost, b.(lines := b.lines[k := line]), k);
      && Booked(r.(lines := Kept(r.lines)))
      && SumPosted(Kept(r.lines)) == SumPosted(b.lines) + line.amount
  {
    hide Booked, ValueResidual, SumPosted, Kept, DepreciationMove;
    var cut := b.(lines := b.lines[k := line]);
    SumsUpdate(b.lines, k, line);
    SumsOne(b.lines[k]);
    SumsOne(line);
    SameBooked(b, cut);
    PostBooked(a, autoPost, cut, k);
    CutPosted(a, autoPost, b, k, line);
    var r := PostLine(a, autoPost, cut, k);
    SumsUpdate(b.lines, k, line.(posted := true));
    SumsOne(line.(posted := true));
    KeptSums(r.lines);
    SameBooked(r, r.(lines := Kept(r.lines)));
  }

  /** When an early removal is refused: no line is open, an open line is dated before the day,
      or the first open line has no period.  Otherwise it is refused, as any posting would be,
      if the amount would be dated before the start or before a line counted already. */
  lemma EarlyRemovalRefused(a: Asset, autoPost: bool, b: Book, day: int)
    requires a.Valid() && b.removal.None?
    ensures var r, lines := CutFirst(a, autoPost, b, day), b.lines;
      && (r == Err(NothingToDepreciate) <==> forall k :: 0 <= k < |lines| ==> lines[k].Counted())
      && (r == Err(LinesNotPosted) <==> exists k :: 0 <= k < |lines| && !lines[k].Counted() && lines[k].date < day)
      && (r.Err? ==> r.error in {NothingToDepreciate, LinesNotPosted, EmptyPeriod, DateBeforePosted})
      && (r == Err(EmptyPeriod) ==>
            exists k :: 0 <= k < |lines| && !lines[k].Counted() && ReachedOn(a, lines, lines[k], lines[k].date))
      && (r == Err(DateBeforePosted) ==>
            day <= a.dateStart.Ord() || exists k :: 0 <= k < |lines| && lines[k].Counted() && day <= lines[k].date)
  {
    hide EarlyAmount, ReachedBefore, Kept, PostLine, ValueResidual, Date.Ord, ReachedOn;
    var first := FirstOpen(b.lines);
    if first.Some? {
      ReachedIs(a, b.lines, b.lines[first.value]);
    }
  }

  /** A removal is dated no earlier than any line that is left, or than the start if none is;
      and one that is not early is refused only for that. */
  lemma RemovalDated(a: Asset, autoPost: bool, b: Book, table: Result<seq<Entry>>, day: int, early: bool,
      regime: Regime, sale: int)
    requires a.Valid() && b.removal.None? && Usable(table)
    ensures var r := RemoveAsset(a, autoPost, b, table, day, early, regime, sale);
      && (r.Ok? ==> NotBefore(a, r.value.lines, day))
      && (!early ==> (r.Ok? <==> NotBefore(a, b.lines, day)) && (r.Err? ==> r.error == RemovalBeforeLast))
  {
    hide EarlyRemoval, RemovalMove, ValueResidual, Date.Ord;
  }

  ghost predicate NotBefore(a: Asset, lines: seq<DepreciationLine>, day: int)
    requires a.Valid()
  {
    && (forall k :: 0 <= k < |lines| ==> lines[k].date <= day)
    && (lines == [] ==> a.dateStart.Ord() <= day)
  }

  /* ---- the ledger of a whole life ---- */

  /** Removal, early or not: every account holds what is posted and what the removal of the
      residual recorded changes. */
  lemma RemovalBooked(a: Asset, autoPost: bool, b: Book, table: Result<seq<Entry>>, day: int, early: bool,
      regime: Regime, sale: int, account: Account)
    requires a.Valid() && b.removal.None? && Usable(table) && Consistent(b) && Booked(b)
    requires RemoveAsset(a, autoPost, b, table, day, early, regime, sale).Ok?
    ensures var r := RemoveAsset(a, autoPost, b, table, day, early, regime, sale).value;
      && r.removal.Some?
      && r.removal.value == a.base - SumPosted(r.lines) - SumInitial(r.lines)
      && Balance(r.ledger, account)
         == PostedOn(SumPosted(r.lines), account) + OnRemoval(a.base, r.removal.value, regime, sale, account)
  {
    hide CutFirst, RebuildBook, RemovalMove, Booked, Consistent, Balance, SumPosted, SumInitial, SumCounted;
    var (book, residual) := (if early then EarlyRemoval(a, autoPost, b, table, day)
      else Ok((b, ValueResidual(a, b)))).value;
    if early {
      var open := if FirstOpen(b.lines).None? then BoardOf(a, b, table).value else b;
      if open != b {
        BoardKeeps(a, b, table);
        RebuildBooked(a, b, table.value);
      }
      CutFirstKeeps(a, autoPost, open, day);
      var amount, reached := EarlyRemovalCuts(a, autoPost, open, day);
    }
    BookedOn(book, account);
    RemovalMoveOn(a, residual, regime, sale, account);
    BalanceConcat(book.ledger, RemovalMove(a, residual, regime, sale), account);
    CountedSplits(book.lines);
  }

  lemma BookedOn(b: Book, account: Account)
    requires Booked(b)
    ensures Balance(b.ledger, account) == PostedOn(SumPosted(b.lines), account)
  {}

  /** The whole life of an asset, from a new one through any postings and rebuilds to its
      removal, on every account. */
  lemma WholeLifeBooked(a: Asset, autoPost: bool, events: seq<Event>, table: Result<seq<Entry>>, day: int, early: bool,
                        regime: Regime, sale: int, account: Account)
    requires a.Valid() && FilledEvents(events) && Usable(table)
    requires var b := AssetLedger.Run(a, autoPost, NewBook(), events);
      RemoveAsset(a, autoPost, b, table, day, early, regime, sale).Ok?
    ensures var b := AssetLedger.Run(a, autoPost, NewBook(), events);
      var r := RemoveAsset(a, autoPost, b, table, day, early, regime, sale).value;
      var posted, residual := SumPosted(r.lines), a.base - SumPosted(r.lines) - SumInitial(r.lines);
      Balance(r.ledger, account) == match account
        case DepreciationExpense => posted
        case AccumulatedDepreciation => SumInitial(r.lines)
        case AssetCost => -a.base
        case ResidualValue => if regime == PostResidual then residual else 0
        case Sale => if regime == PostGainOrLoss && residual != 0 then sale else 0
        case PlusValue =>
          (if regime == PostGainOrLoss && residual != 0 && sale > residual then residual - sale else 0)
        case MinValue =>
          (if regime == PostGainOrLoss && residual != 0 && sale < residual then residual - sale else 0)
  {
    hide RemoveAsset;
    RunBooked(a, autoPost, NewBook(), events);
    var b := AssetLedger.Run(a, autoPost, NewBook(), events);
    RemovalBooked(a, autoPost, b, table, day, early, regime, sale, account);
  }
}
