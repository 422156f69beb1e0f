/** The asset record itself: the object whose depreciation lines are rebuilt,
    posted and removed in place. */
module AssetRecord {
  import opened Calendar
  import opened Outcome
  import opened AssetTypes
  import opened AssetDates
  import opened AssetBoard
  import opened AssetTable
  import opened AssetTheorems
  import opened AssetLedger

  class Record {
    const asset: Asset
    const fiscalYears: seq<FiscalYear>
    const autoPost: bool
    var lines: seq<DepreciationLine>
    var nextId: nat
    var removal: Option<int>
    var state: State
    var ledger: seq<MoveLine>

    ghost predicate Valid() {
      asset.Valid() && ValidYears(fiscalYears)
    }

    /** The stored state as a value. */
    ghost function Contents(): Book
      reads this
    {
      Book(lines, nextId, removal, state, ledger)
    }

    constructor (asset: Asset, fiscalYears: seq<FiscalYear>, autoPost: bool)
      requires asset.Valid() && ValidYears(fiscalYears)
      ensures Valid() && Contents() == NewBook()
      ensures this.asset == asset && this.fiscalYears == fiscalYears && this.autoPost == autoPost
    {
      this.asset, this.fiscalYears, this.autoPost := asset, fiscalYears, autoPost;
      lines, nextId, removal, state, ledger := [], 0, None, Open, [];
    }

    method ComputeResidual() returns (r: int)
      ensures r == ValueResidual(asset, Contents())
    {
      var depreciated := 0;
      for k := 0 to |lines|
        invariant depreciated == SumCounted(lines[..k])
      {
        SumCountedSnoc(lines[..k], lines[k]);
        assert lines[..k + 1] == lines[..k] + [lines[k]];
        if lines[k].posted || lines[k].init {
          depreciated := depreciated + lines[k].amount;
        }
      }
      assert lines[..|lines|] == lines;
      r := asset.base - depreciated;
      if removal.Some? {
        r := r - removal.value;
      }
    }

    /** Posts line `k`. */
    method CreateMove(k: nat)
      requires Postable(Contents(), k)
      modifies this`lines, this`ledger, this`state
      ensures Contents() == PostLine(asset, autoPost, old(Contents()), k)
    {
      var line := lines[k];
      var gain, loss := if line.amount > 0 then line.amount else 0, if line.amount < 0 then -line.amount else 0;
      var move := JournalItem(AccumulatedDepreciation, loss, gain) + JournalItem(DepreciationExpense, gain, loss);
      ledger := ledger + move;
      lines := lines[k := line.(posted := true)];
      var residual := ComputeResidual();
      if autoPost && residual == 0 {
        state := Close;
      }
    }

    /** Rebuilds the schedule; an error leaves the record unchanged. */
    method ComputeBoard() returns (r: Result<()>)
      requires Valid()
      modifies this`lines, this`nextId
      ensures r.Ok? ==> BoardOf(asset, old(Contents()), Table(asset, fiscalYears)) == Ok(Contents())
      ensures r.Err? ==>
        BoardOf(asset, old(Contents()), Table(asset, fiscalYears)) == Err(r.error) && Contents() == old(Contents())
    {
      hide Rebuild, Date.Ord, Table, Store, Kept, SumCounted;
      var residual := ComputeResidual();
      if residual == 0 {
        return Ok(());
      }
      var kept := KeepCounted(lines);
      var posted, previous := Summarize(kept);
      var table := ComputeTable(asset, fiscalYears);
      if table.Err? {
        return Err(table.error);
      }
      var created := RebuildLines(asset, table.value, posted);
      if created.Err? {
        return Err(created.error);
      }
      var stored := StoreLines(created.value, previous, nextId);
      lines := kept + stored;
      nextId := nextId + |created.value|;
      r := Ok(());
    }

    /** Cuts the first open line down to the days before `day`, posts it and drops
        the other open lines; returns the residual value. */
    method CutFirstLine(day: int) returns (r: Result<int>)
      requires asset.Valid() && removal.None?
      modifies this`lines, this`ledger, this`state
      ensures removal.None?
      ensures if r.Ok? then CutFirst(asset, autoPost, old(Contents()), day) == Ok((Contents(), r.value))
              else CutFirst(asset, autoPost, old(Contents()), day) == Err(r.error)
    {
      hide PostLine, EarlyAmount, Kept, SumCounted, Date.Ord, FirstOpen, DateOf;
      var first := FindFirstOpen(lines);
      if first.None? {
        return Err(NothingToDepreciate);
      }
      var k := first.value;
      var line := lines[k];
      if day > line.date {
        return Err(LinesNotPosted);
      }
      var reached := asset.dateStart.Ord();
      if line.previous.Some? {
        reached := FindDate(lines, line.previous.value, reached);
      }
      if line.date == reached {
        return Err(EmptyPeriod);
      }
      var amount := EarlyAmount(day - 1 - reached, line.date - reached, line.amount);
      var residual := ComputeResidual();
      residual := residual - amount;
      if amount != 0 {
        if asset.dateStart.Ord() > day - 1 || DatedAfter(lines, k, day - 1) {
          return Err(DateBeforePosted);
        }
        lines := lines[k := line.(amount := amount, date := day - 1)];
        CreateMove(k);
      }
      lines := KeepCounted(lines);
      r := Ok(residual);
    }

    /** The last depreciation before an early removal; returns the residual value.
        On an error the caller's transaction undoes what was written. */
    method PrepareEarlyRemoval(day: int) returns (r: Result<int>)
      requires Valid() && removal.None?
      modifies this`lines, this`nextId, this`ledger, this`state
      ensures removal.None?
      ensures var spec := EarlyRemoval(asset, autoPost, old(Contents()), Table(asset, fiscalYears), day);
        if r.Ok? then spec == Ok((Contents(), r.value)) else spec == Err(r.error)
    {
      hide Table, BoardOf, CutFirst;
      var first := FindFirstOpen(lines);
      if first.None? {
        var rebuilt := ComputeBoard();
        if rebuilt.Err? {
          return Err(rebuilt.error);
        }
      }
      r := CutFirstLine(day);
    }

    /** Removes the asset.  An error undoes the whole transaction. */
    method Remove(day: int, early: bool, regime: Regime, sale: int) returns (r: Result<()>)
      requires Valid() && removal.None?
      modifies this
      ensures var spec := RemoveAsset(asset, autoPost, old(Contents()), Table(asset, fiscalYears), day, early, regime,
        sale);
        if r.Ok? then spec == Ok(Contents()) else spec == Err(r.error) && Contents() == old(Contents())
    {
      hide Rebuild, Date.Ord, Table, EarlyRemoval, RemovalMove, SumCounted;
      var lines0, nextId0, state0, ledger0 := lines, nextId, state, ledger;
      var residual;
      if early {
        var prepared := PrepareEarlyRemoval(day);
        if prepared.Err? {
          lines, nextId, state, ledger := lines0, nextId0, state0, ledger0;
          return Err(prepared.error);
        }
        residual := prepared.value;
      } else {
        residual := ComputeResidual();
      }
      if day < LastLineDate(asset, lines) {
        lines, nextId, state, ledger := lines0, nextId0, state0, ledger0;
        return Err(RemovalBeforeLast);
      }
      removal := Some(residual);
      state := Removed;
      ledger := ledger + RemovalMove(asset, residual, regime, sale);
      r := Ok(());
    }
  }

  method Summarize(kept: seq<DepreciationLine>) returns (posted: Posted, previous: Option<nat>)
    requires forall k :: 0 <= k < |kept| ==> kept[k].Counted()
    ensures posted == Posted(|kept|, if kept == [] then 0 else Latest(kept).date, SumCounted(kept))
    ensures previous == if kept == [] then None else Some(Latest(kept).id)
  {
    var total, last := 0, 0;
    previous := None;
    for k := 0 to |kept|
      invariant total == SumCounted(kept[..k])
      invariant k == 0 ==> last == 0 && previous == None
      invariant k > 0 ==> last == Latest(kept[..k]).date && previous == Some(Latest(kept[..k]).id)
    {
      SumCountedSnoc(kept[..k], kept[k]);
      LatestSnoc(kept[..k], kept[k]);
      assert kept[..k + 1] == kept[..k] + [kept[k]];
      total := total + kept[k].amount;
      if k == 0 || kept[k].date > last {
        last, previous := kept[k].date, Some(kept[k].id);
      }
    }
    assert kept[..|kept|] == kept;
    posted := Posted(|kept|, last, total);
  }

  lemma {:induction false} SumCountedSnoc(lines: seq<DepreciationLine>, line: DepreciationLine)
    ensures SumCounted(lines + [line]) == SumCounted(lines) + if line.Counted() then line.amount else 0
  {
    if lines == [] {
      assert (lines + [line])[1..] == [];
    } else {
      assert (lines + [line])[1..] == lines[1..] + [line];
      SumCountedSnoc(lines[1..], line);
    }
  }

  lemma {:induction false} LatestSnoc(lines: seq<DepreciationLine>, line: DepreciationLine)
    ensures Latest(lines + [line]) == if lines == [] || line.date > Latest(lines).date then line else Latest(lines)
  {
    if lines != [] {
      assert (lines + [line])[1..] == lines[1..] + [line];
      LatestSnoc(lines[1..], line);
    }
  }

  method KeepCounted(lines: seq<DepreciationLine>) returns (kept: seq<DepreciationLine>)
    ensures kept == Kept(lines)
  {
    kept := [];
    for k := 0 to |lines|
      invariant kept == Kept(lines[..k])
    {
      KeptSnoc(lines[..k], lines[k]);
      assert lines[..k + 1] == lines[..k] + [lines[k]];
      if lines[k].posted || lines[k].init {
        kept := kept + [lines[k]];
      }
    }
    assert lines[..|lines|] == lines;
  }

  lemma {:induction false} KeptSnoc(lines: seq<DepreciationLine>, line: DepreciationLine)
    ensures Kept(lines + [line]) == Kept(lines) + if line.Counted() then [line] else []
  {
    if lines == [] {
      assert (lines + [line])[1..] == [];
    } else {
      assert (lines + [line])[1..] == lines[1..] + [line];
      KeptSnoc(lines[1..], line);
    }
  }

  method StoreLines(created: seq<NewLine>, previous: Option<nat>, id: nat) returns (stored: seq<DepreciationLine>)
    ensures stored == Store(created, previous, id)
  {
    stored := [];
    var link := previous;
    ghost var goal := Store(created, previous, id);
    assert created[0..] == created;
    for k := 0 to |created|
      invariant link == if k == 0 then previous else Some(id + k - 1)
      invariant goal == stored + Store(created[k..], link, id + k)
    {
      var n := created[k];
      assert created[k..][0] == n && created[k..][1..] == created[k + 1..];
      stored := stored + [DepreciationLine(id + k, link, n.date, n.days, n.amount, n.init, false)];
      link := Some(id + k);
    }
  }

  method FindFirstOpen(lines: seq<DepreciationLine>) returns (first: Option<nat>)
    ensures first == FirstOpen(lines)
  {
    first := None;
    for k := 0 to |lines|
      invariant first == FirstOpen(lines[..k])
    {
      FirstOpenSnoc(lines[..k], lines[k]);
      assert lines[..k + 1] == lines[..k] + [lines[k]];
      if !lines[k].posted && !lines[k].init && (first.None? || lines[k].date < lines[first.value].date) {
        first := Some(k);
      }
    }
    assert lines[..|lines|] == lines;
  }

  lemma {:induction false} FirstOpenSnoc(lines: seq<DepreciationLine>, line: DepreciationLine)
    ensures var first := FirstOpen(lines);
      FirstOpen(lines + [line])
      == if !line.Counted() && (first.None? || line.date < lines[first.value].date) then Some(|lines|) else first
  {
    if lines == [] {
      assert (lines + [line])[1..] == [];
    } else {
      assert (lines + [line])[1..] == lines[1..] + [line];
      FirstOpenSnoc(lines[1..], line);
    }
  }

  method FindDate(lines: seq<DepreciationLine>, id: nat, default: int) returns (date: int)
    ensures date == DateOf(lines, id, default)
  {
    assert lines[0..] == lines;
    for k := 0 to |lines|
      invariant DateOf(lines, id, default) == DateOf(lines[k..], id, default)
    {
      if lines[k].id == id {
        return lines[k].date;
      }
      assert lines[k..][1..] == lines[k + 1..];
    }
    return default;
  }
}
