/** Splitting a voucher's amount over a partner's open journal items, in company
    currency. */
module VoucherAllocation {
  import opened Outcome

  /** An open journal item.  `residual` is what is still open of it (negative when
      over-reconciled), `partly` says that it is partially reconciled. */
  datatype OpenItem = OpenItem(id: nat, debit: nat, credit: nat, residual: int, partly: bool, invoice: Option<nat>) {
    /** Partially reconciled and with nothing open: not shown on the voucher. */
    predicate Noise() { partly && residual <= 0 }

    function Unreconciled(): nat { if residual < 0 then -residual else residual }

    /** An item with a credit is settled on the voucher's debit side. */
    predicate OnDebitSide() { credit != 0 }

    /** Nothing of the item has been reconciled yet. */
    predicate FullyOpen() { (debit == 0 || credit == 0) && residual == debit + credit }
  }

  datatype VoucherLine = VoucherLine(id: nat, onDebitSide: bool, amount: int, unreconciled: nat)

  datatype Kind = Receipt | Payment

  /** What the first pass finds: the items the whole amount goes to, and the pools
      the amount is split from if there are none. */
  datatype Scan = Scan(found: seq<nat>, debit: int, credit: int)

  function Min(x: int, y: int): int { if x <= y then x else y }

  function Max(x: int, y: int): int { if x >= y then x else y }

  function Abs(x: int): nat { if x < 0 then -x else x }

  /* ---- first pass ---- */

  function ScanFrom(items: seq<OpenItem>, price: int, invoice: Option<nat>, s: Scan): Scan {
    if items == [] then s
    else
      var item := items[0];
      if item.Noise() then ScanFrom(items[1..], price, invoice, s)
      else if invoice.Some? then
        ScanFrom(items[1..], price, invoice, if item.invoice == invoice then s.(found := s.found + [item.id]) else s)
      else if item.residual == price then s.(found := s.found + [item.id])
      else ScanFrom(items[1..], price, invoice, s.(debit := s.debit + item.debit, credit := s.credit + item.credit))
  }

  function ScanItems(kind: Kind, items: seq<OpenItem>, price: int, invoice: Option<nat>): Scan {
    ScanFrom(items, price, invoice, if kind == Payment then Scan([], price, 0) else Scan([], 0, price))
  }

  /* ---- second pass ---- */

  /** The line of one item, and what is left of the amount and the pools. */
  function Allocate(item: OpenItem, found: seq<nat>, remaining: int, debit: int, credit: int)
      : (VoucherLine, int, int, int) {
    var open := item.Unreconciled();
    if found != [] then
      var amount := if item.id in found then Min(Abs(remaining), open) else 0;
      (VoucherLine(item.id, item.OnDebitSide(), amount, open), remaining - amount, debit, credit)
    else if item.OnDebitSide() then
      var amount := Min(open, Abs(debit));
      (VoucherLine(item.id, true, amount, open), remaining, debit - amount, credit)
    else
      var amount := Min(open, Abs(credit));
      (VoucherLine(item.id, false, amount, open), remaining, debit, credit - amount)
  }

  function LinesFrom(items: seq<OpenItem>, found: seq<nat>, remaining: int, debit: int, credit: int): seq<VoucherLine> {
    if items == [] then []
    else if items[0].Noise() then LinesFrom(items[1..], found, remaining, debit, credit)
    else
      var (line, remaining', debit', credit') := Allocate(items[0], found, remaining, debit, credit);
      [line] + LinesFrom(items[1..], found, remaining', debit', credit')
  }

  function VoucherLines(kind: Kind, items: seq<OpenItem>, price: int, invoice: Option<nat>): seq<VoucherLine> {
    var s := ScanItems(kind, items, price, invoice);
    LinesFrom(items, s.found, price, s.debit, s.credit)
  }

  function OnSide(lines: seq<VoucherLine>, debitSide: bool): seq<VoucherLine> {
    if lines == [] then []
    else (if lines[0].onDebitSide == debitSide then [lines[0]] else []) + OnSide(lines[1..], debitSide)
  }

  lemma {:induction false} OnSideSnoc(lines: seq<VoucherLine>, line: VoucherLine, debitSide: bool)
    ensures OnSide(lines + [line], debitSide)
            == OnSide(lines, debitSide) + if line.onDebitSide == debitSide then [line] else []
  {
    if lines == [] {
      assert (lines + [line])[1..] == [];
    } else {
      assert (lines + [line])[1..] == lines[1..] + [line];
      OnSideSnoc(lines[1..], line, debitSide);
      var head := if lines[0].onDebitSide == debitSide then [lines[0]] else [];
      var last := if line.onDebitSide == debitSide then [line] else [];
      assert head + (OnSide(lines[1..], debitSide) + last) == (head + OnSide(lines[1..], debitSide)) + last;
    }
  }

  lemma OnSideNone()
    ensures OnSide([], false) == [] && OnSide([], true) == []
  {}

  /** The lines made so far followed by those of the remaining items. */
  datatype Made = Made(lines: seq<VoucherLine>)

  function Onward(done: seq<VoucherLine>, items: seq<OpenItem>, found: seq<nat>, remaining: int, debit: int,
      credit: int): Made {
    Made(done + LinesFrom(items, found, remaining, debit, credit))
  }

  lemma OnwardStep(done: seq<VoucherLine>, items: seq<OpenItem>, found: seq<nat>, remaining: int, debit: int,
      credit: int)
    requires items != []
    ensures Onward(done, items, found, remaining, debit, credit)
            == if items[0].Noise() then Onward(done, items[1..], found, remaining, debit, credit)
               else
                 var (line, remaining', debit', credit') := Allocate(items[0], found, remaining, debit, credit);
                 Onward(done + [line], items[1..], found, remaining', debit', credit')
  {
    if !items[0].Noise() {
      var (line, remaining', debit', credit') := Allocate(items[0], found, remaining, debit, credit);
      var rest := LinesFrom(items[1..], found, remaining', debit', credit');
      assert done + ([line] + rest) == (done + [line]) + rest;
    }
  }

  lemma OnwardEnds(done: seq<VoucherLine>, items: seq<OpenItem>,
                   found: seq<nat>, remaining: int, debit: int, credit: int)
    ensures Onward(done, [], found, remaining, debit, credit) == Made(done)
    ensures Onward([], items, found, remaining, debit, credit)
      == Made(LinesFrom(items, found, remaining, debit, credit))
  {}

  /** Recomputes the voucher's credit and debit lines. */
  method RecomputeLines(kind: Kind, items: seq<OpenItem>, price: int, invoice: Option<nat>)
    returns (creditLines: seq<VoucherLine>, debitLines: seq<VoucherLine>, preLine: bool)
    ensures creditLines == OnSide(VoucherLines(kind, items, price, invoice), false)
    ensures debitLines == OnSide(VoucherLines(kind, items, price, invoice), true)
    ensures preLine <==> VoucherLines(kind, items, price, invoice) != []
  {
    hide OnSide, Onward, LinesFrom;
    var s := ScanBoth(kind, items, price, invoice);
    var found, debit, credit := s.found, s.debit, s.credit;
    var remaining := price;
    creditLines, debitLines, preLine := [], [], false;
    ghost var all := VoucherLines(kind, items, price, invoice);
    ghost var done: seq<VoucherLine> := [];
    OnSideNone();
    OnwardEnds(done, items, found, remaining, debit, credit);
    assert items[0..] == items;
    for k := 0 to |items|
      invariant Made(all) == Onward(done, items[k..], found, remaining, debit, credit)
      invariant creditLines == OnSide(done, false) && debitLines == OnSide(done, true)
      invariant preLine <==> done != []
    {
      var item := items[k];
      assert items[k..][0] == item && items[k..][1..] == items[k + 1..];
      OnwardStep(done, items[k..], found, remaining, debit, credit);
      if !item.Noise() {
        var open := item.Unreconciled();
        var amount := 0;
        if item.id in found {
          amount := Min(Abs(remaining), open);
        }
        remaining := remaining - amount;
        if found == [] {
          if item.OnDebitSide() {
            amount := Min(open, Abs(debit));
            debit := debit - amount;
          } else {
            amount := Min(open, Abs(credit));
            credit := credit - amount;
          }
        }
        var line := VoucherLine(item.id, item.OnDebitSide(), amount, open);
        OnSideSnoc(done, line, false);
        OnSideSnoc(done, line, true);
        done := done + [line];
        if line.onDebitSide {
          debitLines := debitLines + [line];
        } else {
          creditLines := creditLines + [line];
        }
        preLine := true;
      }
    }
    assert items[|items|..] == [];
    OnwardEnds(done, items, found, remaining, debit, credit);
  }

  /** The first pass. */
  method ScanBoth(kind: Kind, items: seq<OpenItem>, price: int, invoice: Option<nat>) returns (s: Scan)
    ensures s == ScanItems(kind, items, price, invoice)
  {
    var found, debit, credit := [], 0, 0;
    if kind == Payment {
      debit := price;
    } else {
      credit := price;
    }
    assert items[0..] == items;
    for k := 0 to |items|
      invariant ScanItems(kind, items, price, invoice)
        == ScanFrom(items[k..], price, invoice, Scan(found, debit, credit))
    {
      var item := items[k];
      assert items[k..][0] == item && items[k..][1..] == items[k + 1..];
      if item.Noise() {
        continue;
      }
      if invoice.Some? {
        if item.invoice == invoice {
          found := found + [item.id];
        }
      } else {
        if item.residual == price {
          found := found + [item.id];
          break;
        }
        credit := credit + item.credit;
        debit := debit + item.debit;
      }
    }
    s := Scan(found, debit, credit);
  }

  /* ---- sums ---- */

  function SumAmounts(lines: seq<VoucherLine>, debitSide: bool): int {
    if lines == [] then 0
    else (if lines[0].onDebitSide == debitSide then lines[0].amount else 0) + SumAmounts(lines[1..], debitSide)
  }

  /** What is open on one side of the voucher. */
  function SumOpen(items: seq<OpenItem>, debitSide: bool): nat {
    if items == [] then 0
    else (if !items[0].Noise() && items[0].OnDebitSide() == debitSide then items[0].Unreconciled() else 0)
         + SumOpen(items[1..], debitSide)
  }

  function SumDebits(items: seq<OpenItem>): nat {
    if items == [] then 0 else (if items[0].Noise() then 0 else items[0].debit) + SumDebits(items[1..])
  }

  function SumCredits(items: seq<OpenItem>): nat {
    if items == [] then 0 else (if items[0].Noise() then 0 else items[0].credit) + SumCredits(items[1..])
  }

  /** What the voucher settles in its own direction. */
  function Net(kind: Kind, lines: seq<VoucherLine>): int {
    if kind == Receipt then SumAmounts(lines, false) - SumAmounts(lines, true)
    else SumAmounts(lines, true) - SumAmounts(lines, false)
  }

  /** No item matches the price, and none is asked for by its invoice. */
  ghost predicate NoMatch(items: seq<OpenItem>, price: int) {
    forall k :: 0 <= k < |items| && !items[k].Noise() ==> items[k].residual != price
  }

  lemma {:induction false} ScanNoMatch(items: seq<OpenItem>, price: int, s: Scan)
    requires NoMatch(items, price)
    ensures ScanFrom(items, price, None, s)
            == s.(debit := s.debit + SumDebits(items), credit := s.credit + SumCredits(items))
  {
    if items != [] {
      var item := items[0];
      ScanNoMatch(items[1..], price,
                  if item.Noise() then s else s.(debit := s.debit + item.debit, credit := s.credit + item.credit));
    }
  }

  /** Splitting two pools greedily: each side gets as much as is open on it and no
      more than its pool. */
  lemma {:induction false} GreedySums(items: seq<OpenItem>, remaining: int, debit: nat, credit: nat)
    ensures var lines := LinesFrom(items, [], remaining, debit, credit);
      && SumAmounts(lines, true) == Min(SumOpen(items, true), debit)
      && SumAmounts(lines, false) == Min(SumOpen(items, false), credit)
  {
    if items != [] {
      if items[0].Noise() {
        GreedySums(items[1..], remaining, debit, credit);
      } else {
        var (line, remaining', debit', credit') := Allocate(items[0], [], remaining, debit, credit);
        GreedySums(items[1..], remaining', debit', credit');
        var rest := LinesFrom(items[1..], [], remaining', debit', credit');
        var lines := LinesFrom(items, [], remaining, debit, credit);
        assert lines[0] == line && lines[1..] == rest;
      }
    }
  }

  /** The closed form of the split for items in any state of reconciliation: the
      pools are made of original amounts, the lines of open ones. */
  lemma NetOfSplit(kind: Kind, items: seq<OpenItem>, price: nat)
    requires NoMatch(items, price)
    ensures var lines := VoucherLines(kind, items, price, None);
      Net(kind, lines)
      == if kind == Receipt
         then Min(SumOpen(items, false), price + SumCredits(items)) - Min(SumOpen(items, true), SumDebits(items))
         else Min(SumOpen(items, true), price + SumDebits(items)) - Min(SumOpen(items, false), SumCredits(items))
  {
    hide LinesFrom, ScanFrom, SumAmounts, SumOpen, SumDebits, SumCredits, NoMatch;
    if kind == Receipt {
      ScanNoMatch(items, price, Scan([], 0, price));
      GreedySums(items, price, SumDebits(items), price + SumCredits(items));
    } else {
      ScanNoMatch(items, price, Scan([], price, 0));
      GreedySums(items, price, price + SumDebits(items), SumCredits(items));
    }
  }

  ghost predicate AllFullyOpen(items: seq<OpenItem>) {
    forall k :: 0 <= k < |items| && !items[k].Noise() ==> items[k].FullyOpen()
  }

  lemma {:induction false} FullyOpenSums(items: seq<OpenItem>)
    requires AllFullyOpen(items)
    ensures SumOpen(items, true) == SumCredits(items) && SumOpen(items, false) == SumDebits(items)
  {
    if items != [] {
      FullyOpenSums(items[1..]);
    }
  }

  /** How much the items on the voucher's own side exceed the others. */
  function Excess(kind: Kind, items: seq<OpenItem>): int {
    if kind == Receipt then SumDebits(items) - SumCredits(items) else SumCredits(items) - SumDebits(items)
  }

  /** Fully open items and no exact match: the voucher settles its amount, but no
      more than the invoices exceed the credits by. */
  lemma NetIsClosedForm(kind: Kind, items: seq<OpenItem>, price: nat)
    requires NoMatch(items, price) && AllFullyOpen(items)
    ensures Net(kind, VoucherLines(kind, items, price, None)) == Min(price, Max(0, Excess(kind, items)))
  {
    FullyOpenSums(items);
    NetOfSplit(kind, items, price);
  }

  /** With partly reconciled items a voucher can settle more than its amount: it does if
      and only if the original amounts on the other side exceed what is taken of them, and
      its own side is open for more than the amount and that. */
  lemma NetExceedsPrice(kind: Kind, items: seq<OpenItem>, price: nat)
    requires NoMatch(items, price)
    ensures var receipt := kind == Receipt;
      var original := if receipt then SumCredits(items) else SumDebits(items);
      var taken := Min(SumOpen(items, receipt), if receipt then SumDebits(items) else SumCredits(items));
      Net(kind, VoucherLines(kind, items, price, None)) > price
      <==> original > taken && SumOpen(items, !receipt) > price + taken
  {
    NetOfSplit(kind, items, price);
  }

  /** For instance: an invoice of 100, a credit note of 80 of which 20 is open, and
      a receipt of 10 that settles 70. */
  lemma PartlyReconciledExample()
    ensures var items := [OpenItem(1, 100, 0, 100, false, None), OpenItem(2, 0, 80, 20, true, None)];
      Net(Receipt, VoucherLines(Receipt, items, 10, None)) == 70
  {
    hide SumOpen, SumDebits, SumCredits, VoucherLines, NoMatch;
    var items := [OpenItem(1, 100, 0, 100, false, None), OpenItem(2, 0, 80, 20, true, None)];
    PartlyReconciledSums();
    NetOfSplit(Receipt, items, 10);
  }

  lemma PartlyReconciledSums()
    ensures var items := [OpenItem(1, 100, 0, 100, false, None), OpenItem(2, 0, 80, 20, true, None)];
      && SumOpen(items, false) == 100 && SumOpen(items, true) == 20
      && SumDebits(items) == 100 && SumCredits(items) == 80 && NoMatch(items, 10)
  {
    var x, y := OpenItem(1, 100, 0, 100, false, None), OpenItem(2, 0, 80, 20, true, None);
    NoSums();
    hide SumOpen, SumDebits, SumCredits;
    SumsCons(y, []);
    SumsCons(x, [y]);
    assert [y] + [] == [y] && [x] + [y] == [x, y];
  }

  lemma NoSums()
    ensures SumOpen([], true) == SumOpen([], false) == SumDebits([]) == SumCredits([]) == 0
  {}

  lemma SumsCons(item: OpenItem, rest: seq<OpenItem>)
    ensures SumDebits([item] + rest) == (if item.Noise() then 0 else item.debit) + SumDebits(rest)
    ensures SumCredits([item] + rest) == (if item.Noise() then 0 else item.credit) + SumCredits(rest)
    ensures forall side ::
      SumOpen([item] + rest, side)
      == (if !item.Noise() && item.OnDebitSide() == side then item.Unreconciled() else 0) + SumOpen(rest, side)
  {
    assert ([item] + rest)[1..] == rest;
  }

  /** Every line is within what is open of its item. */
  ghost predicate Within(lines: seq<VoucherLine>) {
    forall i :: 0 <= i < |lines| ==> 0 <= lines[i].amount <= lines[i].unreconciled
  }

  /** Once a line falls short, all later lines of its side get nothing. */
  ghost predicate ShortThenNothing(lines: seq<VoucherLine>) {
    forall i, j :: 0 <= i < j < |lines| && Short(lines[i]) && lines[i].onDebitSide == lines[j].onDebitSide ==>
      lines[j].amount == 0
  }

  predicate Short(line: VoucherLine) {
    line.amount < line.unreconciled
  }

  ghost predicate SideIsShort(lines: seq<VoucherLine>, debitSide: bool) {
    exists i :: 0 <= i < |lines| && Short(lines[i]) && lines[i].onDebitSide == debitSide
  }

  ghost predicate SideIsNothing(lines: seq<VoucherLine>, debitSide: bool) {
    forall i :: 0 <= i < |lines| && lines[i].onDebitSide == debitSide ==> lines[i].amount == 0
  }

  /** Every line stays within its item, a line falls short only when its side's pool is
      spent, and then all later lines of the side get nothing. */
  ghost predicate Greedy(lines: seq<VoucherLine>, debit: nat, credit: nat) {
    && Within(lines) && ShortThenNothing(lines)
    && (SideIsShort(lines, true) ==> SumAmounts(lines, true) == debit)
    && (SideIsShort(lines, false) ==> SumAmounts(lines, false) == credit)
    && (debit == 0 ==> SideIsNothing(lines, true))
    && (credit == 0 ==> SideIsNothing(lines, false))
  }

  /** The split is greedy, oldest first. */
  lemma {:induction false} SplitIsGreedy(items: seq<OpenItem>, remaining: int, debit: nat, credit: nat)
    ensures Greedy(LinesFrom(items, [], remaining, debit, credit), debit, credit)
  {
    if items == [] {
      NothingGreedy(debit, credit);
    } else if items[0].Noise() {
      SplitIsGreedy(items[1..], remaining, debit, credit);
    } else {
      hide Greedy;
      var (line, remaining', debit', credit') := Allocate(items[0], [], remaining, debit, credit);
      SplitIsGreedy(items[1..], remaining', debit', credit');
      GreedyStep(line, LinesFrom(items[1..], [], remaining', debit', credit'), debit, credit, debit', credit');
    }
  }

  lemma NothingGreedy(debit: nat, credit: nat)
    ensures Greedy([], debit, credit)
  {}

  lemma GreedyStep(line: VoucherLine, rest: seq<VoucherLine>, debit: nat, credit: nat, debit': nat, credit': nat)
    requires Greedy(rest, debit', credit') && 0 <= line.amount <= line.unreconciled
    requires debit == debit' + (if line.onDebitSide then line.amount else 0)
    requires credit == credit' + (if line.onDebitSide then 0 else line.amount)
    requires Short(line) ==> (if line.onDebitSide then debit' else credit') == 0
    ensures Greedy([line] + rest, debit, credit)
  {
    hide Within, ShortThenNothing, SideIsShort, SideIsNothing, SumAmounts;
    if Short(line) {
      ZeroSum(rest, line.onDebitSide);
    }
    GreedyCons(line, rest);
    assert SideCons(line, rest, true) && SideCons(line, rest, false);
  }

  lemma GreedyCons(line: VoucherLine, rest: seq<VoucherLine>)
    requires 0 <= line.amount <= line.unreconciled && Within(rest) && ShortThenNothing(rest)
    requires Short(line) ==> SideIsNothing(rest, line.onDebitSide)
    ensures Within([line] + rest) && ShortThenNothing([line] + rest)
    ensures forall side :: SideCons(line, rest, side)
  {
    WithinCons(line, rest);
    ShortCons(line, rest);
    hide Within, ShortThenNothing, SideIsNothing, SideCons;
    forall side
      ensures SideCons(line, rest, side)
    {
      SideOfCons(line, rest, side);
    }
  }

  /** What one line more makes of a side. */
  ghost predicate SideCons(line: VoucherLine, rest: seq<VoucherLine>, side: bool) {
    var lines := [line] + rest;
    && SumAmounts(lines, side) == (if line.onDebitSide == side then line.amount else 0) + SumAmounts(rest, side)
    && (SideIsShort(lines, side) <==> (Short(line) && line.onDebitSide == side) || SideIsShort(rest, side))
    && (SideIsNothing(lines, side)
        <==> (line.onDebitSide == side ==> line.amount == 0) && SideIsNothing(rest, side))
  }

  lemma WithinCons(line: VoucherLine, rest: seq<VoucherLine>)
    requires 0 <= line.amount <= line.unreconciled && Within(rest)
    ensures Within([line] + rest)
  {}

  lemma ShortCons(line: VoucherLine, rest: seq<VoucherLine>)
    requires ShortThenNothing(rest) && (Short(line) ==> SideIsNothing(rest, line.onDebitSide))
    ensures ShortThenNothing([line] + rest)
  {
    hide Short;
    var lines := [line] + rest;
    assert forall i :: 0 < i < |lines| ==> lines[i] == rest[i - 1];
  }

  lemma SideOfCons(line: VoucherLine, rest: seq<VoucherLine>, side: bool)
    ensures SideCons(line, rest, side)
  {
    hide Short;
    var lines := [line] + rest;
    assert lines[0] == line && lines[1..] == rest;
    assert forall i :: 0 < i < |lines| ==> lines[i] == rest[i - 1];
    assert forall i :: 0 <= i < |rest| ==> lines[i + 1] == rest[i];
  }

  lemma {:induction false} ZeroSum(lines: seq<VoucherLine>, debitSide: bool)
    requires SideIsNothing(lines, debitSide)
    ensures SumAmounts(lines, debitSide) == 0
  {
    if lines != [] {
      ZeroSum(lines[1..], debitSide);
    }
  }

  /* ---- an amount that goes to particular items ---- */

  function SumAll(lines: seq<VoucherLine>): int {
    if lines == [] then 0 else lines[0].amount + SumAll(lines[1..])
  }

  /** What is open of the items found. */
  function SumFound(items: seq<OpenItem>, found: seq<nat>): nat {
    if items == [] then 0
    else
      (if !items[0].Noise() && items[0].id in found then items[0].Unreconciled() else 0)
      + SumFound(items[1..], found)
  }

  /** With items found (those of an invoice, or the exact match) the amount goes to
      them alone, up to what is open of them. */
  lemma {:induction false} FoundGetAll(items: seq<OpenItem>, found: seq<nat>, remaining: nat, debit: int, credit: int)
    requires found != []
    ensures var lines := LinesFrom(items, found, remaining, debit, credit);
      && SumAll(lines) == Min(remaining, SumFound(items, found))
      && Within(lines)
      && forall i :: 0 <= i < |lines| && lines[i].id !in found ==> lines[i].amount == 0
  {
    if items != [] {
      if items[0].Noise() {
        FoundGetAll(items[1..], found, remaining, debit, credit);
      } else {
        var (line, remaining', debit', credit') := Allocate(items[0], found, remaining, debit, credit);
        FoundGetAll(items[1..], found, remaining', debit', credit');
        var rest := LinesFrom(items[1..], found, remaining', debit', credit');
        var lines := LinesFrom(items, found, remaining, debit, credit);
        assert lines[0] == line && lines[1..] == rest;
        assert forall i :: 0 < i < |lines| ==> lines[i] == rest[i - 1];
      }
    }
  }

  ghost predicate DistinctIds(items: seq<OpenItem>) {
    forall i, j :: 0 <= i < j < |items| ==> items[i].id != items[j].id
  }

  /** The first shown item whose open amount is the price, if any. */
  ghost predicate FirstMatch(items: seq<OpenItem>, price: int, k: nat) {
    && k < |items| && !items[k].Noise() && items[k].residual == price
    && forall i :: 0 <= i < k && !items[i].Noise() ==> items[i].residual != price
  }

  lemma {:induction false} ScanMatch(items: seq<OpenItem>, price: int, s: Scan, k: nat)
    requires FirstMatch(items, price, k)
    ensures ScanFrom(items, price, None, s).found == s.found + [items[k].id]
  {
    if k > 0 {
      var item := items[0];
      assert FirstMatch(items[1..], price, k - 1);
      ScanMatch(items[1..], price,
                if item.Noise() then s else s.(debit := s.debit + item.debit, credit := s.credit + item.credit), k - 1);
    }
  }

  lemma {:induction false} SumFoundOne(items: seq<OpenItem>, id: nat, k: nat)
    requires DistinctIds(items) && k < |items| && items[k].id == id && !items[k].Noise()
    ensures SumFound(items, [id]) == items[k].Unreconciled()
  {
    if k > 0 {
      assert items[0].id != items[k].id;
      SumFoundOne(items[1..], id, k - 1);
    } else {
      SumFoundNone(items[1..], id);
    }
  }

  lemma {:induction false} SumFoundNone(items: seq<OpenItem>, id: nat)
    requires forall i :: 0 <= i < |items| ==> items[i].id != id
    ensures SumFound(items, [id]) == 0
  {
    if items != [] {
      SumFoundNone(items[1..], id);
    }
  }

  /** An item that is open for exactly the price takes all of it, whatever its side
      and whatever came before it; every other line gets nothing. */
  lemma ExactMatchTakesAll(kind: Kind, items: seq<OpenItem>, price: nat, k: nat)
    requires DistinctIds(items) && FirstMatch(items, price, k)
    ensures var lines := VoucherLines(kind, items, price, None);
      && SumAll(lines) == price
      && forall i :: 0 <= i < |lines| && lines[i].id != items[k].id ==> lines[i].amount == 0
  {
    var s := ScanItems(kind, items, price, None);
    ScanMatch(items, price, if kind == Payment then Scan([], price, 0) else Scan([], 0, price), k);
    assert s.found == [items[k].id];
    SumFoundOne(items, items[k].id, k);
    FoundGetAll(items, s.found, price, s.debit, s.credit);
  }

  /** The shown items of an invoice. */
  function InvoiceIds(items: seq<OpenItem>, invoice: nat): seq<nat> {
    if items == [] then []
    else
      (if !items[0].Noise() && items[0].invoice == Some(invoice) then [items[0].id] else [])
      + InvoiceIds(items[1..], invoice)
  }

  lemma {:induction false} ScanInvoice(items: seq<OpenItem>, price: int, invoice: nat, s: Scan)
    ensures ScanFrom(items, price, Some(invoice), s).found == s.found + InvoiceIds(items, invoice)
  {
    if items != [] {
      var item, rest := items[0], items[1..];
      var next := if !item.Noise() && item.invoice == Some(invoice) then s.(found := s.found + [item.id]) else s;
      ScanInvoice(rest, price, invoice, next);
    }
  }

  /** Asked for an invoice, the amount goes to that invoice's items alone, up to
      what is open of them. */
  lemma InvoiceTakesAll(kind: Kind, items: seq<OpenItem>, price: nat, invoice: nat)
    requires InvoiceIds(items, invoice) != []
    ensures var lines, ids := VoucherLines(kind, items, price, Some(invoice)), InvoiceIds(items, invoice);
      && SumAll(lines) == Min(price, SumFound(items, ids))
      && forall i :: 0 <= i < |lines| && lines[i].id !in ids ==> lines[i].amount == 0
  {
    var s := ScanItems(kind, items, price, Some(invoice));
    ScanInvoice(items, price, invoice, if kind == Payment then Scan([], price, 0) else Scan([], 0, price));
    assert [] + InvoiceIds(items, invoice) == InvoiceIds(items, invoice);
    FoundGetAll(items, s.found, price, s.debit, s.credit);
  }
}
