/** One journal entry for many depreciation lines: the merged lines of the entry against
    a pair of lines for each depreciation line. */
module CompoundMove {
  import opened Outcome

  /** A depreciation line to post; amounts have any sign. The analytic account is the
      asset's, the journal that of its profile. */
  datatype Due = Due(amount: int, analytic: Option<nat>, journal: nat)

  datatype Role = Depreciation | Expense

  datatype MoveLine = MoveLine(account: nat, analytic: Option<nat>, journal: nat, debit: int, credit: int)

  /** The line posted for `due`; only the expense carries the analytic account. */
  function SetupMoveLine(due: Due, account: nat, role: Role): MoveLine {
    var gain, loss := if due.amount > 0 then due.amount else 0, if due.amount < 0 then -due.amount else 0;
    match role
    case Depreciation => MoveLine(account, None, due.journal, loss, gain)
    case Expense => MoveLine(account, due.analytic, due.journal, gain, loss)
  }

  function SetupMoveLines(dues: seq<Due>, account: nat, role: Role): seq<MoveLine> {
    if dues == [] then [] else SetupMoveLines(Front(dues), account, role) + [SetupMoveLine(Last(dues), account, role)]
  }

  function Front<T>(s: seq<T>): seq<T>
    requires s != []
  {
    s[..|s| - 1]
  }

  function Last<T>(s: seq<T>): T
    requires s != []
  {
    s[|s| - 1]
  }

  /** The entry that is not merged: a pair of lines for each depreciation line. */
  function Plain(dues: seq<Due>, depreciation: nat, expense: nat): seq<MoveLine> {
    if dues == [] then []
    else
      Plain(Front(dues), depreciation, expense)
      + [SetupMoveLine(Last(dues), depreciation, Depreciation), SetupMoveLine(Last(dues), expense, Expense)]
  }

  /* ---- merging ---- */

  predicate SameKey(x: MoveLine, z: MoveLine) {
    x.account == z.account && x.analytic == z.analytic && x.journal == z.journal
  }

  /** Adds a line to the group with its key, or as a new group. */
  function AddTo(groups: seq<MoveLine>, line: MoveLine): seq<MoveLine> {
    if groups == [] then [line]
    else if SameKey(groups[0], line) then
      [groups[0].(debit := groups[0].debit + line.debit, credit := groups[0].credit + line.credit)] + groups[1..]
    else [groups[0]] + AddTo(groups[1..], line)
  }

  /** The lines grouped by all but debit and credit, which are summed. */
  function Grouped(lines: seq<MoveLine>): seq<MoveLine> {
    if lines == [] then [] else AddTo(Grouped(Front(lines)), Last(lines))
  }

  function DebitLines(lines: seq<MoveLine>): seq<MoveLine> {
    if lines == [] then [] else DebitLines(Front(lines)) + if Last(lines).debit > 0 then [Last(lines)] else []
  }

  function CreditLines(lines: seq<MoveLine>): seq<MoveLine> {
    if lines == [] then [] else CreditLines(Front(lines)) + if Last(lines).credit > 0 then [Last(lines)] else []
  }

  function Merged(lines: seq<MoveLine>): seq<MoveLine> {
    Grouped(DebitLines(lines)) + Grouped(CreditLines(lines))
  }

  function Compound(dues: seq<Due>, depreciation: nat, expense: nat): seq<MoveLine> {
    Merged(SetupMoveLines(dues, depreciation, Depreciation)) + Merged(SetupMoveLines(dues, expense, Expense))
  }

  /** Adds a line to the groups found so far, in place. */
  method GroupLine(groups0: seq<MoveLine>, line: MoveLine) returns (groups: seq<MoveLine>)
    ensures groups == AddTo(groups0, line)
  {
    groups := groups0;
    var i := 0;
    while i < |groups| && !SameKey(groups[i], line)
      invariant i <= |groups| && groups == groups0
      invariant AddTo(groups0, line) == groups[..i] + AddTo(groups[i..], line)
    {
      assert groups[i..][1..] == groups[i + 1..];
      assert groups[..i] + ([groups[i]] + AddTo(groups[i + 1..], line))
        == groups[..i + 1] + AddTo(groups[i + 1..], line);
      i := i + 1;
    }
    if i < |groups| {
      assert groups[i..][1..] == groups[i + 1..];
      groups := groups[i := groups[i].(debit := groups[i].debit + line.debit,
        credit := groups[i].credit + line.credit)];
    } else {
      assert groups[..i] == groups;
      groups := groups + [line];
    }
  }

  /** Merges the lines of one account, debit lines first; the two are never mixed. */
  method MergeLines(lines: seq<MoveLine>) returns (merged: seq<MoveLine>)
    ensures merged == Merged(lines)
  {
    var debits, credits := [], [];
    for i := 0 to |lines|
      invariant debits == DebitLines(lines[..i]) && credits == CreditLines(lines[..i])
    {
      assert Front(lines[..i + 1]) == lines[..i] && Last(lines[..i + 1]) == lines[i];
      if lines[i].debit > 0 {
        debits := debits + [lines[i]];
      }
      if lines[i].credit > 0 {
        credits := credits + [lines[i]];
      }
    }
    assert lines[..|lines|] == lines;
    var debitGroups := GroupLines(debits);
    var creditGroups := GroupLines(credits);
    merged := debitGroups + creditGroups;
  }

  method GroupLines(lines: seq<MoveLine>) returns (groups: seq<MoveLine>)
    ensures groups == Grouped(lines)
  {
    groups := [];
    for i := 0 to |lines|
      invariant groups == Grouped(lines[..i])
    {
      assert Front(lines[..i + 1]) == lines[..i] && Last(lines[..i + 1]) == lines[i];
      groups := GroupLine(groups, lines[i]);
    }
    assert lines[..|lines|] == lines;
  }

  method DoCompoundMoveLines(dues: seq<Due>, depreciation: nat, expense: nat) returns (merged: seq<MoveLine>)
    ensures merged == Compound(dues, depreciation, expense)
  {
    var depreciationLines, expenseLines := [], [];
    for i := 0 to |dues|
      invariant depreciationLines == SetupMoveLines(dues[..i], depreciation, Depreciation)
      invariant expenseLines == SetupMoveLines(dues[..i], expense, Expense)
    {
      assert Front(dues[..i + 1]) == dues[..i] && Last(dues[..i + 1]) == dues[i];
      depreciationLines := depreciationLines + [SetupMoveLine(dues[i], depreciation, Depreciation)];
      expenseLines := expenseLines + [SetupMoveLine(dues[i], expense, Expense)];
    }
    assert dues[..|dues|] == dues;
    var first := MergeLines(depreciationLines);
    var second := MergeLines(expenseLines);
    merged := first + second;
  }

  /* ---- totals ---- */

  /** The debits, and the credits, of the lines whose account, analytic account and journal
      are picked. */
  function Debits(lines: seq<MoveLine>, picked: (nat, Option<nat>, nat) -> bool): int {
    if lines == [] then 0 else Debits(Front(lines), picked) + DebitIn(Last(lines), picked)
  }

  function Credits(lines: seq<MoveLine>, picked: (nat, Option<nat>, nat) -> bool): int {
    if lines == [] then 0 else Credits(Front(lines), picked) + CreditIn(Last(lines), picked)
  }

  function DebitIn(line: MoveLine, picked: (nat, Option<nat>, nat) -> bool): int {
    if picked(line.account, line.analytic, line.journal) then line.debit else 0
  }

  function CreditIn(line: MoveLine, picked: (nat, Option<nat>, nat) -> bool): int {
    if picked(line.account, line.analytic, line.journal) then line.credit else 0
  }

  lemma {:induction false} TotalsConcat(x: seq<MoveLine>, z: seq<MoveLine>, picked: (nat, Option<nat>, nat) -> bool)
    ensures Debits(x + z, picked) == Debits(x, picked) + Debits(z, picked)
    ensures Credits(x + z, picked) == Credits(x, picked) + Credits(z, picked)
  {
    if z == [] {
      assert x + z == x;
    } else {
      TotalsConcat(x, Front(z), picked);
      assert Front(x + z) == x + Front(z) && Last(x + z) == Last(z);
    }
  }

  lemma TotalsOne(line: MoveLine, picked: (nat, Option<nat>, nat) -> bool)
    ensures Debits([line], picked) == DebitIn(line, picked) && Credits([line], picked) == CreditIn(line, picked)
  {
    assert Front([line]) == [] && Last([line]) == line;
  }

  lemma {:induction false} AddToTotals(groups: seq<MoveLine>, line: MoveLine, picked: (nat, Option<nat>, nat) -> bool)
    ensures Debits(AddTo(groups, line), picked) == Debits(groups, picked) + DebitIn(line, picked)
    ensures Credits(AddTo(groups, line), picked) == Credits(groups, picked) + CreditIn(line, picked)
  {
    TotalsOne(line, picked);
    if groups != [] {
      assert groups == [groups[0]] + groups[1..];
      TotalsConcat([groups[0]], groups[1..], picked);
      TotalsOne(groups[0], picked);
      if SameKey(groups[0], line) {
        var sum := groups[0].(debit := groups[0].debit + line.debit, credit := groups[0].credit + line.credit);
        TotalsConcat([sum], groups[1..], picked);
        TotalsOne(sum, picked);
      } else {
        AddToTotals(groups[1..], line, picked);
        TotalsConcat([groups[0]], AddTo(groups[1..], line), picked);
      }
    }
  }

  lemma {:induction false} GroupedTotals(lines: seq<MoveLine>, picked: (nat, Option<nat>, nat) -> bool)
    ensures Debits(Grouped(lines), picked) == Debits(lines, picked)
    ensures Credits(Grouped(lines), picked) == Credits(lines, picked)
  {
    if lines != [] {
      GroupedTotals(Front(lines), picked);
      AddToTotals(Grouped(Front(lines)), Last(lines), picked);
    }
  }

  /** A line is on one side at most, with no negative amount. */
  ghost predicate OneSided(line: MoveLine) {
    line.debit >= 0 && line.credit >= 0 && (line.debit == 0 || line.credit == 0)
  }

  ghost predicate AllOneSided(lines: seq<MoveLine>) {
    forall k :: 0 <= k < |lines| ==> OneSided(lines[k])
  }

  /** Splitting off the debit and the credit lines loses only empty lines. */
  lemma {:induction false} SplitTotals(lines: seq<MoveLine>, picked: (nat, Option<nat>, nat) -> bool)
    requires AllOneSided(lines)
    ensures Debits(DebitLines(lines), picked) == Debits(lines, picked) && Credits(DebitLines(lines), picked) == 0
    ensures Credits(CreditLines(lines), picked) == Credits(lines, picked) && Debits(CreditLines(lines), picked) == 0
  {
    if lines != [] {
      var last := Last(lines);
      SplitTotals(Front(lines), picked);
      assert OneSided(last);
      TotalsOne(last, picked);
      TotalsConcat(DebitLines(Front(lines)), if last.debit > 0 then [last] else [], picked);
      TotalsConcat(CreditLines(Front(lines)), if last.credit > 0 then [last] else [], picked);
    }
  }

  lemma {:induction false} SetupOneSided(dues: seq<Due>, account: nat, role: Role)
    ensures AllOneSided(SetupMoveLines(dues, account, role))
  {
    if dues != [] {
      SetupOneSided(Front(dues), account, role);
      assert OneSided(SetupMoveLine(Last(dues), account, role));
    }
  }

  lemma MergedTotals(lines: seq<MoveLine>, picked: (nat, Option<nat>, nat) -> bool)
    requires AllOneSided(lines)
    ensures Debits(Merged(lines), picked) == Debits(lines, picked)
    ensures Credits(Merged(lines), picked) == Credits(lines, picked)
  {
    SplitTotals(lines, picked);
    GroupedTotals(DebitLines(lines), picked);
    GroupedTotals(CreditLines(lines), picked);
    TotalsConcat(Grouped(DebitLines(lines)), Grouped(CreditLines(lines)), picked);
  }

  lemma {:induction false} PlainTotals(dues: seq<Due>, depreciation: nat, expense: nat,
      picked: (nat, Option<nat>, nat) -> bool)
    ensures var x, z := SetupMoveLines(dues, depreciation, Depreciation), SetupMoveLines(dues, expense, Expense);
      && Debits(Plain(dues, depreciation, expense), picked) == Debits(x, picked) + Debits(z, picked)
      && Credits(Plain(dues, depreciation, expense), picked) == Credits(x, picked) + Credits(z, picked)
  {
    if dues != [] {
      PlainTotals(Front(dues), depreciation, expense, picked);
      var d := SetupMoveLine(Last(dues), depreciation, Depreciation);
      var e := SetupMoveLine(Last(dues), expense, Expense);
      TotalsConcat(SetupMoveLines(Front(dues), depreciation, Depreciation), [d], picked);
      TotalsConcat(SetupMoveLines(Front(dues), expense, Expense), [e], picked);
      TotalsConcat(Plain(Front(dues), depreciation, expense), [d, e], picked);
      assert [d, e] == [d] + [e];
      TotalsConcat([d], [e], picked);
    }
  }

  /** The merged entry debits and credits every choice of accounts, analytic accounts and
      journals with the same totals as one pair of lines per depreciation line: for any signs and
      amounts, zero included. */
  lemma CompoundKeepsTotals(dues: seq<Due>, depreciation: nat, expense: nat, picked: (nat, Option<nat>, nat) -> bool)
    ensures Debits(Compound(dues, depreciation, expense), picked) == Debits(Plain(dues, depreciation, expense), picked)
    ensures Credits(Compound(dues, depreciation, expense), picked)
      == Credits(Plain(dues, depreciation, expense), picked)
  {
    var x, z := SetupMoveLines(dues, depreciation, Depreciation), SetupMoveLines(dues, expense, Expense);
    SetupOneSided(dues, depreciation, Depreciation);
    SetupOneSided(dues, expense, Expense);
    MergedTotals(x, picked);
    MergedTotals(z, picked);
    TotalsConcat(Merged(x), Merged(z), picked);
    PlainTotals(dues, depreciation, expense, picked);
  }

  lemma {:induction false} PlainBalances(dues: seq<Due>, depreciation: nat, expense: nat)
    ensures var all := (a: nat, n: Option<nat>, j: nat) => true;
      Debits(Plain(dues, depreciation, expense), all) == Credits(Plain(dues, depreciation, expense), all)
  {
    var all := (a: nat, n: Option<nat>, j: nat) => true;
    if dues != [] {
      PlainBalances(Front(dues), depreciation, expense);
      var d := SetupMoveLine(Last(dues), depreciation, Depreciation);
      var e := SetupMoveLine(Last(dues), expense, Expense);
      TotalsConcat(Plain(Front(dues), depreciation, expense), [d, e], all);
      assert [d, e] == [d] + [e];
      TotalsConcat([d], [e], all);
      TotalsOne(d, all);
      TotalsOne(e, all);
    }
  }

  lemma CompoundBalances(dues: seq<Due>, depreciation: nat, expense: nat)
    ensures var all := (a: nat, n: Option<nat>, j: nat) => true;
      Debits(Compound(dues, depreciation, expense), all) == Credits(Compound(dues, depreciation, expense), all)
  {
    CompoundKeepsTotals(dues, depreciation, expense, (a: nat, n: Option<nat>, j: nat) => true);
    PlainBalances(dues, depreciation, expense);
  }

  /* ---- what the entry does to the accounts ---- */

  /** The amounts of the depreciation lines whose expense is picked. */
  function Expensed(dues: seq<Due>, expense: nat, picked: (nat, Option<nat>, nat) -> bool): int {
    if dues == [] then 0
    else
      Expensed(Front(dues), expense, picked)
      + if picked(expense, Last(dues).analytic, Last(dues).journal) then Last(dues).amount else 0
  }

  /** The amounts of those whose depreciation is picked, which has no analytic account. */
  function Depreciated(dues: seq<Due>, depreciation: nat, picked: (nat, Option<nat>, nat) -> bool): int {
    if dues == [] then 0
    else
      Depreciated(Front(dues), depreciation, picked)
      + if picked(depreciation, None, Last(dues).journal) then Last(dues).amount else 0
  }

  lemma {:induction false} PlainNets(dues: seq<Due>, depreciation: nat, expense: nat,
      picked: (nat, Option<nat>, nat) -> bool)
    ensures Debits(Plain(dues, depreciation, expense), picked) - Credits(Plain(dues, depreciation, expense), picked)
      == Expensed(dues, expense, picked) - Depreciated(dues, depreciation, picked)
  {
    if dues != [] {
      PlainNets(Front(dues), depreciation, expense, picked);
      var d := SetupMoveLine(Last(dues), depreciation, Depreciation);
      var e := SetupMoveLine(Last(dues), expense, Expense);
      TotalsConcat(Plain(Front(dues), depreciation, expense), [d, e], picked);
      assert [d, e] == [d] + [e];
      TotalsConcat([d], [e], picked);
      TotalsOne(d, picked);
      TotalsOne(e, picked);
    }
  }

  /** The entry, merged or not, adds to any choice of accounts, analytic accounts and journals
      the amounts expensed there, and takes off those depreciated there. */
  lemma CompoundNets(dues: seq<Due>, depreciation: nat, expense: nat, picked: (nat, Option<nat>, nat) -> bool)
    ensures Debits(Compound(dues, depreciation, expense), picked)
      - Credits(Compound(dues, depreciation, expense), picked)
      == Expensed(dues, expense, picked) - Depreciated(dues, depreciation, picked)
  {
    CompoundKeepsTotals(dues, depreciation, expense, picked);
    PlainNets(dues, depreciation, expense, picked);
  }

  function Sum(dues: seq<Due>): int {
    if dues == [] then 0 else Sum(Front(dues)) + Last(dues).amount
  }

  lemma {:induction false} AllOrNone(dues: seq<Due>, account: nat, picked: (nat, Option<nat>, nat) -> bool)
    ensures (forall n, j :: picked(account, n, j)) ==> Expensed(dues, account, picked) == Sum(dues)
    ensures (forall j :: picked(account, None, j)) ==> Depreciated(dues, account, picked) == Sum(dues)
    ensures (forall n, j :: !picked(account, n, j)) ==>
      Expensed(dues, account, picked) == Depreciated(dues, account, picked) == 0
  {
    if dues != [] {
      AllOrNone(Front(dues), account, picked);
    }
  }

  /** The depreciation account is credited with the sum of the amounts, all of it without
      analytic account, and the expense account debited with it. */
  lemma CompoundOnAccounts(dues: seq<Due>, depreciation: nat, expense: nat)
    requires depreciation != expense
    ensures var m := Compound(dues, depreciation, expense);
      var onDepreciation := (a: nat, n: Option<nat>, j: nat) => a == depreciation;
      var plainly := (a: nat, n: Option<nat>, j: nat) => a == depreciation && n == None;
      var onExpense := (a: nat, n: Option<nat>, j: nat) => a == expense;
      && Debits(m, onDepreciation) - Credits(m, onDepreciation) == -Sum(dues)
      && Debits(m, plainly) - Credits(m, plainly) == -Sum(dues)
      && Debits(m, onExpense) - Credits(m, onExpense) == Sum(dues)
  {
    var onDepreciation := (a: nat, n: Option<nat>, j: nat) => a == depreciation;
    var plainly := (a: nat, n: Option<nat>, j: nat) => a == depreciation && n == None;
    var onExpense := (a: nat, n: Option<nat>, j: nat) => a == expense;
    CompoundNets(dues, depreciation, expense, onDepreciation);
    CompoundNets(dues, depreciation, expense, plainly);
    CompoundNets(dues, depreciation, expense, onExpense);
    AllOrNone(dues, depreciation, onDepreciation);
    AllOrNone(dues, expense, onDepreciation);
    AllOrNone(dues, depreciation, plainly);
    AllOrNone(dues, expense, plainly);
    AllOrNone(dues, depreciation, onExpense);
    AllOrNone(dues, expense, onExpense);
  }

  /* ---- merging is complete ---- */

  ghost predicate KeysDiffer(groups: seq<MoveLine>) {
    forall j, k :: 0 <= j < k < |groups| ==> !SameKey(groups[j], groups[k])
  }

  /** All lines carry the account and are debits only, or credits only. */
  ghost predicate OnSide(lines: seq<MoveLine>, account: nat, debit: bool) {
    forall k :: 0 <= k < |lines| ==>
      lines[k].account == account && (if debit then lines[k].debit > 0 && lines[k].credit == 0
        else lines[k].credit > 0 && lines[k].debit == 0)
  }

  lemma {:induction false} AddToSide(groups: seq<MoveLine>, line: MoveLine, account: nat, debit: bool)
    requires OnSide(groups, account, debit) && OnSide([line], account, debit)
    ensures OnSide(AddTo(groups, line), account, debit)
  {
    assert line == [line][0];
    if groups != [] && !SameKey(groups[0], line) {
      AddToSide(groups[1..], line, account, debit);
    }
  }

  /** Adding a line keeps the keys in place and adds at most its own. */
  lemma {:induction false} AddToKeys(groups: seq<MoveLine>, line: MoveLine, k: nat)
    requires k < |AddTo(groups, line)|
    ensures if k < |groups| then SameKey(AddTo(groups, line)[k], groups[k]) else SameKey(AddTo(groups, line)[k], line)
    ensures |AddTo(groups, line)|
      == |groups| + if exists j :: 0 <= j < |groups| && SameKey(groups[j], line) then 0 else 1
  {
    if groups != [] && !SameKey(groups[0], line) {
      if k > 0 {
        AddToKeys(groups[1..], line, k - 1);
      } else {
        AddToKeys(groups[1..], line, 0);
      }
      assert (exists j :: 0 <= j < |groups| && SameKey(groups[j], line))
        <==> (exists j :: 0 <= j < |groups[1..]| && SameKey(groups[1..][j], line)) by {
        if j :| 0 <= j < |groups| && SameKey(groups[j], line) {
          assert SameKey(groups[1..][j - 1], line);
        }
      }
    }
  }

  lemma AddToDiffer(groups: seq<MoveLine>, line: MoveLine)
    requires KeysDiffer(groups)
    ensures KeysDiffer(AddTo(groups, line))
  {
    hide AddTo;
    var r := AddTo(groups, line);
    forall j, k | 0 <= j < k < |r|
      ensures !SameKey(r[j], r[k])
    {
      AddToKeys(groups, line, j);
      AddToKeys(groups, line, k);
      if k == |groups| {
        assert !SameKey(groups[j], line);
      } else {
        assert !SameKey(groups[j], groups[k]);
      }
    }
  }

  lemma {:induction false} GroupedKeys(lines: seq<MoveLine>, account: nat, debit: bool)
    requires OnSide(lines, account, debit)
    ensures KeysDiffer(Grouped(lines)) && OnSide(Grouped(lines), account, debit)
  {
    if lines != [] {
      GroupedKeys(Front(lines), account, debit);
      AddToSide(Grouped(Front(lines)), Last(lines), account, debit);
      AddToDiffer(Grouped(Front(lines)), Last(lines));
    }
  }

  lemma {:induction false} SplitOnSide(dues: seq<Due>, account: nat, role: Role)
    ensures OnSide(DebitLines(SetupMoveLines(dues, account, role)), account, true)
    ensures OnSide(CreditLines(SetupMoveLines(dues, account, role)), account, false)
  {
    if dues != [] {
      SplitOnSide(Front(dues), account, role);
      var lines := SetupMoveLines(dues, account, role);
      assert Front(lines) == SetupMoveLines(Front(dues), account, role);
    }
  }

  /** No line is empty or on both sides, and lines with the same account, analytic account
      and journal are a debit and a later credit. */
  ghost predicate FullyMerged(m: seq<MoveLine>) {
    && (forall k :: 0 <= k < |m| ==> OneSided(m[k]) && m[k].debit + m[k].credit > 0)
    && (forall j, k :: 0 <= j < k < |m| && SameKey(m[j], m[k]) ==> m[j].debit > 0 && m[k].credit > 0)
  }

  ghost predicate AllOn(m: seq<MoveLine>, account: nat) {
    forall k :: 0 <= k < |m| ==> m[k].account == account
  }

  lemma FullyMergedConcat(x: seq<MoveLine>, z: seq<MoveLine>, first: nat, second: nat)
    requires FullyMerged(x) && AllOn(x, first) && FullyMerged(z) && AllOn(z, second) && first != second
    ensures FullyMerged(x + z)
  {
    hide OneSided;
    var m := x + z;
    assert forall k :: 0 <= k < |m| ==> m[k] == if k < |x| then x[k] else z[k - |x|];
  }

  lemma RoleIsMerged(dues: seq<Due>, account: nat, role: Role)
    ensures var m := Merged(SetupMoveLines(dues, account, role)); FullyMerged(m) && AllOn(m, account)
  {
    var lines := SetupMoveLines(dues, account, role);
    SplitOnSide(dues, account, role);
    GroupedKeys(DebitLines(lines), account, true);
    GroupedKeys(CreditLines(lines), account, false);
    MergedPair(lines, account);
  }

  /** Nothing is left to merge: with different accounts, two lines of the entry that are
      both debits, or both credits, never share account, analytic account and journal. No
      line is empty or on both sides. */
  lemma CompoundIsMerged(dues: seq<Due>, depreciation: nat, expense: nat)
    requires depreciation != expense
    ensures FullyMerged(Compound(dues, depreciation, expense))
  {
    hide Merged, FullyMerged, AllOn;
    RoleIsMerged(dues, depreciation, Depreciation);
    RoleIsMerged(dues, expense, Expense);
    FullyMergedConcat(Merged(SetupMoveLines(dues, depreciation, Depreciation)),
      Merged(SetupMoveLines(dues, expense, Expense)), depreciation, expense);
  }

  lemma MergedPair(lines: seq<MoveLine>, account: nat)
    requires KeysDiffer(Grouped(DebitLines(lines))) && OnSide(Grouped(DebitLines(lines)), account, true)
    requires KeysDiffer(Grouped(CreditLines(lines))) && OnSide(Grouped(CreditLines(lines)), account, false)
    ensures FullyMerged(Merged(lines)) && AllOn(Merged(lines), account)
  {
    hide Grouped;
    var x, z := Grouped(DebitLines(lines)), Grouped(CreditLines(lines));
    forall k | 0 <= k < |x + z|
      ensures (x + z)[k] == if k < |x| then x[k] else z[k - |x|]
    {}
  }
}
