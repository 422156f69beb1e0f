/** Totals of view accounts, computed in one pass over the accounts from the
    deepest level up. */
module ReportRollUp {
  import opened ReportWalk

  datatype Totals = Totals(debit: int, credit: int, balance: int, init: int) {
    function Plus(t: Totals): Totals {
      Totals(debit + t.debit, credit + t.credit, balance + t.balance, init + t.init)
    }
  }

  const ZERO := Totals(0, 0, 0, 0)

  /** Every account above this level is expanded by the walk. */
  const DEEPEST := 100

  /** What a leaf contributes. */
  function Own(account: Account): Totals {
    Totals(account.debit, account.credit, account.debit - account.credit, account.init)
  }

  /** A chart of views and leaves that the walk reaches completely. */
  ghost predicate Reportable(c: Chart) {
    && ValidChart(c)
    && forall id :: id in c ==>
      (c[id].kind == Leaf ==> c[id].children == []) && (c[id].children != [] ==> c[id].level < DEEPEST)
  }

  /* ---- what the totals should be ---- */

  /** The sum over the leaves below an account. */
  function Subtree(c: Chart, id: nat): Totals
    requires Reportable(c) && id in c
    decreases Gap(DEEPEST, c[id].level), 0
  {
    if c[id].kind == Leaf then Own(c[id])
    else if c[id].children == [] then ZERO
    else SubtreeAll(c, c[id].children, c[id].level + 1)
  }

  function SubtreeAll(c: Chart, ids: seq<nat>, low: nat): Totals
    requires Reportable(c) && Accounts(c, ids, low)
    decreases Gap(DEEPEST, low), |ids| + 1
  {
    if ids == [] then ZERO else Subtree(c, ids[0]).Plus(SubtreeAll(c, ids[1..], low))
  }

  /** At every account the balance is debit minus credit. */
  lemma {:induction false} BalanceIsDifference(c: Chart, id: nat)
    requires Reportable(c) && id in c
    ensures var t := Subtree(c, id); t.balance == t.debit - t.credit
    decreases Gap(DEEPEST, c[id].level), 0
  {
    if c[id].kind == View && c[id].children != [] {
      BalanceOfAll(c, c[id].children, c[id].level + 1);
    }
  }

  lemma {:induction false} BalanceOfAll(c: Chart, ids: seq<nat>, low: nat)
    requires Reportable(c) && Accounts(c, ids, low)
    ensures var t := SubtreeAll(c, ids, low); t.balance == t.debit - t.credit
    decreases Gap(DEEPEST, low), |ids| + 1
  {
    if ids != [] {
      BalanceIsDifference(c, ids[0]);
      BalanceOfAll(c, ids[1..], low);
    }
  }

  lemma {:induction false} SubtreeAllSnoc(c: Chart, ids: seq<nat>, id: nat, low: nat)
    requires Reportable(c) && Accounts(c, ids + [id], low) && Accounts(c, ids, low) && id in c
    ensures SubtreeAll(c, ids + [id], low) == SubtreeAll(c, ids, low).Plus(Subtree(c, id))
    decreases |ids|
  {
    hide Subtree;
    if ids == [] {
      assert ([] + [id])[1..] == [];
    } else {
      assert (ids + [id])[1..] == ids[1..] + [id];
      SubtreeAllSnoc(c, ids[1..], id, low);
    }
  }

  /* ---- plain sums ---- */

  /** The leaves below an account, or the account itself if it is one. */
  function Leaves(c: Chart, id: nat): seq<nat>
    requires Reportable(c) && id in c
    decreases Gap(DEEPEST, c[id].level), 0
  {
    if c[id].kind == Leaf then [id]
    else if c[id].children == [] then []
    else LeavesOfAll(c, c[id].children, c[id].level + 1)
  }

  function LeavesOfAll(c: Chart, ids: seq<nat>, low: nat): seq<nat>
    requires Reportable(c) && Accounts(c, ids, low)
    decreases Gap(DEEPEST, low), |ids| + 1
  {
    if ids == [] then [] else Leaves(c, ids[0]) + LeavesOfAll(c, ids[1..], low)
  }

  datatype Figure = Debit | Credit | Opening

  function FigureOf(account: Account, figure: Figure): int {
    match figure case Debit => account.debit case Credit => account.credit case Opening => account.init
  }

  /** One figure of the accounts, added up. */
  function SumOver(c: Chart, ids: seq<nat>, figure: Figure): int {
    if ids == [] then 0 else (if ids[0] in c then FigureOf(c[ids[0]], figure) else 0) + SumOver(c, ids[1..], figure)
  }

  lemma {:induction false} SumOverConcat(c: Chart, x: seq<nat>, z: seq<nat>, figure: Figure)
    ensures SumOver(c, x + z, figure) == SumOver(c, x, figure) + SumOver(c, z, figure)
    decreases |x|
  {
    if x == [] {
      assert x + z == z;
    } else {
      assert (x + z)[1..] == x[1..] + z;
      SumOverConcat(c, x[1..], z, figure);
    }
  }

  /** The totals are the figures of some accounts added up; the balance is what is debited
      less what is credited. */
  ghost predicate Adds(c: Chart, t: Totals, ids: seq<nat>) {
    && t.debit == SumOver(c, ids, Debit)
    && t.credit == SumOver(c, ids, Credit)
    && t.balance == t.debit - t.credit
    && t.init == SumOver(c, ids, Opening)
  }

  /** The debit, credit, balance and opening balance of an account are those of the leaves
      below it, added up. */
  lemma {:induction false} SubtreeAdds(c: Chart, id: nat)
    requires Reportable(c) && id in c
    ensures Adds(c, Subtree(c, id), Leaves(c, id))
    decreases Gap(DEEPEST, c[id].level), 0
  {
    if c[id].kind == Leaf {
      AddsOne(c, id);
    } else if c[id].children != [] {
      SubtreeAllAdds(c, c[id].children, c[id].level + 1);
    }
  }

  lemma AddsOne(c: Chart, id: nat)
    requires id in c
    ensures Adds(c, Own(c[id]), [id])
  {
    assert [id][1..] == [];
  }

  lemma {:induction false} SubtreeAllAdds(c: Chart, ids: seq<nat>, low: nat)
    requires Reportable(c) && Accounts(c, ids, low)
    ensures Adds(c, SubtreeAll(c, ids, low), LeavesOfAll(c, ids, low))
    decreases Gap(DEEPEST, low), |ids| + 1
  {
    if ids != [] {
      SubtreeAdds(c, ids[0]);
      SubtreeAllAdds(c, ids[1..], low);
      hide Subtree, SubtreeAll, Leaves, LeavesOfAll;
      AddsConcat(c, Subtree(c, ids[0]), Leaves(c, ids[0]), SubtreeAll(c, ids[1..], low), LeavesOfAll(c, ids[1..], low));
    }
  }

  lemma AddsConcat(c: Chart, t: Totals, x: seq<nat>, u: Totals, z: seq<nat>)
    requires Adds(c, t, x) && Adds(c, u, z)
    ensures Adds(c, t.Plus(u), x + z)
  {
    SumOverConcat(c, x, z, Debit);
    SumOverConcat(c, x, z, Credit);
    SumOverConcat(c, x, z, Opening);
  }

  /* ---- the pass ---- */

  /** The view accounts of the report, deepest level first. */
  ghost predicate DeepestFirst(c: Chart, reached: set<nat>, order: seq<nat>) {
    && (forall k :: 0 <= k < |order| ==> order[k] in reached && order[k] in c && c[order[k]].kind == View)
    && (forall id :: id in reached && id in c && c[id].kind == View ==> id in order)
    && (forall j, k :: 0 <= j < k < |order| ==> c[order[k]].level <= c[order[j]].level)
  }

  /** The children of reached accounts are reached. */
  ghost predicate Closed(c: Chart, reached: set<nat>) {
    forall id :: id in reached ==> id in c && forall k :: 0 <= k < |c[id].children| ==> c[id].children[k] in reached
  }

  /** The totals known while the pass stands before `order[k]`: all leaves, and the
      views that come earlier. */
  ghost predicate KnownBefore(c: Chart, reached: set<nat>, order: seq<nat>, k: nat, all: map<nat, Totals>)
    requires Reportable(c) && k <= |order|
  {
    && (forall id :: id in all ==> id in c && all[id] == Subtree(c, id))
    && (forall id :: id in reached && id in c && c[id].kind == Leaf ==> id in all)
    && (forall j :: 0 <= j < k ==> order[j] in all)
  }

  /** When its turn comes, all children of a view have their final totals. */
  lemma ChildrenKnown(c: Chart, reached: set<nat>, order: seq<nat>, k: nat, all: map<nat, Totals>)
    requires Reportable(c) && Closed(c, reached) && DeepestFirst(c, reached, order)
    requires k < |order| && KnownBefore(c, reached, order, k, all)
    ensures forall i :: 0 <= i < |c[order[k]].children| ==> c[order[k]].children[i] in all
  {
    forall i | 0 <= i < |c[order[k]].children|
      ensures c[order[k]].children[i] in all
    {
      var child := c[order[k]].children[i];
      if c[child].kind == View {
        var j :| 0 <= j < |order| && order[j] == child;
        assert c[child].level == c[order[k]].level + 1;
        assert j < k;
      }
    }
  }

  /** The single pass.  It only ever reads totals that are already final, and gives
      every view account the sum of its leaves. */
  method RollUp(c: Chart, reached: set<nat>, order: seq<nat>) returns (all: map<nat, Totals>)
    requires Reportable(c) && Closed(c, reached) && DeepestFirst(c, reached, order)
    ensures forall id :: id in reached ==> id in all && id in c && all[id] == Subtree(c, id)
  {
    hide Subtree, SubtreeAll;
    all := map id | id in reached && c[id].kind == Leaf :: Own(c[id]);
    LeavesKnown(c, reached, order, all);
    for k := 0 to |order|
      invariant KnownBefore(c, reached, order, k, all)
    {
      var id := order[k];
      ChildrenKnown(c, reached, order, k, all);
      var total := ZERO;
      var children := c[id].children;
      var low := c[id].level + 1;
      EmptySum(c, low);
      for i := 0 to |children|
        invariant Accounts(c, children[..i], low)
        invariant total == SubtreeAll(c, children[..i], low)
      {
        assert children[..i + 1] == children[..i] + [children[i]];
        SubtreeAllSnoc(c, children[..i], children[i], low);
        total := total.Plus(all[children[i]]);
      }
      assert children[..|children|] == children;
      ViewTotal(c, id);
      all := all[id := total];
    }
    AllKnown(c, reached, order, all);
  }

  lemma EmptySum(c: Chart, low: nat)
    requires Reportable(c)
    ensures SubtreeAll(c, [], low) == ZERO
  {}

  lemma ViewTotal(c: Chart, id: nat)
    requires Reportable(c) && id in c && c[id].kind == View
    ensures Subtree(c, id) == SubtreeAll(c, c[id].children, c[id].level + 1)
  {}

  lemma LeavesKnown(c: Chart, reached: set<nat>, order: seq<nat>, all: map<nat, Totals>)
    requires Reportable(c) && Closed(c, reached)
    requires all == map id | id in reached && c[id].kind == Leaf :: Own(c[id])
    ensures KnownBefore(c, reached, order, 0, all)
  {
    forall id | id in all
      ensures id in c && all[id] == Subtree(c, id)
    {
      assert id in reached;
    }
  }

  lemma AllKnown(c: Chart, reached: set<nat>, order: seq<nat>, all: map<nat, Totals>)
    requires Reportable(c) && Closed(c, reached) && DeepestFirst(c, reached, order)
    requires KnownBefore(c, reached, order, |order|, all)
    ensures forall id :: id in reached ==> id in all && id in c && all[id] == Subtree(c, id)
  {
    forall id | id in reached
      ensures id in all && id in c
    {
      if c[id].kind == View {
        assert id in order;
      }
    }
  }

  /* ---- the report ---- */

  /** The accounts in the list the walk produces. */
  function Reached(rows: seq<Row>): set<nat> {
    set k | 0 <= k < |rows| :: rows[k].id
  }

  /** The walk down to the deepest level reaches the whole subtrees. */
  lemma WalkIsClosed(c: Chart, roots: seq<nat>)
    requires Reportable(c) && Accounts(c, roots, 0)
    ensures Closed(c, Reached(WalkAll(c, roots, DEEPEST, 0)))
  {
    var rows := WalkAll(c, roots, DEEPEST, 0);
    forall id | id in Reached(rows)
      ensures id in c && forall k :: 0 <= k < |c[id].children| ==> c[id].children[k] in Reached(rows)
    {
      var n :| 0 <= n < |rows| && rows[n].id == id;
      ShownClosed(c, roots, DEEPEST, 0, id);
      forall k | 0 <= k < |c[id].children|
        ensures c[id].children[k] in Reached(rows)
      {
        assert Expands(c, id, DEEPEST);
        var m :| 0 <= m < |rows| && rows[m].id == c[id].children[k];
      }
    }
  }

  /** From the roots to the totals of every account of the report. */
  method ReportTotals(c: Chart, roots: seq<nat>, order: seq<nat>) returns (all: map<nat, Totals>)
    requires Reportable(c) && Accounts(c, roots, 0)
    requires DeepestFirst(c, Reached(WalkAll(c, roots, DEEPEST, 0)), order)
    ensures forall id :: id in Reached(WalkAll(c, roots, DEEPEST, 0)) ==>
      id in all && id in c && all[id] == Subtree(c, id)
  {
    var rows := Walk(c, roots, DEEPEST, 0);
    WalkIsClosed(c, roots);
    all := RollUp(c, Reached(rows), order);
  }
}
