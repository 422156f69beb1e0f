/** The account chart of the financial reports and the nested list of its rows. */
module ReportWalk {

  datatype Kind = View | Leaf

  /** An account; for a leaf the amounts of its own journal items. */
  datatype Account = Account(level: nat, kind: Kind, children: seq<nat>, debit: int, credit: int, init: int)

  type Chart = map<nat, Account>

  /** Every child is an account one level further down. */
  ghost predicate ValidChart(c: Chart) {
    forall id, k :: id in c && 0 <= k < |c[id].children| ==>
      c[id].children[k] in c && c[c[id].children[k]].level == c[id].level + 1
  }

  /** Accounts of the chart on level `low` or further down. */
  ghost predicate Accounts(c: Chart, ids: seq<nat>, low: nat) {
    forall k :: 0 <= k < |ids| ==> ids[k] in c && low <= c[ids[k]].level
  }

  /** A row: `header` on a header, `total` on a total row, both on a single row. */
  datatype Row = Row(id: nat, header: bool, total: bool)

  function Gap(limit: nat, level: nat): nat {
    if level < limit then limit - level else 0
  }

  predicate Expands(c: Chart, id: nat, limit: nat)
    requires id in c
  {
    c[id].children != [] && c[id].level < limit
  }

  /** An expanded account has its subtree between a header and a total row; any
      other account is a single row. */
  function WalkOne(c: Chart, id: nat, limit: nat): seq<Row>
    requires ValidChart(c) && id in c
    decreases Gap(limit, c[id].level), 0
  {
    if Expands(c, id, limit) then
      [Row(id, true, false)] + WalkAll(c, c[id].children, limit, c[id].level + 1) + [Row(id, false, true)]
    else [Row(id, true, true)]
  }

  function WalkAll(c: Chart, ids: seq<nat>, limit: nat, low: nat): seq<Row>
    requires ValidChart(c) && Accounts(c, ids, low)
    decreases Gap(limit, low), |ids| + 1
  {
    if ids == [] then [] else WalkOne(c, ids[0], limit) + WalkAll(c, ids[1..], limit, low)
  }

  /** The same walk for the sign change: ids only, parents after their children. */
  function SignOne(c: Chart, id: nat, limit: nat): seq<nat>
    requires ValidChart(c) && id in c
    decreases Gap(limit, c[id].level), 0
  {
    if Expands(c, id, limit) then SignAll(c, c[id].children, limit, c[id].level + 1) + [id] else [id]
  }

  function SignAll(c: Chart, ids: seq<nat>, limit: nat, low: nat): seq<nat>
    requires ValidChart(c) && Accounts(c, ids, low)
    decreases Gap(limit, low), |ids| + 1
  {
    if ids == [] then [] else SignOne(c, ids[0], limit) + SignAll(c, ids[1..], limit, low)
  }

  /** The recursive walk, appending to one list. */
  method Walk(c: Chart, ids: seq<nat>, limit: nat, ghost low: nat) returns (rows: seq<Row>)
    requires ValidChart(c) && Accounts(c, ids, low)
    ensures rows == WalkAll(c, ids, limit, low)
    decreases Gap(limit, low)
  {
    rows := [];
    assert ids[0..] == ids;
    for k := 0 to |ids|
      invariant WalkAll(c, ids, limit, low) == rows + WalkAll(c, ids[k..], limit, low)
    {
      var id := ids[k];
      assert ids[k..][0] == id && ids[k..][1..] == ids[k + 1..];
      Assoc(rows, WalkOne(c, id, limit), WalkAll(c, ids[k + 1..], limit, low));
      if c[id].children != [] && c[id].level < limit {
        var inner := Walk(c, c[id].children, limit, c[id].level + 1);
        rows := rows + ([Row(id, true, false)] + inner + [Row(id, false, true)]);
      } else {
        rows := rows + [Row(id, true, true)];
      }
    }
  }

  lemma Assoc(x: seq<Row>, y: seq<Row>, z: seq<Row>)
    ensures x + (y + z) == (x + y) + z
  {}

  /* ---- the list is the tree ---- */

  /** The part of the chart the walk shows. */
  datatype Tree = Single(id: nat) | Branch(id: nat, kids: seq<Tree>)

  function UnfoldOne(c: Chart, id: nat, limit: nat): Tree
    requires ValidChart(c) && id in c
    decreases Gap(limit, c[id].level), 0
  {
    if Expands(c, id, limit) then Branch(id, UnfoldAll(c, c[id].children, limit, c[id].level + 1)) else Single(id)
  }

  function UnfoldAll(c: Chart, ids: seq<nat>, limit: nat, low: nat): seq<Tree>
    requires ValidChart(c) && Accounts(c, ids, low)
    decreases Gap(limit, low), |ids| + 1
  {
    if ids == [] then [] else [UnfoldOne(c, ids[0], limit)] + UnfoldAll(c, ids[1..], limit, low)
  }

  predicate Closes(rows: seq<Row>) {
    rows == [] || (!rows[0].header && rows[0].total)
  }

  /** Reads trees off a list of rows until a total row without header; a header
      must be closed by the total row of the same account. */
  function ReadTrees(rows: seq<Row>): (r: (seq<Tree>, seq<Row>))
    ensures |r.1| <= |rows|
    decreases |rows|
  {
    if Closes(rows) then ([], rows)
    else if rows[0].header && rows[0].total then
      var (more, rest) := ReadTrees(rows[1..]);
      ([Single(rows[0].id)] + more, rest)
    else
      var (kids, after) := ReadTrees(rows[1..]);
      if after != [] && after[0] == Row(rows[0].id, false, true) then
        var (more, rest) := ReadTrees(after[1..]);
        ([Branch(rows[0].id, kids)] + more, rest)
      else ([], rows)
  }

  /** The rows of one account read back as its tree, whatever follows. */
  lemma {:induction false} OneReadsBack(c: Chart, id: nat, limit: nat, z: seq<Row>)
    requires ValidChart(c) && id in c
    ensures ReadTrees(WalkOne(c, id, limit) + z) == ([UnfoldOne(c, id, limit)] + ReadTrees(z).0, ReadTrees(z).1)
    decreases Gap(limit, c[id].level), 0
  {
    var rows := WalkOne(c, id, limit) + z;
    if Expands(c, id, limit) {
      var inner := WalkAll(c, c[id].children, limit, c[id].level + 1);
      var after := [Row(id, false, true)] + z;
      WalkReadsBack(c, c[id].children, limit, c[id].level + 1, after);
      Bracketed(Row(id, true, false), inner, Row(id, false, true), z);
      assert after[1..] == z;
    } else {
      assert rows[1..] == z;
    }
  }

  lemma Bracketed(head: Row, inner: seq<Row>, foot: Row, z: seq<Row>)
    ensures var rows := [head] + inner + [foot] + z;
      rows[0] == head && rows[1..] == inner + ([foot] + z)
  {}

  /** The flattened list is properly bracketed: read back, it is exactly the tree
      of the accounts, each expanded account enclosing exactly its subtree. */
  lemma {:induction false} WalkReadsBack(c: Chart, ids: seq<nat>, limit: nat, low: nat, tail: seq<Row>)
    requires ValidChart(c) && Accounts(c, ids, low) && Closes(tail)
    ensures ReadTrees(WalkAll(c, ids, limit, low) + tail) == (UnfoldAll(c, ids, limit, low), tail)
    decreases Gap(limit, low), |ids| + 1
  {
    if ids == [] {
      assert WalkAll(c, ids, limit, low) + tail == tail;
    } else {
      hide ReadTrees, WalkOne, UnfoldOne;
      var one, more := WalkOne(c, ids[0], limit), WalkAll(c, ids[1..], limit, low);
      WalkReadsBack(c, ids[1..], limit, low, tail);
      OneReadsBack(c, ids[0], limit, more + tail);
      assert (one + more) + tail == one + (more + tail);
    }
  }

  function TotalIds(rows: seq<Row>): seq<nat> {
    if rows == [] then [] else (if rows[0].total then [rows[0].id] else []) + TotalIds(rows[1..])
  }

  lemma {:induction false} TotalIdsConcat(x: seq<Row>, z: seq<Row>)
    ensures TotalIds(x + z) == TotalIds(x) + TotalIds(z)
  {
    if x == [] {
      assert x + z == z;
    } else {
      assert (x + z)[1..] == x[1..] + z;
      TotalIdsConcat(x[1..], z);
      var head, a, b := if x[0].total then [x[0].id] else [], TotalIds(x[1..]), TotalIds(z);
      assert head + (a + b) == (head + a) + b;
    }
  }

  lemma TotalIdsOne(row: Row)
    ensures TotalIds([row]) == if row.total then [row.id] else []
  {
    assert [row][1..] == [];
  }

  lemma {:induction false} SignOneIsTotals(c: Chart, id: nat, limit: nat)
    requires ValidChart(c) && id in c
    ensures SignOne(c, id, limit) == TotalIds(WalkOne(c, id, limit))
    decreases Gap(limit, c[id].level), 0
  {
    hide TotalIds;
    TotalIdsOne(Row(id, true, true));
    if Expands(c, id, limit) {
      var head, inner, foot := [Row(id, true, false)], WalkAll(c, c[id].children, limit, c[id].level + 1),
        [Row(id, false, true)];
      SignIsTotals(c, c[id].children, limit, c[id].level + 1);
      TotalIdsConcat(head + inner, foot);
      TotalIdsConcat(head, inner);
      TotalIdsOne(head[0]);
      TotalIdsOne(foot[0]);
    }
  }

  /** The sign-change list is the ids of the total rows, in the same order. */
  lemma {:induction false} SignIsTotals(c: Chart, ids: seq<nat>, limit: nat, low: nat)
    requires ValidChart(c) && Accounts(c, ids, low)
    ensures SignAll(c, ids, limit, low) == TotalIds(WalkAll(c, ids, limit, low))
    decreases Gap(limit, low), |ids| + 1
  {
    if ids != [] {
      hide WalkOne, SignOne;
      SignOneIsTotals(c, ids[0], limit);
      SignIsTotals(c, ids[1..], limit, low);
      TotalIdsConcat(WalkOne(c, ids[0], limit), WalkAll(c, ids[1..], limit, low));
    }
  }

  /** Accounts shown in a list of rows. */
  predicate Shown(rows: seq<Row>, id: nat) {
    exists k :: 0 <= k < |rows| && rows[k].id == id
  }

  lemma ShownConcat(x: seq<Row>, z: seq<Row>, id: nat)
    ensures Shown(x + z, id) <==> Shown(x, id) || Shown(z, id)
  {
    if k :| 0 <= k < |x| && x[k].id == id { assert (x + z)[k].id == id; }
    if k :| 0 <= k < |z| && z[k].id == id { assert (x + z)[|x| + k].id == id; }
  }

  /** The children of a shown account that expands are shown, and shown accounts
      are accounts of the chart. */
  lemma {:induction false} ShownClosed(c: Chart, ids: seq<nat>, limit: nat, low: nat, id: nat)
    requires ValidChart(c) && Accounts(c, ids, low) && Shown(WalkAll(c, ids, limit, low), id)
    ensures id in c
    ensures Expands(c, id, limit) ==>
      forall k :: 0 <= k < |c[id].children| ==> Shown(WalkAll(c, ids, limit, low), c[id].children[k])
    decreases Gap(limit, low), |ids| + 1
  {
    if ids != [] {
      var first, one, rest := ids[0], WalkOne(c, ids[0], limit), WalkAll(c, ids[1..], limit, low);
      ShownConcat(one, rest, id);
      if Shown(rest, id) {
        ShownClosed(c, ids[1..], limit, low, id);
      } else {
        OneClosed(c, first, limit, id);
      }
      if Expands(c, id, limit) {
        forall k | 0 <= k < |c[id].children|
          ensures Shown(WalkAll(c, ids, limit, low), c[id].children[k])
        {
          ShownConcat(one, rest, c[id].children[k]);
        }
      }
    }
  }

  lemma {:induction false} OneClosed(c: Chart, first: nat, limit: nat, id: nat)
    requires ValidChart(c) && first in c && Shown(WalkOne(c, first, limit), id)
    ensures id in c
    ensures Expands(c, id, limit) ==>
      forall k :: 0 <= k < |c[id].children| ==> Shown(WalkOne(c, first, limit), c[id].children[k])
    decreases Gap(limit, c[first].level), 0
  {
    if Expands(c, first, limit) {
      var kids := c[first].children;
      var inner := WalkAll(c, kids, limit, c[first].level + 1);
      var head, foot := [Row(first, true, false)], [Row(first, false, true)];
      ShownConcat(head + inner, foot, id);
      ShownConcat(head, inner, id);
      if id != first {
        ShownClosed(c, kids, limit, c[first].level + 1, id);
      }
      if Expands(c, id, limit) {
        forall k | 0 <= k < |c[id].children|
          ensures Shown(WalkOne(c, first, limit), c[id].children[k])
        {
          var child := c[id].children[k];
          if id == first {
            EachShown(c, kids, limit, c[first].level + 1, k);
          }
          ShownConcat(head + inner, foot, child);
          ShownConcat(head, inner, child);
        }
      }
    }
  }

  lemma {:induction false} EachShown(c: Chart, ids: seq<nat>, limit: nat, low: nat, k: nat)
    requires ValidChart(c) && Accounts(c, ids, low) && k < |ids|
    ensures Shown(WalkAll(c, ids, limit, low), ids[k])
    decreases |ids|
  {
    var one, rest := WalkOne(c, ids[0], limit), WalkAll(c, ids[1..], limit, low);
    ShownConcat(one, rest, ids[k]);
    if k > 0 {
      EachShown(c, ids[1..], limit, low, k - 1);
    } else {
      assert one[0].id == ids[0];
    }
  }
}
