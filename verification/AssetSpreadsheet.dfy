/** The asset reports as spreadsheets: the rows shown for a selection of assets, and
    what the sum formulas of view rows and of the total cell evaluate to. */
module AssetSpreadsheet {
  import opened Outcome

  /** An asset of the hierarchy as stored. */
  datatype AssetTree = AssetTree(id: nat, view: bool, kids: seq<AssetTree>)

  /** An entry of the flat list: id, whether it is a view, and its parent's id. */
  datatype Node = Node(id: nat, view: bool, parent: Option<nat>)

  /* ---- the flat list ---- */

  /** Every child of a parent, each followed by its own descendants. */
  function Descendants(kids: seq<AssetTree>, parent: nat): seq<Node> {
    if kids == [] then []
    else
      var kid := kids[0];
      [Node(kid.id, kid.view, Some(parent))] + Descendants(kid.kids, kid.id) + Descendants(kids[1..], parent)
  }

  /** The report's asset comes first, always as a view. */
  function Flatten(root: AssetTree): seq<Node> {
    [Node(root.id, true, None)] + Descendants(root.kids, root.id)
  }

  predicate HasId(nodes: seq<Node>, id: nat) {
    exists k :: 0 <= k < |nodes| && nodes[k].id == id
  }

  /** Every node has its parent before it in the list. */
  ghost predicate ParentsFirst(nodes: seq<Node>) {
    forall k :: 0 < k < |nodes| ==> nodes[k].parent.Some? && HasId(nodes[..k], nodes[k].parent.value)
  }

  ghost predicate Distinct(nodes: seq<Node>) {
    forall j, k :: 0 <= j < k < |nodes| ==> nodes[j].id != nodes[k].id
  }

  lemma HasIdConcat(x: seq<Node>, z: seq<Node>, id: nat)
    requires HasId(x, id)
    ensures HasId(x + z, id)
  {
    var k :| 0 <= k < |x| && x[k].id == id;
    assert (x + z)[k].id == id;
  }

  lemma ParentsFirstSnoc(nodes: seq<Node>, node: Node)
    requires nodes != [] && ParentsFirst(nodes) && node.parent.Some? && HasId(nodes, node.parent.value)
    ensures ParentsFirst(nodes + [node]) && HasId(nodes + [node], node.id)
  {
    var all := nodes + [node];
    assert all[|nodes|].id == node.id && all[..|nodes|] == nodes;
    assert forall k :: 0 < k < |nodes| ==> all[..k] == nodes[..k];
  }

  lemma {:induction false} DescendantsParents(before: seq<Node>, kids: seq<AssetTree>, parent: nat)
    requires before != [] && ParentsFirst(before) && HasId(before, parent)
    ensures ParentsFirst(before + Descendants(kids, parent))
    decreases kids
  {
    hide ParentsFirst, HasId;
    if kids == [] {
      assert before + Descendants(kids, parent) == before;
    } else {
      var kid := kids[0];
      var head, inner, rest := [Node(kid.id, kid.view, Some(parent))], Descendants(kid.kids, kid.id),
        Descendants(kids[1..], parent);
      ParentsFirstSnoc(before, head[0]);
      DescendantsParents(before + head, kid.kids, kid.id);
      HasIdConcat(before, head, parent);
      HasIdConcat(before + head, inner, parent);
      DescendantsParents(before + head + inner, kids[1..], parent);
      assert before + (head + inner + rest) == before + head + inner + rest;
    }
  }

  /** The flat list starts with the report's asset and lists parents first. */
  lemma FlattenParents(root: AssetTree)
    ensures ParentsFirst(Flatten(root)) && Flatten(root)[0] == Node(root.id, true, None)
  {
    var head := [Node(root.id, true, None)];
    assert head[0].id == root.id;
    DescendantsParents(head, root.kids, root.id);
  }

  /* ---- rows ---- */

  /** The position of the first node with an id, if there is one. */
  function IndexOf(nodes: seq<Node>, id: nat): (k: nat)
    ensures k <= |nodes| && (k < |nodes| ==> nodes[k].id == id)
    ensures forall j :: 0 <= j < k ==> nodes[j].id != id
  {
    if nodes == [] || nodes[0].id == id then 0 else 1 + IndexOf(nodes[1..], id)
  }

  /** The position of a node's parent; a node's own position if it has none. */
  function ParentAt(nodes: seq<Node>, i: nat): (k: nat)
    requires ParentsFirst(nodes) && i < |nodes|
    ensures i > 0 ==> k < i && nodes[i].parent == Some(nodes[k].id)
    ensures i == 0 ==> k == 0
  {
    if i == 0 then 0
    else
      HasIdAt(nodes, i);
      IndexOf(nodes, nodes[i].parent.value)
  }

  lemma HasIdAt(nodes: seq<Node>, i: nat)
    requires ParentsFirst(nodes) && 0 < i < |nodes|
    ensures IndexOf(nodes, nodes[i].parent.value) < i
  {
    var k :| 0 <= k < |nodes[..i]| && nodes[..i][k].id == nodes[i].parent.value;
    assert nodes[k].id == nodes[i].parent.value;
  }

  /** Adds a node to the rows, its missing ancestors first. */
  function ViewAdd(nodes: seq<Node>, i: nat, rows: seq<Node>): seq<Node>
    requires ParentsFirst(nodes) && i < |nodes|
    decreases i
  {
    var k := ParentAt(nodes, i);
    (if i > 0 && nodes[k] !in rows then ViewAdd(nodes, k, rows) else rows) + [nodes[i]]
  }

  /** The rows for the selected nodes from position `i` on. */
  function RowsFrom(nodes: seq<Node>, selected: set<nat>, i: nat, rows: seq<Node>): seq<Node>
    requires ParentsFirst(nodes) && i <= |nodes|
    decreases |nodes| - i
  {
    if i == |nodes| then rows
    else RowsFrom(nodes, selected, i + 1, if nodes[i].id in selected then ViewAdd(nodes, i, rows) else rows)
  }

  method AddToView(nodes: seq<Node>, i: nat, rows0: seq<Node>) returns (rows: seq<Node>)
    requires ParentsFirst(nodes) && i < |nodes|
    ensures rows == ViewAdd(nodes, i, rows0)
    decreases i
  {
    rows := rows0;
    if i > 0 {
      var k := ParentAt(nodes, i);
      if nodes[k] !in rows {
        rows := AddToView(nodes, k, rows);
      }
    }
    rows := rows + [nodes[i]];
  }

  method BuildRows(nodes: seq<Node>, selected: set<nat>) returns (rows: seq<Node>)
    requires ParentsFirst(nodes)
    ensures rows == RowsFrom(nodes, selected, 0, [])
  {
    rows := [];
    for i := 0 to |nodes|
      invariant RowsFrom(nodes, selected, 0, []) == RowsFrom(nodes, selected, i, rows)
    {
      if nodes[i].id in selected {
        rows := AddToView(nodes, i, rows);
      }
    }
  }

  /* ---- each row once, parents first ---- */

  /** The node at `k` is the one at `i` or one of its ancestors. */
  ghost predicate Above(nodes: seq<Node>, k: nat, i: nat)
    requires ParentsFirst(nodes) && i < |nodes|
    decreases i
  {
    k == i || (i > 0 && Above(nodes, k, ParentAt(nodes, i)))
  }

  /** The node is at one of the wanted positions. */
  ghost predicate Among(nodes: seq<Node>, wanted: set<nat>, node: Node) {
    exists k: nat :: k < |nodes| && k in wanted && nodes[k] == node
  }

  /** The rows are the nodes at the wanted positions. */
  ghost predicate Holds(nodes: seq<Node>, rows: seq<Node>, wanted: set<nat>) {
    && (forall r :: 0 <= r < |rows| ==> Among(nodes, wanted, rows[r]))
    && (forall k :: 0 <= k < |nodes| && k in wanted ==> nodes[k] in rows)
  }

  /** The nodes at the wanted positions, each once, the root first and parents
      before children. */
  ghost predicate RowsAre(nodes: seq<Node>, rows: seq<Node>, wanted: set<nat>) {
    && Holds(nodes, rows, wanted)
    && Distinct(rows)
    && (rows != [] ==> nodes != [] && rows[0] == nodes[0])
    && ParentsFirst(rows)
  }

  /** Positions closed under taking the parent. */
  ghost predicate UpClosed(nodes: seq<Node>, wanted: set<nat>)
    requires ParentsFirst(nodes)
  {
    forall k :: k in wanted ==> k < |nodes| && ParentAt(nodes, k) in wanted
  }

  function Up(nodes: seq<Node>, i: nat): (r: set<nat>)
    requires ParentsFirst(nodes) && i < |nodes|
    ensures i in r && forall k :: k in r ==> k <= i
    decreases i
  {
    if i == 0 then {0} else {i} + Up(nodes, ParentAt(nodes, i))
  }

  lemma {:induction false} UpIsAbove(nodes: seq<Node>, i: nat, k: nat)
    requires ParentsFirst(nodes) && i < |nodes|
    ensures k in Up(nodes, i) <==> Above(nodes, k, i)
    decreases i
  {
    if i > 0 {
      UpIsAbove(nodes, ParentAt(nodes, i), k);
    }
  }

  lemma {:induction false} UpIsClosed(nodes: seq<Node>, i: nat)
    requires ParentsFirst(nodes) && i < |nodes|
    ensures UpClosed(nodes, Up(nodes, i))
    decreases i
  {
    if i > 0 {
      UpIsClosed(nodes, ParentAt(nodes, i));
    }
  }

  /** If an up-closed set holds the node, it holds all that is above it. */
  lemma {:induction false} UpWithin(nodes: seq<Node>, wanted: set<nat>, i: nat)
    requires ParentsFirst(nodes) && UpClosed(nodes, wanted) && i in wanted
    ensures Up(nodes, i) <= wanted
    decreases i
  {
    if i > 0 {
      UpWithin(nodes, wanted, ParentAt(nodes, i));
    }
  }

  lemma HoldsSnoc(nodes: seq<Node>, rows: seq<Node>, wanted: set<nat>, i: nat)
    requires i < |nodes| && Holds(nodes, rows, wanted)
    ensures Holds(nodes, rows + [nodes[i]], wanted + {i})
  {
    var all := rows + [nodes[i]];
    forall r | 0 <= r < |all|
      ensures Among(nodes, wanted + {i}, all[r])
    {
      if r < |rows| {
        assert Among(nodes, wanted, rows[r]);
        var k: nat :| k < |nodes| && k in wanted && nodes[k] == rows[r];
        assert k in wanted + {i};
      } else {
        assert i in wanted + {i};
      }
    }
    forall k | 0 <= k < |nodes| && k in wanted + {i}
      ensures nodes[k] in all
    {
      if k == i { assert all[|rows|] == nodes[i]; } else { assert nodes[k] in rows; }
    }
  }

  lemma DistinctSnoc(nodes: seq<Node>, rows: seq<Node>, wanted: set<nat>, i: nat)
    requires Distinct(nodes) && Distinct(rows) && Holds(nodes, rows, wanted) && i < |nodes| && i !in wanted
    ensures Distinct(rows + [nodes[i]])
  {
    forall r | 0 <= r < |rows|
      ensures rows[r].id != nodes[i].id
    {
      assert Among(nodes, wanted, rows[r]);
      var k: nat :| k < |nodes| && k in wanted && nodes[k] == rows[r];
    }
  }

  lemma ParentInRows(nodes: seq<Node>, rows: seq<Node>, wanted: set<nat>, i: nat)
    requires ParentsFirst(nodes) && Holds(nodes, rows, wanted) && 0 < i < |nodes| && ParentAt(nodes, i) in wanted
    ensures rows != [] && nodes[i].parent.Some? && HasId(rows, nodes[i].parent.value)
  {
    var p := ParentAt(nodes, i);
    assert nodes[p] in rows;
    var r :| 0 <= r < |rows| && rows[r] == nodes[p];
    assert rows[r].id == nodes[i].parent.value;
  }

  lemma RowsSnoc(nodes: seq<Node>, rows: seq<Node>, wanted: set<nat>, i: nat)
    requires ParentsFirst(nodes) && Distinct(nodes) && i < |nodes| && i !in wanted
    requires RowsAre(nodes, rows, wanted)
    requires if i == 0 then rows == [] else ParentAt(nodes, i) in wanted
    ensures RowsAre(nodes, rows + [nodes[i]], wanted + {i})
  {
    hide Holds, Distinct, ParentsFirst, HasId, ParentAt;
    HoldsSnoc(nodes, rows, wanted, i);
    DistinctSnoc(nodes, rows, wanted, i);
    if i > 0 {
      ParentInRows(nodes, rows, wanted, i);
      ParentsFirstSnoc(rows, nodes[i]);
      assert (rows + [nodes[i]])[0] == rows[0];
    } else {
      SingleRow(rows + [nodes[i]]);
    }
  }

  lemma SingleRow(rows: seq<Node>)
    requires |rows| == 1
    ensures ParentsFirst(rows)
  {}

  /** Adding one node adds exactly what is missing of it and its ancestors. */
  lemma {:induction false} ViewAddRows(nodes: seq<Node>, i: nat, rows: seq<Node>, wanted: set<nat>)
    requires ParentsFirst(nodes) && Distinct(nodes) && i < |nodes| && i !in wanted
    requires RowsAre(nodes, rows, wanted) && UpClosed(nodes, wanted)
    ensures RowsAre(nodes, ViewAdd(nodes, i, rows), wanted + Up(nodes, i))
    decreases i
  {
    hide RowsAre;
    var k := ParentAt(nodes, i);
    if i == 0 {
      NothingWanted(nodes, rows, wanted);
      RowsSnoc(nodes, rows, wanted, 0);
    } else {
      InRows(nodes, rows, wanted, k);
      if k in wanted {
        RowsSnoc(nodes, rows, wanted, i);
        UpWithin(nodes, wanted, k);
        assert wanted + Up(nodes, i) == wanted + {i};
      } else {
        ViewAddRows(nodes, k, rows, wanted);
        RowsSnoc(nodes, ViewAdd(nodes, k, rows), wanted + Up(nodes, k), i);
        assert wanted + Up(nodes, i) == wanted + Up(nodes, k) + {i};
      }
    }
  }

  lemma NothingWanted(nodes: seq<Node>, rows: seq<Node>, wanted: set<nat>)
    requires ParentsFirst(nodes) && nodes != [] && RowsAre(nodes, rows, wanted) && UpClosed(nodes, wanted)
      && 0 !in wanted
    ensures rows == []
  {
    if rows != [] {
      assert Among(nodes, wanted, rows[0]);
      var k: nat :| k < |nodes| && k in wanted && nodes[k] == rows[0];
      UpWithin(nodes, wanted, k);
      RootAbove(nodes, k);
    }
  }

  lemma {:induction false} RootAbove(nodes: seq<Node>, k: nat)
    requires ParentsFirst(nodes) && k < |nodes|
    ensures 0 in Up(nodes, k)
    decreases k
  {
    if k > 0 {
      RootAbove(nodes, ParentAt(nodes, k));
    }
  }

  lemma InRows(nodes: seq<Node>, rows: seq<Node>, wanted: set<nat>, k: nat)
    requires ParentsFirst(nodes) && Distinct(nodes) && RowsAre(nodes, rows, wanted) && k < |nodes|
    ensures nodes[k] in rows <==> k in wanted
  {
    if nodes[k] in rows {
      var r :| 0 <= r < |rows| && rows[r] == nodes[k];
      assert Among(nodes, wanted, rows[r]);
      var m: nat :| m < |nodes| && m in wanted && nodes[m] == rows[r];
      assert m == k;
    }
  }

  /** The positions wanted by the selected nodes before position `i`. */
  function Wanted(nodes: seq<Node>, selected: set<nat>, i: nat): set<nat>
    requires ParentsFirst(nodes) && i <= |nodes|
  {
    if i == 0 then {} else Wanted(nodes, selected, i - 1) + if nodes[i - 1].id in selected then Up(nodes, i - 1) else {}
  }

  lemma {:induction false} WantedClosed(nodes: seq<Node>, selected: set<nat>, i: nat)
    requires ParentsFirst(nodes) && i <= |nodes|
    ensures UpClosed(nodes, Wanted(nodes, selected, i))
    ensures forall k :: k in Wanted(nodes, selected, i) ==> k < i
    decreases i
  {
    hide ParentAt, UpClosed, ParentsFirst, Up;
    if i == 0 {
      NoneClosed(nodes);
    } else {
      WantedClosed(nodes, selected, i - 1);
      UpIsClosed(nodes, i - 1);
      UnionClosed(nodes, Wanted(nodes, selected, i - 1), Up(nodes, i - 1));
    }
  }

  lemma NoneClosed(nodes: seq<Node>)
    requires ParentsFirst(nodes)
    ensures UpClosed(nodes, {})
  {}

  lemma UnionClosed(nodes: seq<Node>, x: set<nat>, z: set<nat>)
    requires ParentsFirst(nodes) && UpClosed(nodes, x) && UpClosed(nodes, z)
    ensures UpClosed(nodes, x + z) && UpClosed(nodes, x + {})
  {
    hide ParentAt, ParentsFirst;
    assert x + {} == x;
  }

  lemma {:induction false} RowsAreWanted(nodes: seq<Node>, selected: set<nat>, i: nat, rows: seq<Node>)
    requires ParentsFirst(nodes) && Distinct(nodes) && i <= |nodes|
    requires RowsAre(nodes, rows, Wanted(nodes, selected, i))
    ensures RowsAre(nodes, RowsFrom(nodes, selected, i, rows), Wanted(nodes, selected, |nodes|))
    decreases |nodes| - i
  {
    hide RowsAre, ParentsFirst, Distinct, ViewAdd, Up, Above;
    if i < |nodes| {
      WantedClosed(nodes, selected, i);
      if nodes[i].id in selected {
        ViewAddRows(nodes, i, rows, Wanted(nodes, selected, i));
        RowsAreWanted(nodes, selected, i + 1, ViewAdd(nodes, i, rows));
      } else {
        assert Wanted(nodes, selected, i + 1) == Wanted(nodes, selected, i);
        RowsAreWanted(nodes, selected, i + 1, rows);
      }
    }
  }

  /** The node at `k` is a selected asset or an ancestor of one. */
  ghost predicate Shown(nodes: seq<Node>, selected: set<nat>, k: nat)
    requires ParentsFirst(nodes)
  {
    exists i: nat :: i < |nodes| && nodes[i].id in selected && Above(nodes, k, i)
  }

  lemma {:induction false} WantedIsShown(nodes: seq<Node>, selected: set<nat>, n: nat, k: nat)
    requires ParentsFirst(nodes) && n <= |nodes|
    ensures k in Wanted(nodes, selected, n) <==> exists i: nat :: i < n && nodes[i].id in selected && Above(nodes, k, i)
    decreases n
  {
    hide ParentsFirst, Above, Up, ParentAt;
    if n > 0 {
      WantedIsShown(nodes, selected, n - 1, k);
      UpIsAbove(nodes, n - 1, k);
    }
  }

  /** The rows of a report hold a node exactly if it is a selected asset or an ancestor
      of one; each is there once, after its parent. */
  lemma ReportRows(nodes: seq<Node>, selected: set<nat>)
    requires ParentsFirst(nodes) && Distinct(nodes)
    ensures var rows := RowsFrom(nodes, selected, 0, []);
      && Distinct(rows) && ParentsFirst(rows)
      && (forall k: nat :: k < |nodes| ==> (nodes[k] in rows <==> Shown(nodes, selected, k)))
  {
    hide RowsFrom, ParentsFirst, Wanted;
    var rows, wanted := RowsFrom(nodes, selected, 0, []), Wanted(nodes, selected, |nodes|);
    EmptyRows(nodes, selected);
    RowsAreWanted(nodes, selected, 0, []);
    forall k: nat | k < |nodes|
      ensures nodes[k] in rows <==> Shown(nodes, selected, k)
    {
      InRows(nodes, rows, wanted, k);
      WantedIsShown(nodes, selected, |nodes|, k);
    }
  }

  /* ---- formulas ---- */

  predicate ChildRow(rows: seq<Node>, i: nat, j: nat)
    requires i < |rows| && j < |rows|
  {
    rows[j].parent == Some(rows[i].id)
  }

  /** The rows after row `i` whose parent it is: the cells a view's formula adds. */
  function ChildPositions(rows: seq<Node>, i: nat, j: nat): seq<nat>
    requires i < j <= |rows|
    decreases |rows| - j
  {
    if j == |rows| then [] else (if ChildRow(rows, i, j) then [j] else []) + ChildPositions(rows, i, j + 1)
  }

  method FindChildren(rows: seq<Node>, i: nat) returns (positions: seq<nat>)
    requires i < |rows|
    ensures positions == ChildPositions(rows, i, i + 1)
  {
    positions := [];
    var j := i + 1;
    while j < |rows|
      invariant i < j <= |rows|
      invariant ChildPositions(rows, i, i + 1) == positions + ChildPositions(rows, i, j)
    {
      if rows[j].parent == Some(rows[i].id) {
        positions := positions + [j];
      }
      j := j + 1;
    }
  }

  /** What cell `i` evaluates to: a view adds its child cells, any other row holds
      its own value. */
  function Evaluate(rows: seq<Node>, value: map<nat, int>, i: nat): int
    requires i < |rows|
    decreases |rows| - i, 0
  {
    if rows[i].view then EvaluateChildren(rows, value, i, i + 1) else ValueOf(value, rows[i].id)
  }

  function ValueOf(value: map<nat, int>, id: nat): int {
    if id in value then value[id] else 0
  }

  function EvaluateChildren(rows: seq<Node>, value: map<nat, int>, i: nat, j: nat): int
    requires i < j <= |rows|
    decreases |rows| - i - 1, |rows| - j + 1
  {
    if j == |rows| then 0
    else (if ChildRow(rows, i, j) then Evaluate(rows, value, j) else 0) + EvaluateChildren(rows, value, i, j + 1)
  }

  predicate Below(rows: seq<Node>, i: nat, positions: seq<nat>) {
    forall k :: 0 <= k < |positions| ==> i < positions[k] < |rows|
  }

  /** The sum of the cells at the positions. */
  function SumCells(rows: seq<Node>, value: map<nat, int>, i: nat, positions: seq<nat>): int
    requires Below(rows, i, positions)
  {
    if positions == [] then 0 else Evaluate(rows, value, positions[0]) + SumCells(rows, value, i, positions[1..])
  }

  lemma {:induction false} ChildrenBelow(rows: seq<Node>, i: nat, j: nat)
    requires i < j <= |rows|
    ensures Below(rows, i, ChildPositions(rows, i, j))
    decreases |rows| - j
  {
    if j < |rows| {
      ChildrenBelow(rows, i, j + 1);
    }
  }

  lemma SumCellsCons(rows: seq<Node>, value: map<nat, int>, i: nat, j: nat, rest: seq<nat>)
    requires i < j < |rows| && Below(rows, i, rest)
    ensures Below(rows, i, [j] + rest)
    ensures SumCells(rows, value, i, [j] + rest) == Evaluate(rows, value, j) + SumCells(rows, value, i, rest)
  {
    hide Evaluate;
    assert ([j] + rest)[1..] == rest;
  }

  /** A view's formula, over the positions found, adds exactly its child cells. */
  lemma {:induction false} FormulaAddsChildren(rows: seq<Node>, value: map<nat, int>, i: nat, j: nat)
    requires i < j <= |rows|
    ensures Below(rows, i, ChildPositions(rows, i, j))
    ensures EvaluateChildren(rows, value, i, j) == SumCells(rows, value, i, ChildPositions(rows, i, j))
    decreases |rows| - j
  {
    hide Evaluate, Below;
    ChildrenBelow(rows, i, j);
    if j < |rows| {
      FormulaAddsChildren(rows, value, i, j + 1);
      var rest := ChildPositions(rows, i, j + 1);
      if ChildRow(rows, i, j) {
        SumCellsCons(rows, value, i, j, rest);
      } else {
        assert ChildPositions(rows, i, j) == rest;
      }
    }
  }

  /** The plain sum of the rows from `k` on that are not views. */
  function SumPlain(rows: seq<Node>, value: map<nat, int>, k: nat): int
    requires k <= |rows|
    decreases |rows| - k
  {
    if k == |rows| then 0 else (if rows[k].view then 0 else ValueOf(value, rows[k].id)) + SumPlain(rows, value, k + 1)
  }

  /** Row `m`'s parent is among the first `k` rows. */
  predicate Crosses(rows: seq<Node>, k: nat, m: nat)
    requires k <= |rows| && m < |rows|
  {
    rows[m].parent.Some? && HasId(rows[..k], rows[m].parent.value)
  }

  /** The value of the rows from `m` on that hang below the first `k` rows. */
  function SumCrossing(rows: seq<Node>, value: map<nat, int>, k: nat, m: nat): int
    requires k <= |rows| && m <= |rows|
    decreases |rows| - m
  {
    if m == |rows| then 0
    else (if Crosses(rows, k, m) then Evaluate(rows, value, m) else 0) + SumCrossing(rows, value, k, m + 1)
  }

  /** Moving one more row to the upper part moves exactly its children below it. */
  lemma {:induction false} CrossingStep(rows: seq<Node>, value: map<nat, int>, k: nat, m: nat)
    requires Distinct(rows) && k < m <= |rows|
    ensures SumCrossing(rows, value, k + 1, m) == SumCrossing(rows, value, k, m) + EvaluateChildren(rows, value, k, m)
    decreases |rows| - m
  {
    if m < |rows| {
      CrossingStep(rows, value, k, m + 1);
      CrossesNext(rows, k, m);
    }
  }

  lemma CrossesNext(rows: seq<Node>, k: nat, m: nat)
    requires Distinct(rows) && k < m < |rows|
    ensures Crosses(rows, k + 1, m) <==> Crosses(rows, k, m) || ChildRow(rows, k, m)
    ensures !(Crosses(rows, k, m) && ChildRow(rows, k, m))
  {
    assert rows[..k + 1] == rows[..k] + [rows[k]];
    if Crosses(rows, k, m) {
      var j :| 0 <= j < |rows[..k]| && rows[..k][j].id == rows[m].parent.value;
      assert rows[..k + 1][j].id == rows[m].parent.value && rows[j].id != rows[k].id;
    }
    if ChildRow(rows, k, m) {
      assert rows[..k + 1][k].id == rows[m].parent.value;
    }
    if Crosses(rows, k + 1, m) {
      var j :| 0 <= j < |rows[..k + 1]| && rows[..k + 1][j].id == rows[m].parent.value;
      if j < k { assert rows[..k][j].id == rows[m].parent.value; }
    }
  }

  /** Only views have child rows. */
  ghost predicate ViewsAbove(rows: seq<Node>) {
    forall i, j :: 0 <= i < |rows| && 0 <= j < |rows| && ChildRow(rows, i, j) ==> rows[i].view
  }

  lemma {:induction false} NoChildren(rows: seq<Node>, value: map<nat, int>, i: nat, j: nat)
    requires i < j <= |rows| && ViewsAbove(rows) && !rows[i].view
    ensures EvaluateChildren(rows, value, i, j) == 0
    decreases |rows| - j
  {
    if j < |rows| {
      NoChildren(rows, value, i, j + 1);
    }
  }

  /** Cut the rows anywhere: what hangs below the cut is worth the plain rows below
      it. */
  lemma {:induction false} CutSum(rows: seq<Node>, value: map<nat, int>, k: nat)
    requires Distinct(rows) && ParentsFirst(rows) && ViewsAbove(rows) && 1 <= k <= |rows|
    ensures SumCrossing(rows, value, k, k) == SumPlain(rows, value, k)
    decreases |rows| - k
  {
    if k < |rows| {
      CutSum(rows, value, k + 1);
      CrossingStep(rows, value, k, k + 1);
      if !rows[k].view {
        NoChildren(rows, value, k, k + 1);
      }
    }
  }

  /** The total cell, which repeats the first row's cell, is the plain sum of the
      rows that are not views. */
  lemma TotalIsPlainSum(rows: seq<Node>, value: map<nat, int>)
    requires rows != [] && rows[0].view && Distinct(rows) && ParentsFirst(rows) && ViewsAbove(rows)
    ensures Evaluate(rows, value, 0) == SumPlain(rows, value, 0)
  {
    CutSum(rows, value, 1);
    NothingCrosses(rows, value, 1);
    CrossingStep(rows, value, 0, 1);
  }

  lemma {:induction false} NothingCrosses(rows: seq<Node>, value: map<nat, int>, m: nat)
    requires m <= |rows|
    ensures SumCrossing(rows, value, 0, m) == 0
    decreases |rows| - m
  {
    if m < |rows| {
      NothingCrosses(rows, value, m + 1);
    }
  }

  /* ---- the selection ---- */

  /** The plain sum over the selected assets of the list. */
  function SumSelected(nodes: seq<Node>, selected: set<nat>, value: map<nat, int>, i: nat): int
    requires i <= |nodes|
    decreases |nodes| - i
  {
    if i == |nodes| then 0
    else
      (if nodes[i].id in selected then ValueOf(value, nodes[i].id) else 0)
      + SumSelected(nodes, selected, value, i + 1)
  }

  /** Selected assets are not views, and only views have children. */
  ghost predicate ProperSelection(nodes: seq<Node>, selected: set<nat>) {
    && (forall k :: 0 <= k < |nodes| && nodes[k].id in selected ==> !nodes[k].view)
    && ViewsAbove(nodes)
  }

  lemma {:induction false} SumPlainConcat(x: seq<Node>, z: seq<Node>, value: map<nat, int>, k: nat)
    requires k <= |x|
    ensures SumPlain(x + z, value, k) == SumPlain(x, value, k) + SumPlain(z, value, 0)
    decreases |x| - k
  {
    if k < |x| {
      SumPlainConcat(x, z, value, k + 1);
    } else {
      SumPlainTail(x, z, value, 0);
    }
  }

  lemma {:induction false} SumPlainTail(x: seq<Node>, z: seq<Node>, value: map<nat, int>, k: nat)
    requires k <= |z|
    ensures SumPlain(x + z, value, |x| + k) == SumPlain(z, value, k)
    decreases |z| - k
  {
    if k < |z| {
      SumPlainTail(x, z, value, k + 1);
    }
  }

  /** Adding a node adds its own value; its ancestors are views and add nothing. */
  lemma {:induction false} ViewAddSum(nodes: seq<Node>, i: nat, rows: seq<Node>, value: map<nat, int>)
    requires ParentsFirst(nodes) && ViewsAbove(nodes) && i < |nodes|
    ensures SumPlain(ViewAdd(nodes, i, rows), value, 0)
            == SumPlain(rows, value, 0) + if nodes[i].view then 0 else ValueOf(value, nodes[i].id)
    decreases i
  {
    var k := ParentAt(nodes, i);
    var before := if i > 0 && nodes[k] !in rows then ViewAdd(nodes, k, rows) else rows;
    if before != rows {
      assert ChildRow(nodes, k, i);
      ViewAddSum(nodes, k, rows, value);
    }
    SumPlainConcat(before, [nodes[i]], value, 0);
    assert SumPlain([nodes[i]], value, 1) == 0;
  }

  lemma {:induction false} RowsSum(nodes: seq<Node>, selected: set<nat>, value: map<nat, int>, i: nat, rows: seq<Node>)
    requires ParentsFirst(nodes) && ProperSelection(nodes, selected) && i <= |nodes|
    ensures SumPlain(RowsFrom(nodes, selected, i, rows), value, 0)
            == SumPlain(rows, value, 0) + SumSelected(nodes, selected, value, i)
    decreases |nodes| - i
  {
    if i < |nodes| {
      if nodes[i].id in selected {
        ViewAddSum(nodes, i, rows, value);
        RowsSum(nodes, selected, value, i + 1, ViewAdd(nodes, i, rows));
      } else {
        RowsSum(nodes, selected, value, i + 1, rows);
      }
    }
  }

  lemma RowsViewsAbove(nodes: seq<Node>, rows: seq<Node>, wanted: set<nat>)
    requires ViewsAbove(nodes) && Holds(nodes, rows, wanted)
    ensures ViewsAbove(rows)
  {
    forall i, j | 0 <= i < |rows| && 0 <= j < |rows| && ChildRow(rows, i, j)
      ensures rows[i].view
    {
      assert Among(nodes, wanted, rows[i]) && Among(nodes, wanted, rows[j]);
      var p: nat :| p < |nodes| && p in wanted && nodes[p] == rows[i];
      var q: nat :| q < |nodes| && q in wanted && nodes[q] == rows[j];
      assert ChildRow(nodes, p, q);
    }
  }

  /** The report's total is the plain sum over the selected assets: for every
      hierarchy with distinct ids in which only views have children, and every
      non-empty selection of assets in it. */
  lemma ReportTotal(root: AssetTree, selected: set<nat>, value: map<nat, int>)
    requires var nodes := Flatten(root); Distinct(nodes) && ProperSelection(nodes, selected)
    requires exists k :: 0 <= k < |Flatten(root)| && Flatten(root)[k].id in selected
    ensures ParentsFirst(Flatten(root))
    ensures var nodes := Flatten(root); var rows := RowsFrom(nodes, selected, 0, []);
      && rows != []
      && Evaluate(rows, value, 0) == SumSelected(nodes, selected, value, 0)
  {
    hide RowsFrom, Flatten, Evaluate, ViewsAbove, Holds;
    var nodes := Flatten(root);
    FlattenParents(root);
    var rows := RowsFrom(nodes, selected, 0, []);
    EmptyRows(nodes, selected);
    RowsAreWanted(nodes, selected, 0, []);
    var k :| 0 <= k < |nodes| && nodes[k].id in selected;
    WantedHas(nodes, selected, |nodes|, k);
    SomeRow(nodes, rows, Wanted(nodes, selected, |nodes|), k);
    RowsViewsAbove(nodes, rows, Wanted(nodes, selected, |nodes|));
    RowsSum(nodes, selected, value, 0, []);
    TotalIsPlainSum(rows, value);
  }

  lemma EmptyRows(nodes: seq<Node>, selected: set<nat>)
    requires ParentsFirst(nodes)
    ensures RowsAre(nodes, [], Wanted(nodes, selected, 0))
  {}

  lemma SomeRow(nodes: seq<Node>, rows: seq<Node>, wanted: set<nat>, k: nat)
    requires Holds(nodes, rows, wanted) && k < |nodes| && k in wanted
    ensures rows != []
  {
    assert nodes[k] in rows;
  }

  lemma {:induction false} WantedHas(nodes: seq<Node>, selected: set<nat>, i: nat, k: nat)
    requires ParentsFirst(nodes) && k < i <= |nodes| && nodes[k].id in selected
    ensures k in Wanted(nodes, selected, i)
    decreases i
  {
    if k < i - 1 {
      WantedHas(nodes, selected, i - 1, k);
    }
  }
}
