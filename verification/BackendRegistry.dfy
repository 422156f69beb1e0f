/** The registry of connector classes of a backend: which class answers a request,
    when classes can replace one another and backends have parents. */
module BackendRegistry {
  import opened Outcome

  /** An entry: a class and the module that defines it. */
  datatype Unit = Unit(cls: nat, openerpModule: nat)

  /** A request: the modules installed in the session, and the classes that extend
      the class asked for and match its model. */
  datatype Query = Query(installed: set<nat>, suitable: set<nat>) {
    predicate Matches(u: Unit) {
      u.openerpModule in installed && u.cls in suitable
    }
  }

  /** The entries ever created, in order; for each the entries that replace it; and
      the entries that are registered. */
  datatype Graph = Graph(units: seq<Unit>, replacedBy: seq<seq<nat>>, entries: seq<nat>) {
    /** Only younger entries replace an entry, so replacement has no cycles. */
    ghost predicate Valid() {
      && |replacedBy| == |units|
      && (forall i :: 0 <= i < |entries| ==> entries[i] < |units|)
      && forall i, j :: 0 <= i < |units| && 0 <= j < |replacedBy[i]| ==> i < replacedBy[i][j] < |units|
    }
  }

  ghost predicate Nodes(g: Graph, nodes: seq<nat>, above: int) {
    forall k :: 0 <= k < |nodes| ==> above < nodes[k] < |g.units|
  }

  /* ---- the recursive lookup ---- */

  /** The classes that stand for one entry: those of the entries replacing it, or
      its own when none of those match. */
  function FollowOne(g: Graph, q: Query, i: nat): set<nat>
    requires g.Valid() && i < |g.units|
    decreases |g.units| - i, 0
  {
    var replacings := Follow(g, q, g.replacedBy[i], i);
    if replacings != {} then replacings
    else if q.Matches(g.units[i]) then {g.units[i].cls}
    else {}
  }

  function Follow(g: Graph, q: Query, nodes: seq<nat>, above: int): set<nat>
    requires g.Valid() && -1 <= above < |g.units| && Nodes(g, nodes, above)
    decreases |g.units| - above - 1, |nodes| + 1
  {
    if nodes == [] then {} else FollowOne(g, q, nodes[0]) + Follow(g, q, nodes[1..], above)
  }

  /* ---- what it means ---- */

  /** `j` replaces `i`, directly or through other replacements. */
  ghost predicate Reaches(g: Graph, i: nat, j: nat)
    requires g.Valid() && i < |g.units|
    decreases |g.units| - i
  {
    exists k :: 0 <= k < |g.replacedBy[i]| && (g.replacedBy[i][k] == j || Reaches(g, g.replacedBy[i][k], j))
  }

  /** A matching entry with no matching replacement. */
  ghost predicate Top(g: Graph, q: Query, j: nat)
    requires g.Valid()
  {
    && j < |g.units| && q.Matches(g.units[j])
    && forall k :: 0 <= k < |g.units| && Reaches(g, j, k) ==> !q.Matches(g.units[k])
  }

  /** `j` is the entry `i` or replaces it. */
  ghost predicate AtOrBelow(g: Graph, i: nat, j: nat)
    requires g.Valid() && i < |g.units|
  {
    i == j || Reaches(g, i, j)
  }

  /** The entries that answer for entry `i`. */
  ghost predicate Answers(g: Graph, q: Query, i: nat, j: nat)
    requires g.Valid() && i < |g.units|
  {
    AtOrBelow(g, i, j) && Top(g, q, j)
  }

  lemma {:induction false} ReachesYounger(g: Graph, i: nat, j: nat)
    requires g.Valid() && i < |g.units| && Reaches(g, i, j)
    ensures i < j < |g.units|
    decreases |g.units| - i
  {
    var k :| 0 <= k < |g.replacedBy[i]| && (g.replacedBy[i][k] == j || Reaches(g, g.replacedBy[i][k], j));
    if g.replacedBy[i][k] != j {
      ReachesYounger(g, g.replacedBy[i][k], j);
    }
  }

  lemma {:induction false} ReachesTransitive(g: Graph, i: nat, j: nat, k: nat)
    requires g.Valid() && i < |g.units| && j < |g.units| && Reaches(g, i, j) && Reaches(g, j, k)
    ensures Reaches(g, i, k)
    decreases |g.units| - i
  {
    var m :| 0 <= m < |g.replacedBy[i]| && (g.replacedBy[i][m] == j || Reaches(g, g.replacedBy[i][m], j));
    if g.replacedBy[i][m] != j {
      ReachesTransitive(g, g.replacedBy[i][m], j, k);
    }
  }

  /** A matching entry at or below `i` means some entry answers for `i`. */
  lemma {:induction false} SomeoneAnswers(g: Graph, q: Query, i: nat, j: nat) returns (top: nat)
    requires g.Valid() && i < |g.units| && j < |g.units| && AtOrBelow(g, i, j) && q.Matches(g.units[j])
    ensures Answers(g, q, i, top)
    decreases |g.units| - j
  {
    if Top(g, q, j) {
      top := j;
    } else {
      var k :| 0 <= k < |g.units| && Reaches(g, j, k) && q.Matches(g.units[k]);
      ReachesYounger(g, j, k);
      if i != j {
        ReachesTransitive(g, i, j, k);
      }
      top := SomeoneAnswers(g, q, i, k);
    }
  }

  /** Some entry of class `c` answers for `i`. */
  ghost predicate Answered(g: Graph, q: Query, i: nat, c: nat)
    requires g.Valid() && i < |g.units|
  {
    exists j :: 0 <= j < |g.units| && Answers(g, q, i, j) && g.units[j].cls == c
  }

  lemma {:induction false} FollowIn(g: Graph, q: Query, nodes: seq<nat>, above: int, c: nat)
    requires g.Valid() && -1 <= above < |g.units| && Nodes(g, nodes, above)
    ensures c in Follow(g, q, nodes, above) <==> exists k :: 0 <= k < |nodes| && c in FollowOne(g, q, nodes[k])
    decreases |nodes|
  {
    if nodes != [] {
      FollowIn(g, q, nodes[1..], above, c);
      if k :| 0 <= k < |nodes[1..]| && c in FollowOne(g, q, nodes[1..][k]) {
        assert c in FollowOne(g, q, nodes[k + 1]);
      }
    }
  }

  /** Replacements of a replacement are replacements. */
  lemma BelowReplacement(g: Graph, i: nat, j: nat)
    requires g.Valid() && i < |g.units|
    ensures Reaches(g, i, j) <==> exists k :: 0 <= k < |g.replacedBy[i]| && AtOrBelow(g, g.replacedBy[i][k], j)
  {
    if k :| 0 <= k < |g.replacedBy[i]| && AtOrBelow(g, g.replacedBy[i][k], j) {
      assert g.replacedBy[i][k] == j || Reaches(g, g.replacedBy[i][k], j);
    }
    if Reaches(g, i, j) {
      var k :| 0 <= k < |g.replacedBy[i]| && (g.replacedBy[i][k] == j || Reaches(g, g.replacedBy[i][k], j));
      assert AtOrBelow(g, g.replacedBy[i][k], j);
    }
  }

  /** Meaning of the lookup for one entry: exactly the classes of the entries at or
      below it that match and have no matching replacement of their own. */
  lemma {:induction false} FollowOneMeans(g: Graph, q: Query, i: nat, c: nat)
    requires g.Valid() && i < |g.units|
    ensures c in FollowOne(g, q, i) <==> Answered(g, q, i, c)
    decreases |g.units| - i
  {
    var nodes := g.replacedBy[i];
    forall x, k | 0 <= k < |nodes|
      ensures x in FollowOne(g, q, nodes[k]) <==> Answered(g, q, nodes[k], x)
    {
      FollowOneMeans(g, q, nodes[k], x);
    }
    forall x
      ensures x in Follow(g, q, nodes, i) <==> exists k :: 0 <= k < |nodes| && Answered(g, q, nodes[k], x)
    {
      FollowIn(g, q, nodes, i, x);
    }
    if Follow(g, q, nodes, i) != {} {
      var x :| x in Follow(g, q, nodes, i);
      ReplacedAnswer(g, q, i, c);
    } else {
      forall k, x | 0 <= k < |nodes|
        ensures !Answered(g, q, nodes[k], x)
      {
        assert x !in Follow(g, q, nodes, i);
      }
      OwnAnswer(g, q, i, c);
    }
  }

  /** When a replacement answers, the entry's answers are its replacements'. */
  lemma ReplacedAnswer(g: Graph, q: Query, i: nat, c: nat)
    requires g.Valid() && i < |g.units|
    requires exists k, x :: 0 <= k < |g.replacedBy[i]| && Answered(g, q, g.replacedBy[i][k], x)
    ensures Answered(g, q, i, c) <==> exists k :: 0 <= k < |g.replacedBy[i]| && Answered(g, q, g.replacedBy[i][k], c)
  {
    var nodes := g.replacedBy[i];
    var k0, x0 :| 0 <= k0 < |nodes| && Answered(g, q, nodes[k0], x0);
    var j0 :| 0 <= j0 < |g.units| && Answers(g, q, nodes[k0], j0) && g.units[j0].cls == x0;
    BelowReplacement(g, i, j0);
    assert !Top(g, q, i);
    if Answered(g, q, i, c) {
      var j :| 0 <= j < |g.units| && Answers(g, q, i, j) && g.units[j].cls == c;
      BelowReplacement(g, i, j);
      var k :| 0 <= k < |nodes| && AtOrBelow(g, nodes[k], j);
      assert Answers(g, q, nodes[k], j);
      assert Answered(g, q, nodes[k], c);
    }
    if k :| 0 <= k < |nodes| && Answered(g, q, nodes[k], c) {
      var j :| 0 <= j < |g.units| && Answers(g, q, nodes[k], j) && g.units[j].cls == c;
      BelowReplacement(g, i, j);
      assert Answers(g, q, i, j);
    }
  }

  /** When no replacement answers, the entry answers itself if it matches. */
  lemma OwnAnswer(g: Graph, q: Query, i: nat, c: nat)
    requires g.Valid() && i < |g.units|
    requires forall k, x :: 0 <= k < |g.replacedBy[i]| ==> !Answered(g, q, g.replacedBy[i][k], x)
    ensures Answered(g, q, i, c) <==> q.Matches(g.units[i]) && g.units[i].cls == c
  {
    var nodes := g.replacedBy[i];
    forall j | 0 <= j < |g.units| && Reaches(g, i, j)
      ensures !q.Matches(g.units[j])
    {
      BelowReplacement(g, i, j);
      var k :| 0 <= k < |nodes| && AtOrBelow(g, nodes[k], j);
      if q.Matches(g.units[j]) {
        var top := SomeoneAnswers(g, q, nodes[k], j);
        assert Answered(g, q, nodes[k], g.units[top].cls);
      }
    }
    if q.Matches(g.units[i]) {
      assert Answers(g, q, i, i);
    }
  }

  /* ---- the whole backend ---- */

  /** Every registered entry is followed. */
  function Lookup(g: Graph, q: Query): set<nat>
    requires g.Valid()
  {
    Follow(g, q, g.entries, -1)
  }

  /** `j` is registered or replaces, at some remove, a registered entry. */
  ghost predicate Visible(g: Graph, j: nat)
    requires g.Valid()
  {
    exists k :: 0 <= k < |g.entries| && AtOrBelow(g, g.entries[k], j)
  }

  ghost predicate InAnswer(g: Graph, q: Query, j: nat)
    requires g.Valid()
  {
    Visible(g, j) && Top(g, q, j)
  }

  /** Meaning of the lookup: the classes of the visible entries that match and have
      no matching replacement, direct or indirect. */
  lemma LookupMeans(g: Graph, q: Query, c: nat)
    requires g.Valid()
    ensures c in Lookup(g, q) <==> exists j :: 0 <= j < |g.units| && InAnswer(g, q, j) && g.units[j].cls == c
  {
    forall k | 0 <= k < |g.entries|
      ensures c in FollowOne(g, q, g.entries[k]) <==> Answered(g, q, g.entries[k], c)
    {
      FollowOneMeans(g, q, g.entries[k], c);
    }
    FollowIn(g, q, g.entries, -1, c);
    if k :| 0 <= k < |g.entries| && Answered(g, q, g.entries[k], c) {
      var j :| 0 <= j < |g.units| && Answers(g, q, g.entries[k], j) && g.units[j].cls == c;
      assert InAnswer(g, q, j);
    }
    if j :| 0 <= j < |g.units| && InAnswer(g, q, j) && g.units[j].cls == c {
      var k :| 0 <= k < |g.entries| && AtOrBelow(g, g.entries[k], j);
      assert Answers(g, q, g.entries[k], j);
      assert Answered(g, q, g.entries[k], c);
    }
  }

  /** Its module is installed and its class is suitable. */
  ghost predicate Usable(u: Unit, q: Query) {
    u.openerpModule in q.installed && u.cls in q.suitable
  }

  /** A visible usable entry without a direct or indirect usable replacement. */
  ghost predicate Chosen(g: Graph, q: Query, j: nat)
    requires g.Valid()
  {
    && j < |g.units| && Visible(g, j) && Usable(g.units[j], q)
    && forall k :: 0 <= k < |g.units| && Reaches(g, j, k) ==> !Usable(g.units[k], q)
  }

  /** The same, said of the modules and the classes. */
  lemma LookupIsInstalled(g: Graph, q: Query, c: nat)
    requires g.Valid()
    ensures c in Lookup(g, q) <==> exists j :: 0 <= j < |g.units| && Chosen(g, q, j) && g.units[j].cls == c
  {
    LookupMeans(g, q, c);
    hide Visible, Reaches, Lookup, Graph.Valid;
    forall j | 0 <= j < |g.units|
      ensures InAnswer(g, q, j) <==> Chosen(g, q, j)
    {}
  }

  /* ---- registering a class ---- */

  datatype Replacing = Nothing | One(cls: nat) | Several(classes: seq<nat>)

  /** The first registered entry of a class. */
  function EntryOf(g: Graph, entries: seq<nat>, cls: nat): (r: Option<nat>)
    requires forall k :: 0 <= k < |entries| ==> entries[k] < |g.units|
    ensures r.Some? ==> r.value in entries && g.units[r.value].cls == cls
    ensures r.None? ==> forall k :: 0 <= k < |entries| ==> g.units[entries[k]].cls != cls
  {
    if entries == [] then None
    else if g.units[entries[0]].cls == cls then Some(entries[0])
    else EntryOf(g, entries[1..], cls)
  }

  /** A graph whose youngest entry `n` is new: nothing replaces it, and all that may
      differ from `g` is that it replaces some registered entries. */
  ghost predicate Extends(g: Graph, h: Graph) {
    var n := |g.units|;
    && g.Valid() && h.Valid()
    && |h.units| == n + 1 && h.units[..n] == g.units
    && h.replacedBy[n] == []
    && forall i :: 0 <= i < n ==> Grown(g.replacedBy[i], h.replacedBy[i], n)
  }

  /** The old replacements, then any number of times the new entry. */
  ghost predicate Grown(before: seq<nat>, after: seq<nat>, n: nat) {
    before <= after && forall k :: |before| <= k < |after| ==> after[k] == n
  }

  /** Makes the new entry replace the classes one after the other; stops at the
      first that is not registered, keeping what was attached before. */
  function Attach(g: Graph, classes: seq<nat>): (r: (Graph, bool))
    requires g.Valid() && |g.units| > 0
    requires forall k :: 0 <= k < |g.entries| ==> g.entries[k] < |g.units| - 1
    ensures r.0.Valid() && r.0.units == g.units && r.0.entries == g.entries
    ensures forall i :: 0 <= i < |g.units| ==> Grown(g.replacedBy[i], r.0.replacedBy[i], |g.units| - 1)
    ensures r.0.replacedBy[|g.units| - 1] == g.replacedBy[|g.units| - 1]
    decreases |classes|
  {
    if classes == [] then (g, true)
    else
      var target := EntryOf(g, g.entries, classes[0]);
      if target.None? then (g, false)
      else
        Attach(AttachTo(g, target.value), classes[1..])
  }

  /** The youngest entry replaces entry `i`. */
  function AttachTo(g: Graph, i: nat): (h: Graph)
    requires g.Valid() && i < |g.units| - 1
    ensures h.Valid() && h.units == g.units && h.entries == g.entries
    ensures |h.replacedBy| == |g.replacedBy|
    ensures forall k :: 0 <= k < |g.units| ==>
      h.replacedBy[k] == g.replacedBy[k] + if k == i then [|g.units| - 1] else []
  {
    g.(replacedBy := g.replacedBy[i := g.replacedBy[i] + [|g.units| - 1]])
  }

  function Added(g: Graph, u: Unit): Graph {
    g.(units := g.units + [u], replacedBy := g.replacedBy + [[]])
  }

  function ClassesOf(replacing: Replacing): seq<nat> {
    match replacing
    case Nothing => []
    case One(c) => [c]
    case Several(cs) => cs
  }

  /** The registered entries of the classes, before the first class that has none. */
  function Targets(g: Graph, classes: seq<nat>): seq<nat>
    requires g.Valid()
  {
    if classes == [] then []
    else
      var target := EntryOf(g, g.entries, classes[0]);
      if target.None? then [] else [target.value] + Targets(g, classes[1..])
  }

  /** The entry is one of those, or is replaced, at some remove, by one of them. */
  ghost predicate Superseded(g: Graph, classes: seq<nat>, j: nat)
    requires g.Valid()
  {
    j < |g.units| && exists t :: t in Targets(g, classes) && AtOrBelow(g, j, t)
  }

  /** The first of the classes is registered. */
  predicate FirstKnown(g: Graph, classes: seq<nat>)
    requires g.Valid()
  {
    classes != [] && EntryOf(g, g.entries, classes[0]).Some?
  }

  /** Registers a class.  An entry that fails half-way stays attached to what it was
      to replace, but is not registered itself. */
  function Register(g: Graph, u: Unit, replacing: Replacing): (r: (Graph, Result<()>))
    requires g.Valid()
    ensures r.0.Valid()
  {
    if replacing == One(u.cls) then (g, Err(ReplacesItself))
    else
      var (h, ok) := Attach(Added(g, u), ClassesOf(replacing));
      if ok then (h.(entries := h.entries + [|g.units|]), Ok(())) else (h, Err(UnregisteredClass))
  }

  lemma RegisterExtends(g: Graph, u: Unit, replacing: Replacing)
    requires g.Valid() && replacing != One(u.cls)
    ensures var (h, r) := Register(g, u, replacing);
      && Extends(g, h) && h.units[|g.units|] == u
      && h.entries == if r.Ok? then g.entries + [|g.units|] else g.entries
  {}

  /** Old entries reach old entries as before; nothing replaces the new one. */
  lemma {:induction false} ReachesOld(g: Graph, h: Graph, i: nat, j: nat)
    requires Extends(g, h) && i < |g.units| && j < |g.units|
    ensures Reaches(h, i, j) <==> Reaches(g, i, j)
    decreases |g.units| - i
  {
    var n := |g.units|;
    var before, after := g.replacedBy[i], h.replacedBy[i];
    assert Grown(before, after, n);
    forall k | 0 <= k < |before|
      ensures after[k] == before[k]
      ensures Reaches(h, before[k], j) <==> Reaches(g, before[k], j)
    {
      ReachesOld(g, h, before[k], j);
    }
    NewReachesNothing(g, h, j);
    if k :| 0 <= k < |before| && (before[k] == j || Reaches(g, before[k], j)) {
      assert after[k] == j || Reaches(h, after[k], j);
    }
    if k :| 0 <= k < |after| && (after[k] == j || Reaches(h, after[k], j)) {
      assert k < |before| && (before[k] == j || Reaches(g, before[k], j));
    }
  }

  lemma NewReachesNothing(g: Graph, h: Graph, j: nat)
    requires Extends(g, h)
    ensures !Reaches(h, |g.units|, j)
  {}

  /* ---- what the new entry replaces ---- */

  lemma {:induction false} EntryAfter(g: Graph, h: Graph, entries: seq<nat>, cls: nat)
    requires forall k :: 0 <= k < |entries| ==> entries[k] < |g.units|
    requires |g.units| <= |h.units| && h.units[..|g.units|] == g.units
    ensures EntryOf(h, entries, cls) == EntryOf(g, entries, cls)
  {
    if entries != [] {
      assert h.units[entries[0]] == h.units[..|g.units|][entries[0]];
      EntryAfter(g, h, entries[1..], cls);
    }
  }

  lemma {:induction false} TargetsAfter(g: Graph, h: Graph, classes: seq<nat>)
    requires g.Valid() && h.Valid() && h.entries == g.entries
    requires |g.units| <= |h.units| && h.units[..|g.units|] == g.units
    ensures Targets(h, classes) == Targets(g, classes)
  {
    if classes != [] {
      EntryAfter(g, h, g.entries, classes[0]);
      TargetsAfter(g, h, classes[1..]);
    }
  }

  /** The new entry is attached exactly to the targets. */
  lemma {:induction false} AttachTargets(g: Graph, classes: seq<nat>, i: nat)
    requires g.Valid() && |g.units| > 0 && i < |g.units| - 1
    requires forall k :: 0 <= k < |g.entries| ==> g.entries[k] < |g.units| - 1
    ensures var n := |g.units| - 1;
      n in Attach(g, classes).0.replacedBy[i] <==> n in g.replacedBy[i] || i in Targets(g, classes)
    decreases |classes|
  {
    hide Grown, EntryOf;
    if FirstKnown(g, classes) {
      var target := EntryOf(g, g.entries, classes[0]).value;
      AttachFirst(g, classes);
      AttachToAdds(g, target, i);
      hide Attach, Targets, AttachTo;
      AttachTargets(AttachTo(g, target), classes[1..], i);
    }
  }

  lemma AttachFirst(g: Graph, classes: seq<nat>)
    requires g.Valid() && |g.units| > 0 && forall k :: 0 <= k < |g.entries| ==> g.entries[k] < |g.units| - 1
    requires FirstKnown(g, classes)
    ensures var target := EntryOf(g, g.entries, classes[0]).value; var next := AttachTo(g, target);
      && Attach(g, classes) == Attach(next, classes[1..])
      && Targets(g, classes) == [target] + Targets(next, classes[1..])
  {
    hide Grown;
    var next := AttachTo(g, EntryOf(g, g.entries, classes[0]).value);
    assert next.units[..|g.units|] == g.units;
    TargetsAfter(g, next, classes[1..]);
  }

  lemma AttachToAdds(g: Graph, target: nat, i: nat)
    requires g.Valid() && target < |g.units| - 1 && i < |g.units| - 1
    ensures var n := |g.units| - 1;
      n in AttachTo(g, target).replacedBy[i] <==> n in g.replacedBy[i] || i == target
  {}

  /** A new entry attached to the targets. */
  ghost predicate AttachedTo(g: Graph, h: Graph, targets: seq<nat>)
    requires Extends(g, h)
  {
    forall i :: 0 <= i < |g.units| ==> (|g.units| in h.replacedBy[i] <==> i in targets)
  }

  lemma RegisterIsAttach(g: Graph, u: Unit, replacing: Replacing)
    requires g.Valid() && replacing != One(u.cls)
    ensures var added := Added(g, u);
      && added.Valid() && added.entries == g.entries && added.units == g.units + [u]
        && added.replacedBy == g.replacedBy + [[]]
      && Register(g, u, replacing).0.replacedBy == Attach(added, ClassesOf(replacing)).0.replacedBy
  {
    hide Attach, Grown;
  }

  lemma RegisterAttaches(g: Graph, u: Unit, replacing: Replacing)
    requires g.Valid() && replacing != One(u.cls)
    ensures Extends(g, Register(g, u, replacing).0)
    ensures AttachedTo(g, Register(g, u, replacing).0, Targets(g, ClassesOf(replacing)))
  {
    hide Attach, Grown, Register, Added, EntryOf, Targets, ClassesOf, Extends;
    RegisterExtends(g, u, replacing);
    RegisterIsAttach(g, u, replacing);
    var added, classes := Added(g, u), ClassesOf(replacing);
    assert added.units[..|g.units|] == g.units;
    TargetsAfter(g, added, classes);
    forall i | 0 <= i < |g.units|
      ensures |g.units| in Register(g, u, replacing).0.replacedBy[i] <==> i in Targets(g, classes)
    {
      AttachTargets(added, classes, i);
      assert added.replacedBy[i] == g.replacedBy[i];
    }
  }

  /** An old entry is replaced by the new one, at some remove, exactly if it is a target or
      is replaced by one. */
  lemma {:induction false} ReachesNew(g: Graph, h: Graph, targets: seq<nat>, i: nat)
    requires Extends(g, h) && AttachedTo(g, h, targets) && i < |g.units|
    ensures Reaches(h, i, |g.units|) <==> exists t :: t in targets && AtOrBelow(g, i, t)
    decreases |g.units| - i
  {
    var n := |g.units|;
    var before, after := g.replacedBy[i], h.replacedBy[i];
    assert Grown(before, after, n);
    forall k | 0 <= k < |before|
      ensures after[k] == before[k]
      ensures Reaches(h, before[k], n) <==> exists t :: t in targets && AtOrBelow(g, before[k], t)
    {
      ReachesNew(g, h, targets, before[k]);
    }
    NewReachesNothing(g, h, n);
    if Reaches(h, i, n) {
      var k :| 0 <= k < |after| && (after[k] == n || Reaches(h, after[k], n));
      if k < |before| {
        var t :| t in targets && AtOrBelow(g, before[k], t);
        assert AtOrBelow(g, i, t);
      } else {
        assert n in after && AtOrBelow(g, i, i);
      }
    }
    if t :| t in targets && AtOrBelow(g, i, t) {
      if t == i {
        var k :| 0 <= k < |after| && after[k] == n;
      } else {
        var k :| 0 <= k < |before| && (before[k] == t || Reaches(g, before[k], t));
        assert AtOrBelow(g, before[k], t);
        assert Reaches(h, after[k], n);
      }
    }
  }

  lemma TopAfter(g: Graph, h: Graph, q: Query, j: nat)
    requires Extends(g, h) && j <= |g.units|
    ensures var n := |g.units|;
      Top(h, q, j)
      <==> if j == n then q.Matches(h.units[n]) else Top(g, q, j) && !(q.Matches(h.units[n]) && Reaches(h, j, n))
  {
    var n := |g.units|;
    assert forall k :: 0 <= k < n ==> h.units[k] == h.units[..n][k] == g.units[k];
    if j < n {
      forall k | 0 <= k < n
        ensures Reaches(h, j, k) <==> Reaches(g, j, k)
      {
        ReachesOld(g, h, j, k);
      }
    } else {
      forall k | 0 <= k < |h.units|
        ensures !Reaches(h, n, k)
      {
        NewReachesNothing(g, h, k);
      }
    }
  }

  /** Old entries stay visible; the new one is visible if it is registered or
      attached to a registered entry. */
  lemma VisibleAfter(g: Graph, h: Graph, j: nat)
    requires Extends(g, h) && j <= |g.units|
    requires h.entries == g.entries || h.entries == g.entries + [|g.units|]
    ensures j < |g.units| ==> (Visible(h, j) <==> Visible(g, j))
    ensures h.entries == g.entries + [|g.units|] ==> Visible(h, |g.units|)
  {
    var n := |g.units|;
    if j < n {
      forall k | 0 <= k < |g.entries|
        ensures h.entries[k] == g.entries[k]
        ensures AtOrBelow(h, h.entries[k], j) <==> AtOrBelow(g, g.entries[k], j)
      {
        ReachesOld(g, h, g.entries[k], j);
      }
      NewReachesNothing(g, h, j);
      if k :| 0 <= k < |g.entries| && AtOrBelow(g, g.entries[k], j) {
        assert AtOrBelow(h, h.entries[k], j);
      }
      if k :| 0 <= k < |h.entries| && AtOrBelow(h, h.entries[k], j) {
        assert k < |g.entries| && AtOrBelow(g, g.entries[k], j);
      }
    }
    if h.entries == g.entries + [n] {
      assert AtOrBelow(h, h.entries[|g.entries|], n);
    }
  }

  /** One step of the registry.  A class that does not match leaves every answer as
      it is.  One that matches becomes an answer itself and removes exactly the
      previous answers that it replaces, directly or indirectly. */
  lemma RegisterStep(g: Graph, u: Unit, replacing: Replacing, q: Query, j: nat)
    requires g.Valid() && Register(g, u, replacing).1.Ok?
    ensures InAnswer(Register(g, u, replacing).0, q, j)
      <==> if q.Matches(u) then j == |g.units| || (InAnswer(g, q, j) && !Superseded(g, ClassesOf(replacing), j))
           else InAnswer(g, q, j)
  {
    var h := Register(g, u, replacing).0;
    RegisterExtends(g, u, replacing);
    RegisterAttaches(g, u, replacing);
    hide Attach, Register, Top, Visible;
    if j <= |g.units| {
      TopAfter(g, h, q, j);
      VisibleAfter(g, h, j);
      if j < |g.units| {
        ReachesNew(g, h, Targets(g, ClassesOf(replacing)), j);
      }
    } else {
      OutOfGraph(g, q, j);
      OutOfGraph(h, q, j);
    }
  }

  lemma OutOfGraph(g: Graph, q: Query, j: nat)
    requires g.Valid() && j >= |g.units|
    ensures !InAnswer(g, q, j)
  {}

  /** In particular a class of a module that is not installed changes no lookup. */
  lemma NonMatchingChangesNothing(g: Graph, u: Unit, replacing: Replacing, q: Query)
    requires g.Valid() && Register(g, u, replacing).1.Ok? && !q.Matches(u)
    ensures Lookup(Register(g, u, replacing).0, q) == Lookup(g, q)
  {
    hide Attach, Register, Lookup;
    var h := Register(g, u, replacing).0;
    SuccessExtends(g, u, replacing);
    forall c
      ensures c in Lookup(h, q) <==> c in Lookup(g, q)
    {
      LookupMeans(g, q, c);
      LookupMeans(h, q, c);
      forall j
        ensures InAnswer(h, q, j) <==> InAnswer(g, q, j)
      {
        RegisterStep(g, u, replacing, q, j);
      }
      SameClasses(g, h, q, c);
    }
  }

  lemma SuccessExtends(g: Graph, u: Unit, replacing: Replacing)
    requires g.Valid() && Register(g, u, replacing).1.Ok?
    ensures Extends(g, Register(g, u, replacing).0)
  {
    RegisterExtends(g, u, replacing);
  }

  lemma SameClasses(g: Graph, h: Graph, q: Query, c: nat)
    requires Extends(g, h) && forall j :: InAnswer(h, q, j) <==> InAnswer(g, q, j)
    ensures (exists j :: 0 <= j < |g.units| && InAnswer(g, q, j) && g.units[j].cls == c)
            <==> exists j :: 0 <= j < |h.units| && InAnswer(h, q, j) && h.units[j].cls == c
  {
    assert forall k :: 0 <= k < |g.units| ==> h.units[k] == h.units[..|g.units|][k] == g.units[k];
    if j :| 0 <= j < |g.units| && InAnswer(g, q, j) && g.units[j].cls == c {
      assert InAnswer(h, q, j) && h.units[j].cls == c;
    }
    if j :| 0 <= j < |h.units| && InAnswer(h, q, j) && h.units[j].cls == c {
      assert InAnswer(g, q, j) && j < |g.units|;
    }
  }

  /** The refused entry is visible exactly if it was attached to something. */
  lemma RefusedVisible(g: Graph, h: Graph, classes: seq<nat>)
    requires Extends(g, h) && AttachedTo(g, h, Targets(g, classes)) && h.entries == g.entries
    ensures Visible(h, |g.units|) <==> FirstKnown(g, classes)
  {
    var n, targets := |g.units|, Targets(g, classes);
    forall k | 0 <= k < |g.entries|
      ensures AtOrBelow(h, h.entries[k], n) <==> exists t :: t in targets && AtOrBelow(g, g.entries[k], t)
    {
      ReachesNew(g, h, targets, g.entries[k]);
    }
    if FirstKnown(g, classes) {
      assert targets[0] in g.entries;
      var k :| 0 <= k < |g.entries| && g.entries[k] == targets[0];
      assert AtOrBelow(g, g.entries[k], targets[0]);
      assert AtOrBelow(h, h.entries[k], n);
    } else {
      assert targets == [];
    }
  }

  /** A registration that fails half-way is not without effect.  If the class matches and
      the first class it was to replace is registered, it answers, as if registered, in
      place of what it was attached to before the failure. */
  lemma FailedRegistrationStep(g: Graph, u: Unit, replacing: Replacing, q: Query, j: nat)
    requires g.Valid() && Register(g, u, replacing).1 == Err(UnregisteredClass)
    ensures var classes := ClassesOf(replacing);
      InAnswer(Register(g, u, replacing).0, q, j)
      <==> if q.Matches(u) then
             (j == |g.units| && FirstKnown(g, classes)) || (InAnswer(g, q, j) && !Superseded(g, classes, j))
           else InAnswer(g, q, j)
  {
    var h, classes := Register(g, u, replacing).0, ClassesOf(replacing);
    RegisterExtends(g, u, replacing);
    RegisterAttaches(g, u, replacing);
    hide Attach, Register, Top, Visible, FirstKnown;
    if j <= |g.units| {
      TopAfter(g, h, q, j);
      VisibleAfter(g, h, j);
      RefusedVisible(g, h, classes);
      if j < |g.units| {
        ReachesNew(g, h, Targets(g, classes), j);
      } else {
        OutOfGraph(g, q, j);
      }
    } else {
      OutOfGraph(g, q, j);
      OutOfGraph(h, q, j);
    }
  }

  /** A refused registration changes some answer if and only if the class matches and the
      first class it was to replace is registered. */
  lemma RefusalChanges(g: Graph, u: Unit, replacing: Replacing, q: Query)
    requires g.Valid() && Register(g, u, replacing).1 == Err(UnregisteredClass)
    ensures (exists j: nat :: InAnswer(Register(g, u, replacing).0, q, j) != InAnswer(g, q, j))
      <==> q.Matches(u) && FirstKnown(g, ClassesOf(replacing))
  {
    hide Register, InAnswer;
    var h, classes := Register(g, u, replacing).0, ClassesOf(replacing);
    FailedRegistrationStep(g, u, replacing, q, |g.units|);
    OutOfGraph(g, q, |g.units|);
    if !FirstKnown(g, classes) || !q.Matches(u) {
      assert !FirstKnown(g, classes) ==> Targets(g, classes) == [];
      forall j: nat
        ensures InAnswer(h, q, j) == InAnswer(g, q, j)
      {
        FailedRegistrationStep(g, u, replacing, q, j);
      }
    }
  }

  /** A class that is to replace itself is refused without any effect. */
  lemma ReplacingItselfChangesNothing(g: Graph, u: Unit, replacing: Replacing)
    requires g.Valid()
    ensures Register(g, u, replacing).1 == Err(ReplacesItself) <==> replacing == One(u.cls)
    ensures replacing == One(u.cls) ==> Register(g, u, replacing).0 == g
  {}

  /** For instance: a class registered to replace one known and one unknown class is
      refused, and from then on answers in place of the known one. */
  lemma FailedRegistrationExample(g: Graph, q: Query)
    requires g == Graph([Unit(1, 0)], [[]], [0]) && g.Valid() && q == Query({0}, {1, 2})
    ensures var (h, r) := Register(g, Unit(2, 0), Several([1, 7]));
      && r == Err(UnregisteredClass)
      && Lookup(g, q) == {1} && Lookup(h, q) == {2}
  {
    hide Register, Lookup, Follow;
    var once := Graph([Unit(1, 0), Unit(2, 0)], [[1], []], [0]);
    RegisterExample(g, once);
    LookupOfTwo(once, q);
    LookupOfOne(g, q);
  }

  lemma RegisterExample(g: Graph, once: Graph)
    requires g == Graph([Unit(1, 0)], [[]], [0]) && g.Valid()
    requires once == Graph([Unit(1, 0), Unit(2, 0)], [[1], []], [0])
    ensures Register(g, Unit(2, 0), Several([1, 7])) == (once, Err(UnregisteredClass))
  {
    AddExample(g);
    AttachExample(once);
    hide Attach, Grown, Added, EntryOf, Targets;
  }

  lemma AddExample(g: Graph)
    requires g == Graph([Unit(1, 0)], [[]], [0])
    ensures Added(g, Unit(2, 0)) == Graph([Unit(1, 0), Unit(2, 0)], [[], []], [0])
  {}

  lemma AttachExample(once: Graph)
    requires once == Graph([Unit(1, 0), Unit(2, 0)], [[1], []], [0])
    ensures var added := Graph([Unit(1, 0), Unit(2, 0)], [[], []], [0]);
      added.Valid() && Attach(added, [1, 7]) == (once, false)
  {
    var added := Graph([Unit(1, 0), Unit(2, 0)], [[], []], [0]);
    assert EntryOf(added, [0], 1) == Some(0);
    assert AttachTo(added, 0).replacedBy[0] == [1];
    assert AttachTo(added, 0) == once;
    assert [0][1..] == [] && [1, 7][1..] == [7];
    assert EntryOf(once, [0], 7) == None;
    assert Attach(once, [7]) == (once, false);
  }

  lemma LookupOfOne(g: Graph, q: Query)
    requires g == Graph([Unit(1, 0)], [[]], [0]) && q == Query({0}, {1, 2}) && g.Valid()
    ensures Lookup(g, q) == {1}
  {
    assert [0][1..] == [];
    assert FollowOne(g, q, 0) == {1};
  }

  lemma LookupOfTwo(g: Graph, q: Query)
    requires g == Graph([Unit(1, 0), Unit(2, 0)], [[1], []], [0]) && q == Query({0}, {1, 2}) && g.Valid()
    ensures Lookup(g, q) == {2}
  {
    assert [1][1..] == [] && [0][1..] == [];
    assert FollowOne(g, q, 1) == {2};
    assert Follow(g, q, [1], 0) == {2};
    assert FollowOne(g, q, 0) == {2};
    assert Follow(g, q, [0], -1) == {2};
  }

  /* ---- backends and their parents ---- */

  /** The lookup on a backend and, while nothing is found, on its parents. */
  function LookupUp(chain: seq<Graph>, q: Query): set<nat>
    requires chain != [] && forall k :: 0 <= k < |chain| ==> chain[k].Valid()
  {
    var here := Lookup(chain[0], q);
    if here == {} && |chain| > 1 then LookupUp(chain[1..], q) else here
  }

  /** The answer is that of the nearest backend that has one. */
  lemma {:induction false} NearestAnswers(chain: seq<Graph>, q: Query) returns (k: nat)
    requires chain != [] && forall k :: 0 <= k < |chain| ==> chain[k].Valid()
    ensures k < |chain| && LookupUp(chain, q) == Lookup(chain[k], q)
    ensures forall i :: 0 <= i < k ==> Lookup(chain[i], q) == {}
    ensures LookupUp(chain, q) == {} ==> k == |chain| - 1
  {
    if Lookup(chain[0], q) == {} && |chain| > 1 {
      var m := NearestAnswers(chain[1..], q);
      k := m + 1;
      assert forall i :: 0 < i < |chain| ==> chain[i] == chain[1..][i - 1];
    } else {
      k := 0;
    }
  }

  /** So whatever it is, every class of it belongs to an entry of an installed module there,
      and is suitable. */
  lemma AnswerIsInstalled(chain: seq<Graph>, q: Query, c: nat) returns (k: nat, j: nat)
    requires chain != [] && forall i :: 0 <= i < |chain| ==> chain[i].Valid()
    requires c in LookupUp(chain, q)
    ensures k < |chain| && j < |chain[k].units| && Visible(chain[k], j) && chain[k].units[j].cls == c
    ensures chain[k].units[j].openerpModule in q.installed && c in q.suitable
  {
    k := NearestAnswers(chain, q);
    LookupIsInstalled(chain[k], q, c);
    j :| 0 <= j < |chain[k].units| && Chosen(chain[k], q, j) && chain[k].units[j].cls == c;
  }

  /** A backend: its entries, updated by registrations, and its parent. */
  class Backend {
    const parent: Backend?
    ghost const ancestors: set<Backend>
    var units: seq<Unit>
    var replacedBy: seq<seq<nat>>
    var entries: seq<nat>

    ghost function Contents(): Graph
      reads this
    {
      Graph(units, replacedBy, entries)
    }

    ghost predicate Valid()
      reads this, ancestors
      decreases ancestors
    {
      && Contents().Valid()
      && (parent != null ==>
            parent in ancestors && parent.ancestors <= ancestors && parent !in parent.ancestors && parent.Valid())
    }

    /** The registries of the backend and its parents, nearest first. */
    ghost function Chain(): (r: seq<Graph>)
      requires Valid()
      reads this, ancestors
      ensures r != [] && forall k :: 0 <= k < |r| ==> r[k].Valid()
      decreases ancestors
    {
      [Contents()] + if parent == null then [] else parent.Chain()
    }

    constructor (parent: Backend?)
      requires parent != null ==> parent.Valid() && parent !in parent.ancestors
      ensures Valid() && Contents() == Graph([], [], []) && this.parent == parent
    {
      this.parent := parent;
      ancestors := if parent == null then {} else {parent} + parent.ancestors;
      units, replacedBy, entries := [], [], [];
    }

    /** The recursive search of `_get_classes`. */
    method FollowReplacing(q: Query, nodes: seq<nat>, ghost above: int) returns (candidates: set<nat>)
      requires Contents().Valid() && -1 <= above < |units| && Nodes(Contents(), nodes, above)
      ensures candidates == Follow(Contents(), q, nodes, above)
      decreases |units| - above
    {
      candidates := {};
      assert nodes[0..] == nodes;
      for k := 0 to |nodes|
        invariant candidates + Follow(Contents(), q, nodes[k..], above) == Follow(Contents(), q, nodes, above)
      {
        var i := nodes[k];
        var replacings: set<nat> := {};
        assert nodes[k..][0] == i && nodes[k..][1..] == nodes[k + 1..];
        FollowEmpty(Contents(), q, i);
        if replacedBy[i] != [] {
          replacings := FollowReplacing(q, replacedBy[i], i);
          if replacings != {} {
            candidates := candidates + replacings;
          }
        }
        if replacings == {} {
          if units[i].openerpModule in q.installed && units[i].cls in q.suitable {
            candidates := candidates + {units[i].cls};
          }
        }
      }
    }

    /** The classes found here or, failing that, on the nearest parent. */
    method GetClasses(q: Query) returns (r: set<nat>)
      requires Valid()
      ensures r == LookupUp(Chain(), q)
      decreases ancestors
    {
      r := FollowReplacing(q, entries, -1);
      if r == {} && parent != null {
        r := parent.GetClasses(q);
        assert Chain()[1..] == parent.Chain();
      }
    }

    /** The one class found. */
    method GetClass(q: Query) returns (r: Result<nat>)
      requires Valid()
      ensures r == Err(NoMatchingClass) <==> LookupUp(Chain(), q) == {}
      ensures r.Ok? <==> |LookupUp(Chain(), q)| == 1
      ensures r.Ok? ==> LookupUp(Chain(), q) == {r.value}
      ensures r.Err? ==> r.error in {NoMatchingClass, SeveralClasses}
    {
      var found := GetClasses(q);
      if found == {} {
        return Err(NoMatchingClass);
      }
      var c :| c in found;
      if found != {c} {
        assert |found - {c}| > 0;
        return Err(SeveralClasses);
      }
      return Ok(c);
    }

    /** Registers a class; a failure half-way leaves it attached. */
    method RegisterClass(u: Unit, replacing: Replacing) returns (r: Result<()>)
      requires Contents().Valid()
      modifies this
      ensures (Contents(), r) == Register(old(Contents()), u, replacing)
    {
      if replacing == One(u.cls) {
        return Err(ReplacesItself);
      }
      hide Attach;
      var n := |units|;
      units, replacedBy := units + [u], replacedBy + [[]];
      assert Contents() == Added(old(Contents()), u);
      var classes := ClassesOf(replacing);
      var ok := AttachAll(classes);
      if !ok {
        return Err(UnregisteredClass);
      }
      entries := entries + [n];
      return Ok(());
    }

    /** Makes the youngest entry replace the classes, up to the first unknown one. */
    method AttachAll(classes: seq<nat>) returns (ok: bool)
      requires Contents().Valid() && |units| > 0 && forall k :: 0 <= k < |entries| ==> entries[k] < |units| - 1
      modifies this`replacedBy
      ensures (Contents(), ok) == Attach(old(Contents()), classes)
    {
      hide Attach;
      assert classes[0..] == classes;
      for k := 0 to |classes|
        invariant Contents().Valid()
        invariant Attach(Contents(), classes[k..]) == Attach(old(Contents()), classes)
      {
        assert classes[k..][0] == classes[k] && classes[k..][1..] == classes[k + 1..];
        AttachStep(Contents(), classes[k..]);
        var target := FindEntry(classes[k]);
        if target.None? {
          return false;
        }
        var i := target.value;
        ghost var next := AttachTo(Contents(), i);
        replacedBy := replacedBy[i := replacedBy[i] + [|units| - 1]];
        assert Contents() == next;
      }
      assert classes[|classes|..] == [];
      AttachStep(Contents(), []);
      return true;
    }

    /** The first registered entry of a class. */
    method FindEntry(cls: nat) returns (r: Option<nat>)
      requires Contents().Valid()
      ensures r == EntryOf(Contents(), entries, cls)
    {
      assert entries[0..] == entries;
      for k := 0 to |entries|
        invariant EntryOf(Contents(), entries, cls) == EntryOf(Contents(), entries[k..], cls)
      {
        if units[entries[k]].cls == cls {
          return Some(entries[k]);
        }
        assert entries[k..][1..] == entries[k + 1..];
      }
      return None;
    }
  }

  lemma AttachStep(g: Graph, classes: seq<nat>)
    requires g.Valid() && |g.units| > 0 && forall k :: 0 <= k < |g.entries| ==> g.entries[k] < |g.units| - 1
    ensures classes == [] ==> Attach(g, classes) == (g, true)
    ensures classes != [] ==>
      var target := EntryOf(g, g.entries, classes[0]);
      Attach(g, classes) == if target.None? then (g, false) else Attach(AttachTo(g, target.value), classes[1..])
  {}

  lemma FollowEmpty(g: Graph, q: Query, i: nat)
    requires g.Valid() && i < |g.units|
    ensures g.replacedBy[i] == [] ==> Follow(g, q, g.replacedBy[i], i) == {}
  {}
}
