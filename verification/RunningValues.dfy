/** The running values of depreciation lines: what a line has depreciated before it and
    what remains after it, recomputed along the links between lines. Kind, date, base
    and link of a line stay as they are; amounts and running values are written. */
module RunningValues {
  datatype Kind = Create | Depreciate | Remove

  class AssetLine {
    const kind: Kind
    const date: int
    const base: int
    var amount: int
    const previous: AssetLine?
    var depreciated: int
    var remaining: int

    constructor (kind: Kind, date: int, base: int, amount: int, previous: AssetLine?)
      ensures this.kind == kind && this.date == date && this.base == base
      ensures this.amount == amount && this.previous == previous && depreciated == 0 && remaining == 0
    {
      this.kind, this.date, this.base, this.amount, this.previous := kind, date, base, amount, previous;
      depreciated, remaining := 0, 0;
    }
  }

  /* ---- the order of the computation ---- */

  function Depreciations(lines: seq<AssetLine>): seq<AssetLine> {
    if lines == [] then []
    else (if lines[0].kind == Depreciate then [lines[0]] else []) + Depreciations(lines[1..])
  }

  /** Places a line before the first line that is not earlier. */
  function Insert(line: AssetLine, ordered: seq<AssetLine>): seq<AssetLine> {
    if ordered == [] || line.date <= ordered[0].date then [line] + ordered
    else [ordered[0]] + Insert(line, ordered[1..])
  }

  /** The lines by date; lines of the same date keep their order. */
  function ByDate(lines: seq<AssetLine>): seq<AssetLine> {
    if lines == [] then [] else Insert(lines[0], ByDate(lines[1..]))
  }

  /** The depreciation lines among the given ones, by date. */
  function Ordered(lines: seq<AssetLine>): seq<AssetLine> {
    ByDate(Depreciations(lines))
  }

  ghost predicate Distinct(lines: seq<AssetLine>) {
    forall i, j :: 0 <= i < j < |lines| ==> lines[i] != lines[j]
  }

  ghost predicate Sorted(lines: seq<AssetLine>) {
    forall i, j :: 0 <= i < j < |lines| ==> lines[i].date <= lines[j].date
  }

  /** The line is none of the others and not later than any. */
  ghost predicate Leads(first: AssetLine, rest: seq<AssetLine>) {
    forall k :: 0 <= k < |rest| ==> first.date <= rest[k].date && first != rest[k]
  }

  lemma {:induction false} InsertMembers(line: AssetLine, ordered: seq<AssetLine>)
    ensures multiset(Insert(line, ordered)) == multiset(ordered) + multiset{line}
  {
    if ordered != [] && line.date > ordered[0].date {
      InsertMembers(line, ordered[1..]);
      assert ordered == [ordered[0]] + ordered[1..];
    }
  }

  lemma {:induction false} ByDateMembers(lines: seq<AssetLine>)
    ensures multiset(ByDate(lines)) == multiset(lines)
  {
    if lines != [] {
      ByDateMembers(lines[1..]);
      InsertMembers(lines[0], ByDate(lines[1..]));
      assert lines == [lines[0]] + lines[1..];
    }
  }

  lemma {:induction false} DepreciationsMembers(lines: seq<AssetLine>)
    ensures forall l :: l in Depreciations(lines) <==> l in lines && l.kind == Depreciate
    ensures Distinct(lines) ==> Distinct(Depreciations(lines))
  {
    if lines != [] {
      DepreciationsMembers(lines[1..]);
      assert lines == [lines[0]] + lines[1..];
    }
  }

  lemma {:induction false} InsertSorts(line: AssetLine, ordered: seq<AssetLine>)
    requires Sorted(ordered) && Distinct(ordered) && line !in ordered
    ensures Sorted(Insert(line, ordered)) && Distinct(Insert(line, ordered))
  {
    if ordered != [] && line.date > ordered[0].date {
      InsertSorts(line, ordered[1..]);
      InsertAfter(line, ordered);
      ConsSorts(ordered[0], Insert(line, ordered[1..]));
    } else {
      ConsSorts(line, ordered);
    }
  }

  lemma ConsSorts(first: AssetLine, rest: seq<AssetLine>)
    requires Sorted(rest) && Distinct(rest) && Leads(first, rest)
    ensures Sorted([first] + rest) && Distinct([first] + rest)
  {}

  lemma InsertAfter(line: AssetLine, ordered: seq<AssetLine>)
    requires Sorted(ordered) && Distinct(ordered) && line !in ordered && ordered != [] && line.date > ordered[0].date
    ensures Leads(ordered[0], Insert(line, ordered[1..]))
  {
    var rest := Insert(line, ordered[1..]);
    InsertMembers(line, ordered[1..]);
    hide Insert;
    forall k | 0 <= k < |rest|
      ensures ordered[0].date <= rest[k].date && ordered[0] != rest[k]
    {
      assert rest[k] in multiset(rest);
      if rest[k] != line {
        var j :| 0 <= j < |ordered[1..]| && ordered[1..][j] == rest[k];
        assert ordered[j + 1] == rest[k];
      }
    }
  }

  /** Taking the lines by date sorts them and keeps each once. */
  lemma {:induction false} ByDateSorts(lines: seq<AssetLine>)
    requires Distinct(lines)
    ensures Sorted(ByDate(lines)) && Distinct(ByDate(lines))
  {
    if lines != [] {
      ByDateSorts(lines[1..]);
      ByDateMembers(lines[1..]);
      assert lines[0] !in multiset(lines[1..]);
      InsertSorts(lines[0], ByDate(lines[1..]));
    }
  }

  lemma OrderedSorts(lines: seq<AssetLine>)
    requires Distinct(lines)
    ensures Sorted(Ordered(lines)) && Distinct(Ordered(lines))
    ensures forall l :: l in Ordered(lines) <==> l in lines && l.kind == Depreciate
  {
    DepreciationsMembers(lines);
    ByDateMembers(Depreciations(lines));
    ByDateSorts(Depreciations(lines));
    forall l
      ensures l in Ordered(lines) <==> l in lines && l.kind == Depreciate
    {
      assert l in multiset(Ordered(lines)) <==> l in multiset(Depreciations(lines));
    }
  }

  /* ---- one recomputation ---- */

  /** The sum of the first `n` amounts. */
  function Total(lines: seq<AssetLine>, n: nat): int
    requires n <= |lines|
    reads lines`amount
  {
    if n == 0 then 0 else Total(lines, n - 1) + lines[n - 1].amount
  }

  function PreviousAmount(line: AssetLine): int
    reads (if line.previous == null then {} else {line.previous})`amount
  {
    if line.previous == null then 0 else line.previous.amount
  }

  /** The amounts before lines 1 to `n`. */
  function TotalBefore(lines: seq<AssetLine>, n: nat): int
    requires n < |lines|
    reads (set l | l in lines && l.previous != null :: l.previous)`amount
  {
    if n == 0 then 0 else TotalBefore(lines, n - 1) + PreviousAmount(lines[n])
  }

  /** What was depreciated before a line, as its previous line tells. */
  function Reached(line: AssetLine): int
    reads (if line.previous == null then {} else {line.previous})`remaining
  {
    if line.previous == null then 0 else line.base - line.previous.remaining
  }

  /** What was depreciated before the first of the lines. */
  function Start(lines: seq<AssetLine>): int
    reads (set l | l in lines && l.previous != null :: l.previous)`remaining
  {
    if lines == [] then 0 else Reached(lines[0])
  }

  /** Line `k` of the ordered lines holds what was reached before it and what remains
      after it, from a start. */
  ghost predicate Computed(s: seq<AssetLine>, start: int, k: nat)
    requires k < |s|
    reads s`amount, s`depreciated, s`remaining, (set l | l in s && l.previous != null :: l.previous)`amount
  {
    && s[k].depreciated == start + TotalBefore(s, k)
    && s[k].remaining == s[0].base - start - Total(s, k + 1)
  }

  /** Recomputes the values of the depreciation lines among `lines`, in date order. */
  method ComputeValues(lines: seq<AssetLine>)
    requires Distinct(lines)
    modifies lines`depreciated, lines`remaining
    ensures forall k: nat :: k < |Ordered(lines)| ==> Computed(Ordered(lines), old(Start(Ordered(lines))), k)
    ensures forall l :: l in lines && l.kind != Depreciate ==>
      l.depreciated == old(l.depreciated) && l.remaining == old(l.remaining)
  {
    hide Ordered, Sorted;
    var s := Ordered(lines);
    OrderedSorts(lines);
    ghost var start := Start(s);
    var depreciated, remaining := 0, 0;
    for i := 0 to |s|
      invariant forall k: nat :: k < i ==> Computed(s, start, k)
      invariant i > 0 ==> depreciated == start + TotalBefore(s, i - 1)
      invariant i > 0 ==> remaining == s[0].base - start - Total(s, i)
      invariant i == 0 ==> Start(s) == start
      invariant forall l :: l in lines && l.kind != Depreciate ==>
        l.depreciated == old(l.depreciated) && l.remaining == old(l.remaining)
    {
      var line := s[i];
      assert line in lines;
      if i == 0 {
        var base := line.base;
        depreciated := if line.previous != null then base - line.previous.remaining else 0;
        remaining := base - depreciated - line.amount;
      } else {
        depreciated := depreciated + PreviousAmount(line);
        remaining := remaining - line.amount;
      }
      label before:
      line.depreciated := depreciated;
      line.remaining := remaining;
      forall k: nat | k < i + 1
        ensures Computed(s, start, k)
      {
        assert TotalBefore(s, k) == old@before(TotalBefore(s, k));
        assert Total(s, k + 1) == old@before(Total(s, k + 1));
        if k < i {
          assert old@before(Computed(s, start, k)) && s[k] != line;
        } else {
          assert k == i;
        }
      }
    }
  }

  /* ---- chains ---- */

  /** Lines of one asset linked in date order. */
  ghost predicate Linked(chain: seq<AssetLine>) {
    && (forall k :: 0 <= k < |chain| ==> chain[k].kind == Depreciate && chain[k].base == chain[0].base)
    && (chain != [] ==> chain[0].previous == null)
    && (forall k :: 0 < k < |chain| ==> chain[k].previous == chain[k - 1])
    && (forall j, k :: 0 <= j < k < |chain| ==> chain[j].date < chain[k].date)
  }

  /** The values computed from scratch: what earlier lines sum to, and the base less
      the lines so far. */
  ghost predicate Right(chain: seq<AssetLine>, k: nat)
    requires k < |chain|
    reads chain`amount, chain`depreciated, chain`remaining
  {
    chain[k].depreciated == Total(chain, k) && chain[k].remaining == chain[k].base - Total(chain, k + 1)
  }

  /** The lines hold exactly the stretch of the chain from `lo` up to `hi`, in any
      order, among lines of other kinds. */
  ghost predicate Covers(lines: seq<AssetLine>, stretch: seq<AssetLine>) {
    && Distinct(lines)
    && (forall l :: l in lines && l.kind == Depreciate ==> l in stretch)
    && (forall l :: l in stretch ==> l in lines && l.kind == Depreciate)
  }

  lemma EmptyMembers(s: seq<AssetLine>, t: seq<AssetLine>)
    requires s != [] && forall l :: l in s <==> l in t
    ensures t != []
  {
    assert s[0] in t;
  }

  lemma {:induction false} SameLines(s: seq<AssetLine>, t: seq<AssetLine>)
    requires Sorted(s) && Distinct(s) && forall l :: l in s <==> l in t
    requires forall j, k :: 0 <= j < k < |t| ==> t[j].date < t[k].date
    ensures s == t
  {
    if t == [] {
      if s != [] {
        EmptyMembers(s, t);
      }
    } else {
      assert t[0] in s && s[0] in t;
      assert s[0] == t[0];
      assert s == [s[0]] + s[1..] && t == [t[0]] + t[1..];
      assert t[0] !in t[1..] && s[0] !in s[1..];
      assert forall l :: l in s[1..] <==> l in s && l != s[0];
      assert forall l :: l in t[1..] <==> l in t && l != t[0];
      SameLines(s[1..], t[1..]);
    }
  }

  lemma CoveredOrder(lines: seq<AssetLine>, chain: seq<AssetLine>, lo: nat, hi: nat)
    requires Linked(chain) && lo <= hi <= |chain| && Covers(lines, chain[lo..hi])
    ensures Ordered(lines) == chain[lo..hi] && Distinct(lines)
  {
    OrderedSorts(lines);
    SameLines(Ordered(lines), chain[lo..hi]);
  }

  lemma {:induction false} StretchTotal(chain: seq<AssetLine>, lo: nat, hi: nat, n: nat)
    requires lo <= hi <= |chain| && n <= hi - lo
    ensures Total(chain[lo..hi], n) == Total(chain, lo + n) - Total(chain, lo)
  {
    if n > 0 {
      StretchTotal(chain, lo, hi, n - 1);
    }
  }

  lemma {:induction false} StretchBefore(chain: seq<AssetLine>, lo: nat, hi: nat, n: nat)
    requires Linked(chain) && lo <= hi <= |chain| && n < hi - lo
    ensures TotalBefore(chain[lo..hi], n) == Total(chain, lo + n) - Total(chain, lo)
  {
    if n > 0 {
      StretchBefore(chain, lo, hi, n - 1);
      assert chain[lo..hi][n].previous == chain[lo + n - 1];
    }
  }

  lemma StartOfStretch(chain: seq<AssetLine>, lo: nat, hi: nat)
    requires Linked(chain) && lo < hi <= |chain|
    requires lo > 0 ==> Right(chain, lo - 1)
    ensures Start(chain[lo..hi]) == Total(chain, lo)
  {
    var first := chain[lo..hi][0];
    assert first == chain[lo];
    if lo == 0 {
      assert first.previous == null;
    } else {
      assert first.previous == chain[lo - 1];
      assert first.base == chain[lo - 1].base;
      assert chain[lo - 1].remaining == chain[lo - 1].base - Total(chain, lo);
    }
  }

  /** Recomputing any stretch of a chain whose preceding line is right gives the
      values computed from scratch, and touches no other line. */
  method RecomputeStretch(lines: seq<AssetLine>, ghost chain: seq<AssetLine>, ghost lo: nat, ghost hi: nat)
    requires Linked(chain) && lo <= hi <= |chain| && Covers(lines, chain[lo..hi])
    requires lo > 0 ==> Right(chain, lo - 1)
    modifies lines`depreciated, lines`remaining
    ensures forall k: nat :: lo <= k < hi ==> Right(chain, k)
    ensures forall k: nat :: k < |chain| && !(lo <= k < hi) ==>
      chain[k].depreciated == old(chain[k].depreciated) && chain[k].remaining == old(chain[k].remaining)
  {
    hide Ordered, Linked, Covers, Right, Computed, Start;
    CoveredOrder(lines, chain, lo, hi);
    OutsideStretch(lines, chain, lo, hi);
    ghost var s := chain[lo..hi];
    ghost var start := Total(chain, lo);
    if lo < hi {
      StartOfStretch(chain, lo, hi);
    }
    ComputeValues(lines);
    assert start == Total(chain, lo);
    forall k: nat | lo <= k < hi
      ensures Right(chain, k)
    {
      assert Computed(s, start, k - lo);
      ComputedIsRight(chain, lo, hi, k);
    }
  }

  lemma ComputedIsRight(chain: seq<AssetLine>, lo: nat, hi: nat, k: nat)
    requires Linked(chain) && lo <= k < hi <= |chain|
    requires Computed(chain[lo..hi], Total(chain, lo), k - lo)
    ensures Right(chain, k)
  {
    var s := chain[lo..hi];
    StretchTotal(chain, lo, hi, k - lo + 1);
    StretchBefore(chain, lo, hi, k - lo);
    assert s[k - lo] == chain[k] && s[0] == chain[lo];
  }

  lemma OutsideStretch(lines: seq<AssetLine>, chain: seq<AssetLine>, lo: nat, hi: nat)
    requires Linked(chain) && lo <= hi <= |chain| && Covers(lines, chain[lo..hi])
    ensures forall k: nat :: k < |chain| && !(lo <= k < hi) ==> chain[k] !in lines
  {
    forall k: nat | k < |chain| && !(lo <= k < hi)
      ensures chain[k] !in lines
    {
      assert forall j :: lo <= j < hi ==> chain[j].date != chain[k].date;
    }
  }

  /** Writing an amount recomputes that line only. The line is right afterwards, and a
      later line is right exactly if the amount did not change. */
  method WriteAmount(line: AssetLine, amount: int, ghost chain: seq<AssetLine>, ghost k: nat)
    requires Linked(chain) && k < |chain| && line == chain[k]
    requires forall j: nat :: j < |chain| ==> Right(chain, j)
    modifies {line}`amount, {line}`depreciated, {line}`remaining
    ensures line.amount == amount && Right(chain, k)
    ensures forall j: nat :: j < |chain| && j != k ==> (Right(chain, j) <==> j < k || amount == old(line.amount))
  {
    hide Linked, Right, Total, Covers;
    ghost var shift := amount - line.amount;
    ghost var totals := Snapshot(chain, |chain|);
    RightSnapshot(chain, totals);
    line.amount := amount;
    OnlyOnce(chain, k);
    assert forall j: nat :: j < |chain| ==> totals[j + 1] == totals[j] + old(chain[j].amount);
    TotalsShift(chain, totals, k, shift);
    RightAfter(chain, totals, k, shift);
    if k > 0 {
      assert Stored(chain, totals, k - 1);
    }
    SingleStretch(line, chain, k);
    label before:
    RecomputeStretch([line], chain, k, k + 1);
    forall j: nat | j < |chain| && j != k
      ensures Stored(chain, totals, j)
    {
      assert old@before(Stored(chain, totals, j));
    }
    assert forall n: nat :: n <= |chain| ==> Total(chain, n) == totals[n] + if n <= k then 0 else shift;
    RightAfter(chain, totals, k, shift);
  }

  lemma OnlyOnce(chain: seq<AssetLine>, k: nat)
    requires Linked(chain) && k < |chain|
    ensures forall j: nat :: j < |chain| && j != k ==> chain[j] != chain[k]
  {
    assert forall j: nat :: j < |chain| && j != k ==> chain[j].date != chain[k].date;
  }

  lemma SingleStretch(line: AssetLine, chain: seq<AssetLine>, k: nat)
    requires Linked(chain) && k < |chain| && line == chain[k]
    ensures Covers([line], chain[k..k + 1])
  {
    assert chain[k..k + 1] == [line];
  }

  /** The running totals of a chain. */
  function Snapshot(chain: seq<AssetLine>, count: nat): (r: seq<int>)
    reads chain`amount
    requires count <= |chain|
    ensures |r| == count + 1 && forall n: nat :: n <= count ==> r[n] == Total(chain, n)
  {
    (if count == 0 then [] else Snapshot(chain, count - 1)) + [Total(chain, count)]
  }

  /** Line `j` still holds what the totals say. */
  ghost predicate Stored(chain: seq<AssetLine>, totals: seq<int>, j: nat)
    requires j < |chain| && |totals| == |chain| + 1
    reads chain`depreciated, chain`remaining
  {
    chain[j].depreciated == totals[j] && chain[j].remaining == chain[j].base - totals[j + 1]
  }

  lemma RightSnapshot(chain: seq<AssetLine>, totals: seq<int>)
    requires totals == Snapshot(chain, |chain|) && forall j: nat :: j < |chain| ==> Right(chain, j)
    ensures totals[0] == 0
    ensures forall j: nat :: j < |chain| ==> Stored(chain, totals, j) && totals[j + 1] == totals[j] + chain[j].amount
  {
    forall j: nat | j < |chain|
      ensures Stored(chain, totals, j) && totals[j + 1] == totals[j] + chain[j].amount
    {
      assert Right(chain, j) && totals[j] == Total(chain, j) && totals[j + 1] == Total(chain, j + 1);
    }
  }

  /** After the amount of line `k` moved by `shift`, a line that kept its values is
      right if it is before `k`, and after it exactly if nothing moved. */
  lemma RightAfter(chain: seq<AssetLine>, totals: seq<int>, k: nat, shift: int)
    requires k < |chain| && |totals| == |chain| + 1
    requires forall n: nat :: n <= |chain| ==> Total(chain, n) == totals[n] + if n <= k then 0 else shift
    ensures forall j: nat :: j < |chain| && j != k && Stored(chain, totals, j) ==>
      (Right(chain, j) <==> j < k || shift == 0)
  {
    forall j: nat | j < |chain| && j != k && Stored(chain, totals, j)
      ensures Right(chain, j) <==> j < k || shift == 0
    {
      assert Total(chain, j) == totals[j] + if j <= k then 0 else shift;
      assert Total(chain, j + 1) == totals[j + 1] + if j < k then 0 else shift;
    }
  }

  lemma TotalsShift(chain: seq<AssetLine>, totals: seq<int>, k: nat, shift: int)
    requires k < |chain| && |totals| == |chain| + 1 && totals[0] == 0
    requires forall j: nat :: j < |chain| ==> totals[j + 1] == totals[j] + chain[j].amount - if j == k then shift else 0
    ensures forall n: nat :: n <= |chain| ==> Total(chain, n) == totals[n] + if n <= k then 0 else shift
  {
    forall n: nat | n <= |chain|
      ensures Total(chain, n) == totals[n] + if n <= k then 0 else shift
    {
      TotalShifts(chain, totals, k, shift, n);
    }
  }

  lemma {:induction false} TotalShifts(chain: seq<AssetLine>, totals: seq<int>, k: nat, shift: int, n: nat)
    requires k < |chain| && n <= |chain| && |totals| == |chain| + 1 && totals[0] == 0
    requires forall j: nat :: j < |chain| ==> totals[j + 1] == totals[j] + chain[j].amount - if j == k then shift else 0
    ensures Total(chain, n) == totals[n] + if n <= k then 0 else shift
  {
    if n > 0 {
      TotalShifts(chain, totals, k, shift, n - 1);
    }
  }
}
