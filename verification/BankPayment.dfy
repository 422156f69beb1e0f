/** Bank payment documents with deductions, cancelled by reversal, over a ledger: what a
    validated document posts, and what every run of the documents' actions keeps. */
module BankPayment {
  import opened Outcome

  /** A line in transit that the payment settles. */
  datatype Transit = Transit(account: nat, credit: int, foreign: int)

  /** A deduction; its amount has either sign. */
  datatype Deduction = Deduction(account: nat, amount: int)

  datatype Bank = NoBank | Bank(account: Option<nat>)

  /** What a document holds while it is edited. */
  datatype Form = Form(lines: seq<Transit>, deductions: seq<Deduction>, total: int, bank: Bank)

  datatype MoveLine = MoveLine(account: nat, debit: int, credit: int, foreign: int)

  type Move = seq<MoveLine>

  /* ---- the entry of a document ---- */

  function SumCredit(lines: seq<Transit>): int {
    if lines == [] then 0 else SumCredit(lines[..|lines| - 1]) + lines[|lines| - 1].credit
  }

  function SumForeign(lines: seq<Transit>): int {
    if lines == [] then 0 else SumForeign(lines[..|lines| - 1]) + lines[|lines| - 1].foreign
  }

  function SumDeducted(deductions: seq<Deduction>): int {
    if deductions == [] then 0 else SumDeducted(deductions[..|deductions| - 1]) + deductions[|deductions| - 1].amount
  }

  /** What the total leaves after the lines. */
  function Difference(form: Form): int {
    form.total - SumCredit(form.lines)
  }

  /** What the total leaves after the lines and the deductions. */
  function WriteOff(form: Form): int {
    form.total - SumDeducted(form.deductions) - SumCredit(form.lines)
  }

  /** Deductions are written only if the total differs from the lines. */
  predicate Deducts(form: Form) {
    Difference(form) != 0 && form.deductions != []
  }

  function TransitLine(line: Transit): MoveLine {
    MoveLine(line.account, line.credit, 0, -line.foreign)
  }

  function DeductionLine(d: Deduction): MoveLine {
    if d.amount > 0 then MoveLine(d.account, d.amount, 0, 0) else MoveLine(d.account, 0, -d.amount, 0)
  }

  function TransitLines(lines: seq<Transit>): Move {
    if lines == [] then [] else TransitLines(lines[..|lines| - 1]) + [TransitLine(lines[|lines| - 1])]
  }

  function DeductionLines(deductions: seq<Deduction>): Move {
    if deductions == [] then []
    else DeductionLines(deductions[..|deductions| - 1]) + [DeductionLine(deductions[|deductions| - 1])]
  }

  function Counterpart(form: Form, account: nat): MoveLine {
    MoveLine(account, 0, if Deducts(form) then form.total else SumCredit(form.lines), SumForeign(form.lines))
  }

  /** The document can be validated. */
  function Check(form: Form): Result<nat> {
    if WriteOff(form) != 0 then Err(WriteOffNotZero)
    else if form.lines == [] then Err(NoLines)
    else if form.bank.NoBank? then Err(MissingBank)
    else if form.bank.account.None? then Err(MissingAccount)
    else if exists k :: 0 <= k < |form.lines| && form.lines[k].credit <= 0 then Err(CreditMissing)
    else Ok(form.bank.account.value)
  }

  function MoveOf(form: Form, account: nat): Move {
    TransitLines(form.lines) + (if Deducts(form) then DeductionLines(form.deductions) else [])
      + [Counterpart(form, account)]
  }

  /** The entry of a document, built line by line. */
  method PrepareMove(form: Form) returns (r: Result<Move>)
    ensures match Check(form)
      case Ok(account) => r == Ok(MoveOf(form, account))
      case Err(error) => r == Err(error)
  {
    if WriteOff(form) != 0 {
      return Err(WriteOffNotZero);
    }
    if form.lines == [] {
      return Err(NoLines);
    }
    if form.bank.NoBank? {
      return Err(MissingBank);
    }
    if form.bank.account.None? {
      return Err(MissingAccount);
    }
    var move: Move, credit, foreign := [], 0, 0;
    for i := 0 to |form.lines|
      invariant forall k :: 0 <= k < i ==> form.lines[k].credit > 0
      invariant move == TransitLines(form.lines[..i])
      invariant credit == SumCredit(form.lines[..i]) && foreign == SumForeign(form.lines[..i])
    {
      var line := form.lines[i];
      assert form.lines[..i + 1][..i] == form.lines[..i];
      credit, foreign := credit + line.credit, foreign + line.foreign;
      if line.credit <= 0 {
        return Err(CreditMissing);
      }
      move := move + [TransitLine(line)];
    }
    assert form.lines[..|form.lines|] == form.lines;
    if Difference(form) != 0 {
      ghost var before := move;
      for i := 0 to |form.deductions|
        invariant move == before + DeductionLines(form.deductions[..i])
      {
        assert form.deductions[..i + 1][..i] == form.deductions[..i];
        move := move + [DeductionLine(form.deductions[i])];
      }
      assert form.deductions[..|form.deductions|] == form.deductions;
    }
    assert move == TransitLines(form.lines) + (if Deducts(form) then DeductionLines(form.deductions) else []);
    if Deducts(form) {
      credit := form.total;
    }
    move := move + [MoveLine(form.bank.account.value, 0, credit, foreign)];
    r := Ok(move);
  }

  /* ---- entries and accounts ---- */

  function LineOn(line: MoveLine, account: nat): int {
    if line.account == account then line.debit - line.credit else 0
  }

  /** The debits less the credits of an entry on an account. */
  function Net(move: Move, account: nat): int {
    if move == [] then 0 else Net(move[..|move| - 1], account) + LineOn(move[|move| - 1], account)
  }

  function SumDebit(move: Move): int {
    if move == [] then 0 else SumDebit(move[..|move| - 1]) + move[|move| - 1].debit
  }

  function SumCredited(move: Move): int {
    if move == [] then 0 else SumCredited(move[..|move| - 1]) + move[|move| - 1].credit
  }

  predicate Balanced(move: Move) {
    SumDebit(move) == SumCredited(move)
  }

  lemma {:induction false} SumsConcat(x: Move, z: Move, account: nat)
    ensures SumDebit(x + z) == SumDebit(x) + SumDebit(z) && SumCredited(x + z) == SumCredited(x) + SumCredited(z)
    ensures Net(x + z, account) == Net(x, account) + Net(z, account)
  {
    if z == [] {
      assert x + z == x;
    } else {
      SumsConcat(x, z[..|z| - 1], account);
      assert (x + z)[..|x + z| - 1] == x + z[..|z| - 1];
    }
  }

  /** The credits of the lines in transit on an account. */
  function CreditOn(lines: seq<Transit>, account: nat): int {
    if lines == [] then 0
    else
      var last := lines[|lines| - 1];
      CreditOn(lines[..|lines| - 1], account) + if last.account == account then last.credit else 0
  }

  function DeductedOn(deductions: seq<Deduction>, account: nat): int {
    if deductions == [] then 0
    else
      var last := deductions[|deductions| - 1];
      DeductedOn(deductions[..|deductions| - 1], account) + if last.account == account then last.amount else 0
  }

  lemma {:induction false} TransitSums(lines: seq<Transit>, account: nat)
    ensures SumDebit(TransitLines(lines)) == SumCredit(lines) && SumCredited(TransitLines(lines)) == 0
    ensures Net(TransitLines(lines), account) == CreditOn(lines, account)
  {
    if lines != [] {
      TransitSums(lines[..|lines| - 1], account);
      SumsConcat(TransitLines(lines[..|lines| - 1]), [TransitLine(lines[|lines| - 1])], account);
      OneLine(TransitLine(lines[|lines| - 1]), account);
    }
  }

  lemma {:induction false} DeductionSums(deductions: seq<Deduction>, account: nat)
    ensures SumDebit(DeductionLines(deductions)) - SumCredited(DeductionLines(deductions)) == SumDeducted(deductions)
    ensures Net(DeductionLines(deductions), account) == DeductedOn(deductions, account)
  {
    if deductions != [] {
      var last := deductions[|deductions| - 1];
      DeductionSums(deductions[..|deductions| - 1], account);
      SumsConcat(DeductionLines(deductions[..|deductions| - 1]), [DeductionLine(last)], account);
      OneLine(DeductionLine(last), account);
    }
  }

  lemma OneLine(line: MoveLine, account: nat)
    ensures SumDebit([line]) == line.debit && SumCredited([line]) == line.credit
      && Net([line], account) == LineOn(line, account)
  {
    assert [line][..0] == [];
  }

  /** A document that passes the checks posts a balanced entry, with deductions of either
      sign. The bank is credited with the document's total; every other account gets its
      lines in transit and, if the total differs from the lines, its deductions. */
  lemma ValidatedMove(form: Form, account: nat)
    requires Check(form).Ok?
    ensures form.bank == Bank(Some(Check(form).value)) && form.lines != []
    ensures forall k :: 0 <= k < |form.lines| ==> form.lines[k].credit > 0
    ensures Balanced(MoveOf(form, Check(form).value))
    ensures Net(MoveOf(form, Check(form).value), account)
      == CreditOn(form.lines, account)
      + (if Difference(form) != 0 then DeductedOn(form.deductions, account) else 0)
      - (if account == Check(form).value then form.total else 0)
  {
    var bank := Check(form).value;
    var written := if Deducts(form) then DeductionLines(form.deductions) else [];
    TransitSums(form.lines, account);
    DeductionSums(form.deductions, account);
    SumsConcat(TransitLines(form.lines), written, account);
    SumsConcat(TransitLines(form.lines) + written, [Counterpart(form, bank)], account);
    OneLine(Counterpart(form, bank), account);
  }

  /** Deductions are left out exactly if they cancel out: their sum is what the total
      exceeds the lines by. */
  lemma DeductionsLeftOut(form: Form)
    requires Check(form).Ok?
    ensures Difference(form) == SumDeducted(form.deductions)
    ensures MoveOf(form, Check(form).value) == TransitLines(form.lines) + [Counterpart(form, Check(form).value)]
            <==> form.deductions == [] || SumDeducted(form.deductions) == 0
  {
    DeductionCount(form.deductions);
    assert |MoveOf(form, Check(form).value)|
      == |TransitLines(form.lines)| + (if Deducts(form) then |form.deductions| else 0) + 1;
  }

  lemma {:induction false} DeductionCount(deductions: seq<Deduction>)
    ensures |DeductionLines(deductions)| == |deductions|
  {
    if deductions != [] {
      DeductionCount(deductions[..|deductions| - 1]);
    }
  }

  /* ---- reversal ---- */

  /** The values of a line about to be created; they are changed in place. */
  class LineValues {
    const account: nat
    var debit: int
    var credit: int
    var foreign: int

    constructor (line: MoveLine)
      ensures Value() == line
    {
      account, debit, credit, foreign := line.account, line.debit, line.credit, line.foreign;
    }

    function Value(): MoveLine
      reads this
    {
      MoveLine(account, debit, credit, foreign)
    }
  }

  function Switched(line: MoveLine): MoveLine {
    MoveLine(line.account, line.credit, line.debit, -line.foreign)
  }

  /** The entry with debit and credit of every line switched. */
  function Reversed(move: Move): (r: Move)
    ensures |r| == |move| && forall k :: 0 <= k < |r| ==> r[k] == Switched(move[k])
  {
    seq(|move|, k requires 0 <= k < |move| => Switched(move[k]))
  }

  ghost predicate Copies(lines: seq<LineValues>, move: Move)
    reads lines
  {
    && |lines| == |move|
    && (forall j, k :: 0 <= j < k < |lines| ==> lines[j] != lines[k])
    && (forall k :: 0 <= k < |lines| ==> lines[k].Value() == move[k])
  }

  method CopyLines(move: Move) returns (lines: seq<LineValues>)
    ensures fresh(lines) && Copies(lines, move)
  {
    lines := [];
    for i := 0 to |move|
      invariant fresh(lines) && Copies(lines, move[..i])
    {
      var line := new LineValues(move[i]);
      assert forall k :: 0 <= k < |lines| ==> lines[k] != line;
      lines := lines + [line];
    }
    assert move[..|move|] == move;
  }

  /** Switches debit and credit of every line, in place. */
  method SwitchDebitCredit(lines: seq<LineValues>, ghost move: Move)
    requires Copies(lines, move)
    modifies lines
    ensures Copies(lines, Reversed(move))
  {
    for i := 0 to |lines|
      invariant forall k :: 0 <= k < i ==> lines[k].Value() == Switched(move[k])
      invariant forall k :: i <= k < |lines| ==> lines[k].Value() == move[k]
    {
      var line := lines[i];
      line.credit, line.debit, line.foreign := line.debit, line.credit, -line.foreign;
    }
  }

  lemma {:induction false} ReversedSums(move: Move, account: nat)
    ensures Net(Reversed(move), account) == -Net(move, account)
    ensures SumDebit(Reversed(move)) == SumCredited(move) && SumCredited(Reversed(move)) == SumDebit(move)
  {
    if move != [] {
      ReversedSums(move[..|move| - 1], account);
      assert Reversed(move)[..|move| - 1] == Reversed(move[..|move| - 1]);
    }
  }

  /** A reversal balances exactly if the entry does, takes back its effect on every
      account, and reversing it again restores the entry. */
  lemma ReversalUndoes(move: Move, account: nat)
    ensures Balanced(Reversed(move)) <==> Balanced(move)
    ensures Net(move + Reversed(move), account) == 0
    ensures Reversed(Reversed(move)) == move
  {
    ReversedSums(move, account);
    SumsConcat(move, Reversed(move), account);
  }

  /* ---- documents ---- */

  datatype State = Draft | Done | Cancelled

  /** A document: its entry stays attached after cancellation. */
  datatype Doc = Doc(form: Form, state: State, move: Option<nat>, reversal: Option<nat>)

  /** A document and the ledger after an action. */
  datatype After = After(doc: Doc, moves: seq<Move>)

  predicate Attached(doc: Doc, moves: seq<Move>) {
    && (doc.state == Done ==> doc.move.Some?)
    && (doc.move.Some? ==> doc.move.value < |moves|)
  }

  function Validated(doc: Doc, moves: seq<Move>): Result<After> {
    match Check(doc.form)
    case Err(error) => Err(error)
    case Ok(account) =>
      Ok(After(doc.(state := Done, move := Some(|moves|)), moves + [MoveOf(doc.form, account)]))
  }

  function CancelledDoc(doc: Doc, moves: seq<Move>): After
    requires Attached(doc, moves)
  {
    if doc.move.Some? then
      After(doc.(state := Cancelled, reversal := Some(|moves|)), moves + [Reversed(moves[doc.move.value])])
    else After(doc.(state := Cancelled), moves)
  }

  class Ledger {
    var moves: seq<Move>

    constructor ()
      ensures moves == []
    {
      moves := [];
    }
  }

  class Document {
    var form: Form
    var state: State
    var move: Option<nat>
    var reversal: Option<nat>

    constructor (form: Form)
      ensures Value() == Doc(form, Draft, None, None)
    {
      this.form, state, move, reversal := form, Draft, None, None;
    }

    function Value(): Doc
      reads this
    {
      Doc(form, state, move, reversal)
    }

    method Validate(ledger: Ledger) returns (failure: Option<Failure>)
      modifies this, ledger
      ensures match Validated(old(Value()), old(ledger.moves))
        case Ok(after) => failure == None && Value() == after.doc && ledger.moves == after.moves
        case Err(error) => failure == Some(error) && Value() == old(Value()) && ledger.moves == old(ledger.moves)
    {
      var r := PrepareMove(form);
      if r.Err? {
        return Some(r.error);
      }
      ledger.moves := ledger.moves + [r.value];
      state := Done;
      move := Some(|ledger.moves| - 1);
      failure := None;
    }

    method Cancel(ledger: Ledger)
      requires Attached(Value(), ledger.moves)
      modifies this, ledger
      ensures After(Value(), ledger.moves) == CancelledDoc(old(Value()), old(ledger.moves))
    {
      if move.Some? {
        CancelMove(ledger);
      }
      state := Cancelled;
    }

    /** Posts the reversal of the attached entry. */
    method CancelMove(ledger: Ledger)
      requires Attached(Value(), ledger.moves) && move.Some?
      modifies this`reversal, ledger
      ensures ledger.moves == old(ledger.moves) + [Reversed(old(ledger.moves)[move.value])]
      ensures reversal == Some(old(|ledger.moves|))
    {
      ghost var original := ledger.moves[move.value];
      var lines := CopyLines(ledger.moves[move.value]);
      SwitchDebitCredit(lines, original);
      var created: Move := [];
      for i := 0 to |lines|
        invariant created == Reversed(original)[..i]
      {
        created := created + [lines[i].Value()];
      }
      assert Reversed(original)[..|lines|] == Reversed(original);
      ledger.moves := ledger.moves + [created];
      reversal := Some(|ledger.moves| - 1);
    }

    method BackToDraft()
      modifies this
      ensures Value() == old(Value()).(state := Draft)
    {
      state := Draft;
    }
  }

  /* ---- runs over several documents ---- */

  datatype Book = Book(moves: seq<Move>, docs: seq<Doc>)

  datatype Step = Edit(k: nat, form: Form) | Validate(k: nat) | Cancel(k: nat) | BackToDraft(k: nat)

  predicate WellFormed(b: Book) {
    forall k :: 0 <= k < |b.docs| ==> Attached(b.docs[k], b.moves)
  }

  /** One action on one document; a failing one changes nothing. */
  function Apply(b: Book, step: Step): (r: Book)
    requires WellFormed(b)
    ensures WellFormed(r) && |r.docs| == |b.docs|
  {
    if step.k >= |b.docs| then b
    else
      var doc := b.docs[step.k];
      match step
      case Edit(k, form) => if doc.state == Draft then b.(docs := b.docs[k := doc.(form := form)]) else b
      case BackToDraft(k) => b.(docs := b.docs[k := doc.(state := Draft)])
      case Cancel(k) =>
        var after := CancelledDoc(doc, b.moves);
        Book(after.moves, b.docs[k := after.doc])
      case Validate(k) =>
        match Validated(doc, b.moves)
        case Ok(after) => Book(after.moves, b.docs[k := after.doc])
        case Err(_) => b
  }

  function LedgerTotal(moves: seq<Move>, account: nat): int {
    if moves == [] then 0 else LedgerTotal(moves[..|moves| - 1], account) + Net(moves[|moves| - 1], account)
  }

  /** What a document's entry contributes while the document is done. */
  function DoneOn(doc: Doc, moves: seq<Move>, account: nat): int
    requires Attached(doc, moves)
  {
    if doc.state == Done then Net(moves[doc.move.value], account) else 0
  }

  function DoneTotal(b: Book, account: nat, n: nat): int
    requires WellFormed(b) && n <= |b.docs|
  {
    if n == 0 then 0 else DoneTotal(b, account, n - 1) + DoneOn(b.docs[n - 1], b.moves, account)
  }

  /** Every account's total is the sum over the entries of the documents now done. */
  ghost predicate Clean(b: Book)
    requires WellFormed(b)
  {
    forall account: nat :: LedgerTotal(b.moves, account) == DoneTotal(b, account, |b.docs|)
  }

  /** The attached entry changes no account's total. */
  ghost predicate Neutral(doc: Doc, moves: seq<Move>)
    requires Attached(doc, moves) && doc.move.Some?
  {
    forall account: nat :: Net(moves[doc.move.value], account) == 0
  }

  /** The action fits the document's state: a done document is cancelled before anything
      else, and a document with an entry is cancelled only while done. */
  predicate Fits(b: Book, step: Step) {
    step.k < |b.docs| ==>
      var doc := b.docs[step.k];
      match step
      case Edit(_, _) => true
      case Validate(_) => doc.state != Done || Check(doc.form).Err?
      case Cancel(_) => doc.state == Done || doc.move == None
      case BackToDraft(_) => doc.state != Done
  }

  lemma LedgerTotalSnoc(moves: seq<Move>, move: Move, account: nat)
    ensures LedgerTotal(moves + [move], account) == LedgerTotal(moves, account) + Net(move, account)
  {
    assert (moves + [move])[..|moves|] == moves;
  }

  /** More entries leave what the documents contribute, and changing one document changes
      its contribution only. */
  lemma {:induction false} DoneTotalStep(b: Book, b': Book, k: nat, account: nat, n: nat)
    requires WellFormed(b) && WellFormed(b') && n <= |b.docs| == |b'.docs| && k < |b.docs|
    requires |b.moves| <= |b'.moves| && b'.moves[..|b.moves|] == b.moves
    requires forall j :: 0 <= j < |b.docs| && j != k ==> b'.docs[j] == b.docs[j]
    ensures DoneTotal(b', account, n)
      == DoneTotal(b, account, n)
      + if n <= k then 0 else DoneOn(b'.docs[k], b'.moves, account) - DoneOn(b.docs[k], b.moves, account)
  {
    if n > 0 {
      DoneTotalStep(b, b', k, account, n - 1);
      if n - 1 != k && b.docs[n - 1].state == Done {
        var m := b.docs[n - 1].move.value;
        assert b'.moves[m] == b'.moves[..|b.moves|][m];
      }
    }
  }

  /** By how much an action moves an account's total away from the documents done. */
  function Drift(b: Book, step: Step, account: nat): int
    requires WellFormed(b) && step.k < |b.docs|
  {
    var doc := b.docs[step.k];
    if Fits(b, step) then 0
    else
      var net := Net(b.moves[doc.move.value], account);
      if step.Cancel? then -net else net
  }

  lemma StepDrifts(b: Book, step: Step, account: nat)
    requires WellFormed(b) && step.k < |b.docs|
    ensures var b' := Apply(b, step);
      LedgerTotal(b'.moves, account) - DoneTotal(b', account, |b'.docs|)
      == LedgerTotal(b.moves, account) - DoneTotal(b, account, |b.docs|) + Drift(b, step, account)
  {
    hide LedgerTotal, DoneTotal, MoveOf, Reversed;
    var b', k := Apply(b, step), step.k;
    var doc := b.docs[k];
    DoneTotalStep(b, b', k, account, |b.docs|);
    if step.Cancel? && doc.move.Some? {
      LedgerTotalSnoc(b.moves, Reversed(b.moves[doc.move.value]), account);
      ReversedSums(b.moves[doc.move.value], account);
    } else if step.Validate? && Check(doc.form).Ok? {
      LedgerTotalSnoc(b.moves, MoveOf(doc.form, Check(doc.form).value), account);
    }
  }

  /** An action keeps every account's total equal to the documents done exactly if it
      fits the document's state, or the attached entry is neutral. */
  lemma StepKeepsClean(b: Book, step: Step)
    requires WellFormed(b) && Clean(b) && step.k < |b.docs|
    ensures !Fits(b, step) ==> b.docs[step.k].move.Some?
    ensures Clean(Apply(b, step)) <==> Fits(b, step) || Neutral(b.docs[step.k], b.moves)
  {
    var b' := Apply(b, step);
    forall account: nat
      ensures LedgerTotal(b'.moves, account) - DoneTotal(b', account, |b'.docs|) == Drift(b, step, account)
    {
      StepDrifts(b, step, account);
    }
    if !Fits(b, step) {
      var doc := b.docs[step.k];
      assert doc.move.Some?;
      if Clean(b') {
        forall account: nat
          ensures Net(b.moves[doc.move.value], account) == 0
        {
          assert LedgerTotal(b'.moves, account) == DoneTotal(b', account, |b'.docs|);
        }
      }
    }
  }

  function Run(b: Book, steps: seq<Step>): (r: Book)
    requires WellFormed(b)
    ensures WellFormed(r) && |r.docs| == |b.docs|
    decreases |steps|
  {
    if steps == [] then b else Run(Apply(b, steps[0]), steps[1..])
  }

  ghost predicate AllFit(b: Book, steps: seq<Step>)
    requires WellFormed(b)
    decreases |steps|
  {
    steps != [] ==> Fits(b, steps[0]) && AllFit(Apply(b, steps[0]), steps[1..])
  }

  ghost predicate AllBalanced(moves: seq<Move>) {
    forall k :: 0 <= k < |moves| ==> Balanced(moves[k])
  }

  /** Over every run of fitting actions on any number of documents, each account's total
      is the sum over the entries of the documents now done. */
  lemma {:induction false} RunKeepsClean(b: Book, steps: seq<Step>)
    requires WellFormed(b) && Clean(b) && AllFit(b, steps)
    ensures Clean(Run(b, steps))
    decreases |steps|
  {
    if steps != [] {
      if steps[0].k < |b.docs| {
        StepKeepsClean(b, steps[0]);
      }
      RunKeepsClean(Apply(b, steps[0]), steps[1..]);
    }
  }

  /** Over every run, fitting or not, every entry of the ledger balances and no entry is
      ever changed. */
  lemma {:induction false} RunKeepsBalance(b: Book, steps: seq<Step>)
    requires WellFormed(b) && AllBalanced(b.moves)
    ensures AllBalanced(Run(b, steps).moves)
    ensures |b.moves| <= |Run(b, steps).moves| && Run(b, steps).moves[..|b.moves|] == b.moves
    decreases |steps|
  {
    if steps != [] {
      var after := Apply(b, steps[0]);
      if steps[0].k < |b.docs| {
        StepBalances(b, steps[0]);
      }
      RunKeepsBalance(after, steps[1..]);
      var m := Run(after, steps[1..]).moves;
      assert m[..|b.moves|] == m[..|after.moves|][..|b.moves|];
    }
  }

  lemma StepBalances(b: Book, step: Step)
    requires WellFormed(b) && AllBalanced(b.moves) && step.k < |b.docs|
    ensures AllBalanced(Apply(b, step).moves)
    ensures |b.moves| <= |Apply(b, step).moves| && Apply(b, step).moves[..|b.moves|] == b.moves
  {
    var doc := b.docs[step.k];
    if step.Cancel? && doc.move.Some? {
      ReversalUndoes(b.moves[doc.move.value], 0);
    } else if step.Validate? && Check(doc.form).Ok? {
      ValidatedMove(doc.form, 0);
    }
  }

  /** Documents start as drafts without an entry, on an empty ledger. */
  lemma {:induction false} FreshIsClean(docs: seq<Doc>)
    requires forall k :: 0 <= k < |docs| ==> docs[k].state == Draft && docs[k].move == None
    ensures WellFormed(Book([], docs)) && Clean(Book([], docs))
  {
    forall account: nat
      ensures DoneTotal(Book([], docs), account, |docs|) == 0
    {
      NothingDone(Book([], docs), account, |docs|);
    }
  }

  lemma {:induction false} NothingDone(b: Book, account: nat, n: nat)
    requires WellFormed(b) && n <= |b.docs|
    requires forall k :: 0 <= k < |b.docs| ==> b.docs[k].state == Draft
    ensures DoneTotal(b, account, n) == 0
  {
    if n > 0 {
      NothingDone(b, account, n - 1);
    }
  }

  /** Cancelling a done document, sending it back to draft and cancelling it again takes
      its entry out of the accounts twice. */
  lemma SecondReversal(b: Book, k: nat, account: nat)
    requires WellFormed(b) && Clean(b) && k < |b.docs| && b.docs[k].state == Done
    ensures var r := Run(b, [Cancel(k), BackToDraft(k), Cancel(k)]);
      LedgerTotal(r.moves, account) == DoneTotal(r, account, |r.docs|) - Net(b.moves[b.docs[k].move.value], account)
  {
    hide DoneTotal, LedgerTotal;
    var steps := [Cancel(k), BackToDraft(k), Cancel(k)];
    var b1 := Apply(b, steps[0]);
    var b2 := Apply(b1, steps[1]);
    var b3 := Apply(b2, steps[2]);
    RunThree(b, steps);
    StepDrifts(b, steps[0], account);
    StepDrifts(b1, steps[1], account);
    StepDrifts(b2, steps[2], account);
    var m := b.docs[k].move.value;
    assert b2.docs[k].move == Some(m) && b2.docs[k].state == Draft && b2.moves[m] == b.moves[m];
    assert Drift(b, steps[0], account) == 0 && Drift(b1, steps[1], account) == 0;
  }

  lemma RunThree(b: Book, steps: seq<Step>)
    requires WellFormed(b) && |steps| == 3
    ensures Run(b, steps) == Apply(Apply(Apply(b, steps[0]), steps[1]), steps[2])
  {
    hide Apply;
    var s1, s2 := steps[1..], steps[2..];
    var b1 := Apply(b, steps[0]);
    var b2 := Apply(b1, steps[1]);
    assert s1[1..] == s2 && s2[1..] == [];
    assert s1[0] == steps[1] && s2[0] == steps[2];
    assert Run(b, steps) == Run(b1, s1) == Run(b2, s2) == Run(Apply(b2, steps[2]), []);
  }

  /** A payment of one line: after it is validated, cancelled, sent back to draft and
      cancelled again, the bank still shows its amount although no document is done. */
  lemma SecondReversalExample(line: nat, bank: nat, amount: int)
    requires line != bank && amount > 0
    ensures var form := Form([Transit(line, amount, 0)], [], amount, Bank(Some(bank)));
      var b := Book([], [Doc(form, Draft, None, None)]);
      && WellFormed(b) && Apply(b, Validate(0)).docs[0].state == Done
      && var r := Run(Apply(b, Validate(0)), [Cancel(0), BackToDraft(0), Cancel(0)]);
      LedgerTotal(r.moves, bank) == DoneTotal(r, bank, |r.docs|) + amount
  {
    hide DoneTotal, LedgerTotal, Run, Net;
    var form := Form([Transit(line, amount, 0)], [], amount, Bank(Some(bank)));
    var b := Book([], [Doc(form, Draft, None, None)]);
    FreshIsClean(b.docs);
    SinglePayment(form, line, bank, amount);
    var b1 := Apply(b, Validate(0));
    StepKeepsClean(b, Validate(0));
    SecondReversal(b1, 0, bank);
  }

  lemma SinglePayment(form: Form, line: nat, bank: nat, amount: int)
    requires line != bank && amount > 0 && form == Form([Transit(line, amount, 0)], [], amount, Bank(Some(bank)))
    ensures Check(form) == Ok(bank) && Net(MoveOf(form, bank), bank) == -amount
  {
    assert SumCredit(form.lines) == amount && CreditOn(form.lines, bank) == 0 by {
      assert form.lines[..0] == [];
    }
    assert SumDeducted(form.deductions) == 0;
    ValidatedMove(form, bank);
  }
}
