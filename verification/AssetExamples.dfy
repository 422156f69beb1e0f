/** Assets for which the engine does something one might not expect: the inputs that show
    that the exceptions named elsewhere occur. */
module AssetExamples {
  import opened Rounding
  import opened Calendar
  import opened Outcome
  import opened AssetTypes
  import opened AssetDates
  import opened AssetAmounts
  import opened AssetLines
  import opened AssetConservation
  import opened AssetBoard
  import opened BoardConservation
  import opened AssetDays
  import opened AssetTable
  import opened AssetYearly
  import opened AssetLedger

  const NEW_YEAR := Date(2015, 1, 1)

  /** A fiscal year, not closed, from a date to a date. */
  function Fiscal(start: Date, stop: Date): FiscalYear {
    FiscalYear(start, stop, false)
  }

  function SpanOf(fy: FiscalYear): Span {
    Span(Some(fy), fy.start, fy.stop, fy.done)
  }

  /** The first days and last days used, counted from the first. */
  lemma Days()
    ensures var d := NEW_YEAR.Ord();
      && Date(2015, 1, 15).Ord() == d + 14 && Date(2015, 1, 20).Ord() == d + 19
      && Date(2015, 12, 31).Ord() == d + 364
      && Date(2016, 1, 1).Ord() == d + 365 && Date(2016, 12, 31).Ord() == d + 730
      && Date(2017, 1, 1).Ord() == d + 731 && Date(2017, 12, 31).Ord() == d + 1095
      && Date(2018, 1, 1).Ord() == d + 1096
  {
    YearSpan(2015);
    YearSpan(2016);
    YearSpan(2017);
  }

  /* ---- frames of one and of two fiscal years ---- */

  /** An asset over a number of years, posted yearly and not pro rata. */
  function YearlyOver(number: nat, base: int, salvage: int, way: Method, progress: real, daysCalc: bool,
      start: Date): Asset {
    Asset(base, salvage, way, Years, number, Yearly, start, progress, false, daysCalc, start)
  }

  lemma FrameOfOne(a: Asset, fys: seq<FiscalYear>, fy: FiscalYear, stop: Date)
    requires a.Valid() && ValidYears(fys) && a.number > 0 && a.time == Years && a.period == Yearly
    requires Find(fys, a.dateStart.Ord()) == Some(fy) && StopDate(a, StartDate(a, SpanOf(fy))) == stop
    requires fy.start.Ord() <= stop.Ord() <= fy.stop.Ord()
    ensures FrameOf(a, fys) == Ok(Frame([SpanOf(fy)], [if a.daysCalc then stop.Ord() else fy.stop.Ord()],
                                        StartDate(a, SpanOf(fy)).Ord(), stop.Ord()))
  {
    hide Date.Ord, Find, StopDate, StartDate, NextDay, AddYears;
    var first, day := SpanOf(fy), stop.Ord();
    assert FirstYear(a, fys) == Ok(first);
    OneSpan(fys, first, day);
    SpansTile(fys, Yearly, day, first);
    OneDate(a, first, StartDate(a, first), day);
    hide FirstYear, Spans, LineDates;
  }

  lemma OneSpan(fys: seq<FiscalYear>, first: Span, day: int)
    requires ValidYears(fys) && first.Valid() && first.start.Ord() <= day <= first.stop.Ord()
    ensures Spans(fys, Yearly, day, first) == [first]
  {
    hide Date.Ord, Find;
    assert Spans(fys, Yearly, day, Following(fys, Yearly, first)) == [];
  }

  lemma OneDate(a: Asset, first: Span, start: Date, day: int)
    requires start.Valid() && Tiles([first], day) && a.period == Yearly && a.time == Years
    ensures LineDates(a, [first], start, day) == [if a.daysCalc then day else first.stop.Ord()]
  {
    hide Date.Ord;
    var run := DateRun(Yearly, [first], day, first.stop, 1);
    assert run == [first.stop.Ord()] && run[..0] == [];
  }

  lemma FrameOfTwo(a: Asset, fys: seq<FiscalYear>, fy: FiscalYear, fz: FiscalYear, stop: Date)
    requires a.Valid() && ValidYears(fys) && a.number > 0 && a.time == Years && a.period == Yearly && !a.daysCalc
    requires fy.Valid() && Find(fys, a.dateStart.Ord()) == Some(fy) && StopDate(a, StartDate(a, SpanOf(fy))) == stop
    requires Find(fys, NextDay(fy.stop).Ord()) == Some(fz) && NextDay(fy.stop) == fz.start
    requires fy.stop.Ord() < stop.Ord() <= fz.stop.Ord()
    ensures FrameOf(a, fys) == Ok(Frame([SpanOf(fy), SpanOf(fz)], [fy.stop.Ord(), fz.stop.Ord()],
                                        StartDate(a, SpanOf(fy)).Ord(), stop.Ord()))
  {
    hide Date.Ord, Find, StopDate, StartDate, NextDay, AddYears;
    var first, second, day := SpanOf(fy), SpanOf(fz), stop.Ord();
    assert FirstYear(a, fys) == Ok(first);
    assert Following(fys, Yearly, first) == second;
    assert Spans(fys, Yearly, day, Following(fys, Yearly, second)) == [];
    assert Spans(fys, Yearly, day, second) == [second];
    var spans := [first, second];
    assert Spans(fys, Yearly, day, first) == [first] + Spans(fys, Yearly, day, second) == spans;
    SpansTile(fys, Yearly, day, first);
    assert DateRun(Yearly, spans, day, fz.stop, 2) == [fz.stop.Ord()];
    var run := DateRun(Yearly, spans, day, fy.stop, 1);
    assert run == [fy.stop.Ord()] + DateRun(Yearly, spans, day, fz.stop, 2) == [fy.stop.Ord(), fz.stop.Ord()];
    assert run[..1] == [fy.stop.Ord()];
    assert LineDates(a, spans, StartDate(a, first), day) == [fy.stop.Ord()] + [fz.stop.Ord()];
  }

  lemma TableFrom(a: Asset, fys: seq<FiscalYear>, f: Frame, day: int, rows: seq<Row>, table: seq<Entry>)
    requires a.Valid() && ValidYears(fys) && a.number > 0 && FrameOf(a, fys) == Ok(f) && |f.dates| > 0
    requires forall k :: 0 <= k < |f.spans| ==> f.spans[k].Valid()
    requires DayAmount(a, f.stop - f.start + 1) == day && Rows(a, f.spans, 0, a.base, |f.dates|, day) == rows
    requires Spread(a, rows, 0, f.start, f.stop, f.dates, a.base, 0) == Ok(table)
    ensures Table(a, fys) == Ok(table)
  {
    hide FrameOf, Rows, Date.Ord, Framed, Spread, DayAmount;
    FrameOfFramed(a, fys);
  }

  lemma NoDayAmount(a: Asset, days: int)
    requires !a.daysCalc
    ensures DayAmount(a, days) == 0
  {}

  /* ---- a last year that spills over ---- */

  /** 1000 over two years, degressive with a factor of 2. */
  const SPILLING := YearlyOver(2, 1000, 0, Degressive, 2.0, false, NEW_YEAR)

  const FY2015 := Fiscal(NEW_YEAR, Date(2015, 12, 31))
  const FY2016 := Fiscal(Date(2016, 1, 1), Date(2016, 12, 31))

  lemma SpillingFrame()
    ensures SPILLING.Valid() && ValidYears([FY2015, FY2016])
    ensures var d := NEW_YEAR.Ord();
      FrameOf(SPILLING, [FY2015, FY2016]) == Ok(Frame([SpanOf(FY2015), SpanOf(FY2016)], [d + 364, d + 730], d, d + 730))
  {
    Days();
    var fys := [FY2015, FY2016];
    hide Date.Ord;
    assert Find(fys[1..], Date(2016, 1, 1).Ord()) == Some(FY2016);
    assert NextDay(FY2015.stop) == FY2016.start;
    assert MonthIndex(NEW_YEAR) == 12 * 2015;
    assert AddYears(NEW_YEAR, 2) == Date(2017, 1, 1);
    assert StartDate(SPILLING, SpanOf(FY2015)) == NEW_YEAR;
    assert StopDate(SPILLING, NEW_YEAR) == Date(2016, 12, 31);
    FrameOfTwo(SPILLING, fys, FY2015, FY2016, Date(2016, 12, 31));
  }

  /** The first year takes everything, though its uncut amount is 2000: it gets a line of
      2000 and, dated a year later, one of -1000. */
  lemma SpillingTable()
    ensures SPILLING.Valid() && ValidYears([FY2015, FY2016])
    ensures var d := NEW_YEAR.Ord();
      Table(SPILLING, [FY2015, FY2016])
      == Ok([Entry(Row(d, d + 364, false, 2000, 1000, 0),
                   [Line(d + 364, 365, 2000, 0, -1000), Line(d + 730, 366, -1000, 2000, 0)])])
  {
    hide FrameOf, Rows, Date.Ord, Spread, Table, DayAmount;
    SpillingFrame();
    var d, fys := NEW_YEAR.Ord(), [FY2015, FY2016];
    var f, row := FrameOf(SPILLING, fys).value, Row(d, d + 364, false, 2000, 1000, 0);
    SpillingRows(d);
    SpillingSpread(d);
    NoDayAmount(SPILLING, 731);
    TableFrom(SPILLING, fys, f, 0, [row],
      [Entry(row, [Line(d + 364, 365, 2000, 0, -1000), Line(d + 730, 366, -1000, 2000, 0)])]);
  }

  lemma SpillingRows(d: int)
    requires d == NEW_YEAR.Ord()
    ensures SPILLING.Valid() && SpanOf(FY2015).Valid() && SpanOf(FY2016).Valid()
    ensures Rows(SPILLING, [SpanOf(FY2015), SpanOf(FY2016)], 0, 1000, 2, 0) == [Row(d, d + 364, false, 2000, 1000, 0)]
  {
    Days();
    hide Date.Ord;
    var a := SPILLING;
    assert DurationFactor(a, SpanOf(FY2015), true) == 1.0;
    assert YearAmount(a, 1000) == 2000.0;
    ClampBounds(a, 2000.0, 1000.0);
    assert Scale(2000.0, 1.0) == 2000.0;
    assert FyAmount(a, 1.0, false, 1000) == 1000;
    assert Round(2000.0 / 1.0) == 2000;
    assert RowOf(a, SpanOf(FY2015), true, false, 1000, 2, 0) == Row(d, d + 364, false, 2000, 1000, 0);
  }

  lemma SpillingSpread(d: int)
    ensures var rows := [Row(d, d + 364, false, 2000, 1000, 0)]; var dates := [d + 364, d + 730];
      Spread(SPILLING, rows, 0, d, d + 730, dates, 1000, 0)
      == Ok([Entry(rows[0], [Line(d + 364, 365, 2000, 0, -1000), Line(d + 730, 366, -1000, 2000, 0)])])
  {
    var rows, dates := [Row(d, d + 364, false, 2000, 1000, 0)], [d + 364, d + 730];
    var y := YearAt(SPILLING, rows, 0, d + 730);
    var first := Start(y, d, 1000, 0);
    var one := AddLine(y, dates, 0, first);
    assert one == Run([Line(d + 364, 365, 2000, 0, -1000)], d + 365, -1000, 2000, 2000);
    var two := AddLine(y, dates, 1, one);
    assert two == Run([Line(d + 364, 365, 2000, 0, -1000), Line(d + 730, 366, -1000, 2000, 0)], d + 731, 0, 1000, 1000);
    assert !Breaks(y, dates, 0, first) && !Breaks(y, dates, 1, one);
    assert Walk(y, dates, 0, first) == Walk(y, dates, 1, one) == (two, 1);
    assert Settle(y, two) == Ok(two);
    assert Spread(SPILLING, rows, 1, d, d + 730, dates[1..], 0, 1000) == Ok([]);
    assert SpreadOne(y, dates, d, 1000, 0) == (Ok(two), 1);
    assert [Finish(rows[0], two.lines)] + [] == [Finish(rows[0], two.lines)];
  }

  /** The last year of this table spills over. */
  lemma SpillingSpills()
    ensures SPILLING.Valid() && ValidYears([FY2015, FY2016]) && FrameOf(SPILLING, [FY2015, FY2016]).Ok?
    ensures var f := FrameOf(SPILLING, [FY2015, FY2016]).value;
      Framed(SPILLING, f) && RowsOf(SPILLING, f) != [] && LastSpills(SPILLING, RowsOf(SPILLING, f), |f.dates|)
  {
    SpillingFrame();
    FrameOfFramed(SPILLING, [FY2015, FY2016]);
    SpillingRows(NEW_YEAR.Ord());
    hide FrameOf, Rows, Date.Ord, Framed;
    SpillsOfOne(Row(NEW_YEAR.Ord(), NEW_YEAR.Ord() + 364, false, 2000, 1000, 0));
    hide LastSpills;
  }

  lemma SpillsOfOne(row: Row)
    requires row.periodAmount == 2000
    ensures LastSpills(SPILLING, [row], 2)
  {
    assert [row][..0] == [];
  }

  /** Its schedule has both lines.  Post the first, on the last day of the table's last
      year, and the rebuild fails for want of a line to compensate. */
  lemma SpillingRebuildFails()
    ensures SPILLING.Valid() && ValidYears([FY2015, FY2016]) && Table(SPILLING, [FY2015, FY2016]).Ok?
    ensures var table, d := Table(SPILLING, [FY2015, FY2016]).value, NEW_YEAR.Ord();
      && Rebuild(SPILLING, table, Posted(0, 0, 0))
         == Ok([NewLine(1, d + 364, 365, 2000, false), NewLine(2, d + 730, 366, -1000, false)])
      && Rebuild(SPILLING, table, Posted(1, d + 364, 2000)) == Err(NoSuchTableLine)
  {
    SpillingTable();
    hide Table, Date.Ord;
    var table, d := Table(SPILLING, [FY2015, FY2016]).value, NEW_YEAR.Ord();
    var lines := table[0].lines;
    assert GroupSize(lines, d) == 0 && GroupLines(lines, d) == lines && Group(table, d) == table;
    var items := [Item(lines[0], false), Item(lines[1], false)];
    assert Tag(lines, false) == items && Tag(lines, false)[0..] == items && Items(table, 1) == [];
    assert ItemsFrom(table, 0, 0) == items + [] == items;
    assert items[1..] == [items[1]] && items[1..][1..] == [];
    var last := NewLine(2, d + 730, 366, -1000, false);
    assert Emit(items[1..], 1000, d + 730, 1, 2000) == [last] + Emit([], 1000, d + 730, 2, 1000) == [last];
    assert Emit(items, 1000, d + 730, 0, 0)
      == [NewLine(1, d + 364, 365, 2000, false)] + Emit(items[1..], 1000, d + 730, 1, 2000)
      == [NewLine(1, d + 364, 365, 2000, false), last];
    assert SPILLING.Depreciable() == 1000 && LastDate(table) == d + 730;
    BoardAtEndOfTable(SPILLING, table, Posted(1, d + 364, 2000));
  }

  /* ---- a limit method with salvage, posted to the end ---- */

  /** 1000 with a salvage of 100, linear to that limit, over one year. */
  const LIMITED := YearlyOver(1, 1000, 100, LinearLimit, 0.0, false, NEW_YEAR)

  lemma LimitedFrame()
    ensures LIMITED.Valid() && ValidYears([FY2015])
    ensures var d := NEW_YEAR.Ord(); FrameOf(LIMITED, [FY2015]) == Ok(Frame([SpanOf(FY2015)], [d + 364], d, d + 364))
  {
    Days();
    hide Date.Ord;
    assert MonthIndex(NEW_YEAR) == 12 * 2015;
    assert AddYears(NEW_YEAR, 1) == Date(2016, 1, 1);
    assert StopDate(LIMITED, StartDate(LIMITED, SpanOf(FY2015))) == Date(2015, 12, 31);
    FrameOfOne(LIMITED, [FY2015], FY2015, Date(2015, 12, 31));
  }

  lemma LimitedTable()
    ensures LIMITED.Valid() && ValidYears([FY2015])
    ensures var d := NEW_YEAR.Ord();
      Table(LIMITED, [FY2015]) == Ok([Entry(Row(d, d + 364, false, 900, 900, 0), [Line(d + 364, 365, 900, 0, 100)])])
  {
    hide FrameOf, Rows, Date.Ord, Spread, Table, DayAmount;
    LimitedFrame();
    var d := NEW_YEAR.Ord();
    var f, row := FrameOf(LIMITED, [FY2015]).value, Row(d, d + 364, false, 900, 900, 0);
    LimitedRows(d);
    LimitedSpread(d);
    NoDayAmount(LIMITED, 365);
    TableFrom(LIMITED, [FY2015], f, 0, [row], [Entry(row, [Line(d + 364, 365, 900, 0, 100)])]);
  }

  lemma LimitedRows(d: int)
    requires d == NEW_YEAR.Ord()
    ensures LIMITED.Valid() && SpanOf(FY2015).Valid()
    ensures Rows(LIMITED, [SpanOf(FY2015)], 0, 1000, 1, 0) == [Row(d, d + 364, false, 900, 900, 0)]
  {
    Days();
    hide Date.Ord, DurationFactor;
    var a := LIMITED;
    assert YearAmount(a, 1000) == 900.0;
    LastYearLeaves(a, 1000);
    assert Round(900.0 / 1.0) == 900;
    assert RowOf(a, SpanOf(FY2015), true, true, 1000, 1, 0) == Row(d, d + 364, false, 900, 900, 0);
    assert Rows(a, [SpanOf(FY2015)], 1, 100, 1, 0) == [];
  }

  lemma LimitedSpread(d: int)
    ensures var rows := [Row(d, d + 364, false, 900, 900, 0)];
      Spread(LIMITED, rows, 0, d, d + 364, [d + 364], 1000, 0)
        == Ok([Entry(rows[0], [Line(d + 364, 365, 900, 0, 100)])])
  {
    var rows, dates := [Row(d, d + 364, false, 900, 900, 0)], [d + 364];
    var y := YearAt(LIMITED, rows, 0, d + 364);
    var first := Start(y, d, 1000, 0);
    var one := AddLine(y, dates, 0, first);
    assert one == Run([Line(d + 364, 365, 1000, 0, 0)], d + 365, 0, 1000, 1000);
    assert !Breaks(y, dates, 0, first) && Walk(y, dates, 0, first) == (one, 0);
    var settled := Run([Line(d + 364, 365, 900, 0, 100)], d + 365, 100, 900, 900);
    assert one.lines[0 := Line(d + 364, 365, 900, 0, 100)] == settled.lines;
    assert Settle(y, one) == Ok(settled);
    assert SpreadOne(y, dates, d, 1000, 0) == (Ok(settled), 0);
    assert Spread(LIMITED, rows, 1, d, d + 364, dates[0..], 100, 900) == Ok([]);
    assert [Finish(rows[0], settled.lines)] + [] == [Finish(rows[0], settled.lines)];
  }

  /** Its one line is posted and 100 are left for good: the schedule is complete, and a
      rebuild is refused. */
  lemma LimitedRebuildRefused()
    ensures LIMITED.Valid() && ValidYears([FY2015]) && Table(LIMITED, [FY2015]).Ok?
    ensures var table, d := Table(LIMITED, [FY2015]).value, NEW_YEAR.Ord();
      && Rebuild(LIMITED, table, Posted(0, 0, 0)) == Ok([NewLine(1, d + 364, 365, 900, false)])
      && Rebuild(LIMITED, table, Posted(1, d + 364, 900)) == Err(DurationConflict)
      && var b := Book([DepreciationLine(0, None, d + 364, 365, 900, false, true)], 1, None, Open, []);
      ValueResidual(LIMITED, b) == 100 && RebuildBook(LIMITED, b, table) == Err(DurationConflict)
  {
    LimitedTable();
    hide Table, Date.Ord;
    var table, d := Table(LIMITED, [FY2015]).value, NEW_YEAR.Ord();
    var lines := table[0].lines;
    assert GroupSize(lines, d) == 0 && GroupLines(lines, d) == lines && Group(table, d) == table;
    var items := [Item(lines[0], false)];
    assert Tag(lines, false) == items && Tag(lines, false)[0..] == items && Items(table, 1) == [];
    assert ItemsFrom(table, 0, 0) == items + [] == items;
    assert Emit(items, 900, d + 364, 0, 0)
      == [NewLine(1, d + 364, 365, 900, false)] + Emit(items[1..], 900, d + 364, 1, 900)
      == [NewLine(1, d + 364, 365, 900, false)];
    assert LIMITED.Depreciable() == 900 && LastDate(table) == d + 364;
    var line := DepreciationLine(0, None, d + 364, 365, 900, false, true);
    assert [line][1..] == [] && SumCounted([line]) == 900;
    assert Kept([line]) == [line] && Latest([line]) == line;
  }

  /* ---- a fiscal year that starts in the middle of a month ---- */

  /** 365 over one year by days, in a fiscal year that starts on the 15th. */
  const MID_MONTH := YearlyOver(1, 365, 0, Linear, 0.0, true, Date(2015, 1, 20))

  const FY_MID := Fiscal(Date(2015, 1, 15), Date(2015, 12, 31))

  lemma MidMonthFrame()
    ensures MID_MONTH.Valid() && ValidYears([FY_MID])
    ensures var d := NEW_YEAR.Ord(); FrameOf(MID_MONTH, [FY_MID]) == Ok(Frame([SpanOf(FY_MID)], [d + 364], d, d + 364))
  {
    Days();
    hide Date.Ord;
    assert StartDate(MID_MONTH, SpanOf(FY_MID)) == NEW_YEAR;
    assert MonthIndex(NEW_YEAR) == 12 * 2015;
    assert AddYears(NEW_YEAR, 1) == Date(2016, 1, 1);
    assert StopDate(MID_MONTH, NEW_YEAR) == Date(2015, 12, 31);
    FrameOfOne(MID_MONTH, [FY_MID], FY_MID, Date(2015, 12, 31));
  }

  lemma OnePerDay()
    ensures DayAmount(MID_MONTH, 365) == 1
  {
    assert 365 as real / 365 as real == 1.0 && Round(1.0) == 1;
  }

  lemma MidMonthTable()
    ensures MID_MONTH.Valid() && ValidYears([FY_MID]) && DayAmount(MID_MONTH, 365) == 1
    ensures var d := NEW_YEAR.Ord();
      Table(MID_MONTH, [FY_MID])
        == Ok([Entry(Row(d + 14, d + 364, false, 365, 365, 1), [Line(d + 364, 351, 365, 0, 0)])])
  {
    hide FrameOf, Rows, Date.Ord, Spread, Table, DayAmount;
    MidMonthFrame();
    var d := NEW_YEAR.Ord();
    var f, row := FrameOf(MID_MONTH, [FY_MID]).value, Row(d + 14, d + 364, false, 365, 365, 1);
    OnePerDay();
    MidMonthRows(d);
    MidMonthSpread(d);
    TableFrom(MID_MONTH, [FY_MID], f, 1, [row], [Entry(row, [Line(d + 364, 351, 365, 0, 0)])]);
  }

  /** Depreciation spans 365 days, counted from the first of the month; the one line of the
      table has 351. */
  lemma MidMonthDays()
    ensures MID_MONTH.Valid() && ValidYears([FY_MID]) && FrameOf(MID_MONTH, [FY_MID]).Ok?
      && Table(MID_MONTH, [FY_MID]).Ok?
    ensures var f := FrameOf(MID_MONTH, [FY_MID]).value;
      f.stop - f.start + 1 == 365 && SumDays(Flatten(Table(MID_MONTH, [FY_MID]).value)) == 351
  {
    MidMonthFrame();
    MidMonthTable();
    hide FrameOf, Table, Date.Ord;
    var table := Table(MID_MONTH, [FY_MID]).value;
    var lines := table[0].lines;
    assert table[1..] == [] && Flatten(table) == lines + [] == lines && lines[1..] == [];
  }

  lemma MidMonthRows(d: int)
    requires d == NEW_YEAR.Ord()
    ensures MID_MONTH.Valid() && SpanOf(FY_MID).Valid()
    ensures Rows(MID_MONTH, [SpanOf(FY_MID)], 0, 365, 1, 1) == [Row(d + 14, d + 364, false, 365, 365, 1)]
  {
    Days();
    hide Date.Ord, DurationFactor;
    var a := MID_MONTH;
    assert YearAmount(a, 365) == 365.0;
    LastYearLeaves(a, 365);
    assert Round(365.0 / 1.0) == 365;
    assert RowOf(a, SpanOf(FY_MID), true, true, 365, 1, 1) == Row(d + 14, d + 364, false, 365, 365, 1);
  }

  lemma MidMonthSpread(d: int)
    ensures var rows := [Row(d + 14, d + 364, false, 365, 365, 1)];
      Spread(MID_MONTH, rows, 0, d, d + 364, [d + 364], 365, 0) == Ok([Entry(rows[0], [Line(d + 364, 351, 365, 0, 0)])])
  {
    var rows, dates := [Row(d + 14, d + 364, false, 365, 365, 1)], [d + 364];
    var y := YearAt(MID_MONTH, rows, 0, d + 364);
    var first := Start(y, d, 365, 0);
    var one := AddLine(y, dates, 0, first);
    assert one == Run([Line(d + 364, 351, 365, 0, 0)], d + 365, 0, 365, 365);
    assert !Breaks(y, dates, 0, first) && Walk(y, dates, 0, first) == (one, 0);
    assert Settle(y, one) == Ok(one) && SpreadOne(y, dates, d, 365, 0) == (Ok(one), 0);
    assert Spread(MID_MONTH, rows, 1, d, d + 364, dates[0..], 0, 365) == Ok([]);
    assert [Finish(rows[0], one.lines)] + [] == [Finish(rows[0], one.lines)];
  }

  /* ---- a limit method over a long fiscal year ---- */

  /** 1000 with a salvage of 100, degressive by one half to that limit, over three years of
      which the first two are one fiscal year. */
  const LONG_YEAR := YearlyOver(3, 1000, 100, DegressiveLimit, 0.5, false, NEW_YEAR)

  const FY_LONG := Fiscal(NEW_YEAR, Date(2016, 12, 31))
  const FY2017 := Fiscal(Date(2017, 1, 1), Date(2017, 12, 31))

  lemma LongYearFrame()
    ensures LONG_YEAR.Valid() && ValidYears([FY_LONG, FY2017])
    ensures var d := NEW_YEAR.Ord();
      FrameOf(LONG_YEAR, [FY_LONG, FY2017])
        == Ok(Frame([SpanOf(FY_LONG), SpanOf(FY2017)], [d + 730, d + 1095], d, d + 1095))
  {
    Days();
    var fys := [FY_LONG, FY2017];
    hide Date.Ord;
    assert Find(fys[1..], Date(2017, 1, 1).Ord()) == Some(FY2017);
    assert NextDay(FY_LONG.stop) == FY2017.start;
    assert MonthIndex(NEW_YEAR) == 12 * 2015;
    assert AddYears(NEW_YEAR, 3) == Date(2018, 1, 1);
    assert StartDate(LONG_YEAR, SpanOf(FY_LONG)) == NEW_YEAR;
    assert StopDate(LONG_YEAR, NEW_YEAR) == Date(2017, 12, 31);
    FrameOfTwo(LONG_YEAR, fys, FY_LONG, FY2017, Date(2017, 12, 31));
  }

  /** The double year takes everything, salvage included: the table does not keep it. */
  lemma LongYearLosesSalvage()
    ensures LONG_YEAR.Valid() && ValidYears([FY_LONG, FY2017]) && FrameOf(LONG_YEAR, [FY_LONG, FY2017]).Ok?
    ensures var f := FrameOf(LONG_YEAR, [FY_LONG, FY2017]).value;
      && Framed(LONG_YEAR, f) && LONG_YEAR.Depreciable() == 900
      && SumFy(RowsOf(LONG_YEAR, f)) == 1000 && !KeepsSalvage(LONG_YEAR, RowsOf(LONG_YEAR, f), f.spans)
  {
    LongYearFrame();
    FrameOfFramed(LONG_YEAR, [FY_LONG, FY2017]);
    LongYearRows();
    hide FrameOf, Rows, Date.Ord;
  }

  lemma LongYearRows()
    ensures LONG_YEAR.Valid() && SpanOf(FY_LONG).Valid() && SpanOf(FY2017).Valid()
    ensures var rows := Rows(LONG_YEAR, [SpanOf(FY_LONG), SpanOf(FY2017)], 0, 1000, 2, 0);
      |rows| == 1 && SumFy(rows) == 1000
  {
    Days();
    hide Date.Ord;
    var a := LONG_YEAR;
    assert DurationFactor(a, SpanOf(FY_LONG), true) == 2.0;
    assert YearAmount(a, 1000) == 500.0;
    assert Scale(500.0, 2.0) == 1000.0;
    ClampBounds(a, 1000.0, 1000.0);
    assert FyAmount(a, 2.0, false, 1000) == 1000;
    var row := RowOf(a, SpanOf(FY_LONG), true, false, 1000, 2, 0);
    assert row.fyAmount == 1000;
    assert Rows(a, [SpanOf(FY_LONG), SpanOf(FY2017)], 0, 1000, 2, 0) == [row];
    assert [row][1..] == [];
  }
}
