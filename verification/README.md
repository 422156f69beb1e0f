# Verified model of the accounting add-ons

This project models the parts of the accounting add-ons that compute: what is
depreciated when, how a payment is split over open items, which class answers a
request, how totals roll up, how an amount is spelled, and what documents leave
behind in the ledger. Amounts that the program keeps rounded are integers counted
in minor units; amounts it has not rounded yet are reals in the same unit. Dates are
Gregorian dates with a consecutive day number.

Where the program changes objects or lists step by step, the model has a method or
a class with the same steps, proved equal to a function of its inputs or of the
state before; the properties are then proved of that function.

## What is modelled

**Fixed assets** (`Asset*`, `Board*`, `Calendar`, `Rounding`). A depreciation table
is computed in four stages: the fiscal years the asset lives through
(`AssetDates`), a rounded amount for each year under five methods
(`AssetAmounts`), lines on posting dates with the rounding settled in each year's
last line (`AssetLines`), and the rebuild of the stored schedule against what is
already posted (`AssetBoard`). What each stage computes is said in plain terms in
`AssetPosting` (dates), `AssetYearAmounts` (years), `AssetLineAmounts` (lines) and
`AssetSchedule` (created lines). `AssetConservation`, `AssetTiling`, `AssetDays`,
`BoardConservation`, `BoardStability` and `AssetTheorems` hold the laws proved of
them; `AssetYearly`, `AssetPeriodic`, `AssetMonthEnds` and `AssetCounted` carry it from
an asset and its fiscal years to the end, for yearly, monthly or quarterly posting and
for equal entries, and `AssetExamples` and `AssetEarlyStop` compute some tables.
`AssetLedger` and `AssetRemoval` follow one asset through postings, rebuilds and a
removal, with every journal item and every account; `AssetRecord` is the object that
does this in place; `AssetStability` is stability of the stored lines and their links.

**Depreciation lines** (`RunningValues`, `CompoundMove`). The running values kept on
the lines, and the journal entry that merges many lines into one.

**Asset spreadsheets** (`AssetSpreadsheet`). Rows with ancestors inserted on demand,
sum formulas on view rows, and the total cell.

**Voucher allocation** (`VoucherAllocation`). The two passes that split a voucher's
amount over open items.

**Connector backends** (`BackendRegistry`). Registration of classes that replace one
another, lookup through replacements, and fallback to parents.

**Financial reports** (`ReportWalk`, `ReportRollUp`). The nested list of accounts and
the deepest-first pass that totals view accounts.

**Thai amounts** (`ThaiNumber`). The printer of amounts in words and its inverse.

**Bank payments** (`BankPayment`). Documents with deductions, validated, cancelled by
reversal and sent back to draft over one ledger.

## Results that differ from what one would expect

- A rebuild is not always stable. A fiscal year that uses up everything, or its
  degressive-linear amount, before its posting dates end hands those dates on, and the
  next year starts with lines dated before it. Post such a line last and rebuild: it is
  created again, after the year before it took back the difference. This happens even
  if all fiscal years end on posting dates (`AssetEarlyStop.RoundedRepeats`), and with
  ordinary amounts when a fiscal year is short (`AssetEarlyStop.ChangedRepeats`). Before
  the last date and off the end of the table's last year the unposted lines come back if
  and only if the last posted line lies in its own fiscal year, or is the first line of
  a year dated on the last day of the year before (`AssetTheorems.AssetIsStable`). When
  every year lasts through its dates (`AssetMonthEnds.YearsAssetIsStable`), and for
  assets depreciated by entries or, with the other four methods, by days
  (`AssetCounted.UnsettledAssetIsStable`), that is always so. The first such line of a
  year has no positive number of days, as they are counted from the start of its year.
- A yearly table does not always have one line per fiscal year. When everything is
  used up exactly one fiscal year early, the last year's amount before it is settled is
  not what was left then, and the degressive-linear method does not stop there because
  that amount exceeds the year's, that year gets a second line in the following year
  (`AssetYearly.YearlyTable` gives the exact condition, for all methods;
  `AssetExamples.SpillingTable` an asset).
- The two limit methods lose their salvage if it does not lie in the direction of the
  base, or if a long fiscal year uses up everything early
  (`AssetAmounts.YearsUseDepreciable`, `AssetExamples.LongYearLosesSalvage`).
- An asset with a number of entries can have a last fiscal year that lies after its
  last posting date and repeats that date; the repeated line is never created
  (`BoardStability.OnLastDate`), so stability is not affected.
- After a posted entry dated on the last day of the table's last year, with a table
  line still to come, a rebuild fails unless the posted total is already exactly what
  the table depreciates (`BoardConservation.BoardAtEndOfTable`,
  `AssetExamples.SpillingRebuildFails`).
- After a line posted before the first year of the table a rebuild creates only the
  table's last line, with everything that is left (`AssetSchedule.PostedBeforeTable`).
- A schedule posted to its end can be rebuilt only if nothing is left: with a limit
  method and a salvage value the rebuild is refused (`AssetStability.BookIsStable`,
  `AssetExamples.LimitedRebuildRefused`).
- Line days cover the asset's life exactly if depreciation starts within the first
  fiscal year, which fails for a fiscal year that starts in the middle of a month
  (`AssetTheorems.DaysTileAndRoundingBound`, `AssetExamples.MidMonthDays`).
- Writing the amount of a depreciation line recomputes that line only; later lines
  keep stale running values unless the amount did not change
  (`RunningValues.WriteAmount`). Also, the filter that should leave out lines being
  deleted has no effect, because its result is overwritten
  (account_asset_management/models/account_asset_line.py:79-84); the model follows the
  code.
- With partly reconciled items a voucher can settle more than its amount; the exact
  condition is `VoucherAllocation.NetExceedsPrice`.
- A registration refused for an unknown class still answers, in place of what it was
  attached to before the failure, if and only if it matches and the first class it
  names is registered (`BackendRegistry.RefusalChanges`).
- Cancelling a payment that was cancelled before and sent back to draft posts its
  reversal again, because the entry stays attached
  (`BankPayment.StepKeepsClean` gives the exact condition for every action).
- Deductions of a bank payment that cancel out are not posted
  (`BankPayment.DeductionsLeftOut`).

## Model

| member | source | states |
|---|---|---|
| Rounding.RoundBetween | account_asset_management/models/account_asset.py:1011-1012 | rounding to the accounting precision never leaves a range of whole amounts that holds the value |
| Rounding.RoundNegates | account_asset_management/models/account_asset.py:1011-1012 | halves are rounded away from zero, alike on both sides |
| Calendar.AddMonths | account_asset_management/models/account_asset.py:783-786 | moving a date by months lands in the month that many months away, on the same day or, if the month is too short, on its last day |
| Calendar.MonthEnd | account_asset_management/models/account_asset.py:772-784 | day 31 means the last day of the same month: no later day of that month exists |
| Calendar.YearSpan | account_asset_management/models/account_asset.py:612-613 | day numbers agree with the calendar: a year is 365 or 366 numbers long and its months add up to it |
| AssetDates.FirstYear | account_asset_management/models/account_asset.py:907-948 | the year the asset starts in holds its start date, or for an extrapolated year ends at most the day before it (29 February); a year is extrapolated only before all defined fiscal years |
| AssetDates.StopAfterStart | account_asset_management/models/account_asset.py:672-708 | an asset with periods never stops before it starts, nor before its first fiscal year starts |
| AssetDates.BuildSpans | account_asset_management/models/account_asset.py:954-972 | the loop that lists fiscal years terminates and lists exactly the years starting no later than the stop date |
| AssetDates.SpansTile | account_asset_management/models/account_asset.py:954-972 | the years are contiguous, without gap or overlap, and cover everything up to the stop date |
| AssetDates.DayInOneSpan | account_asset_management/models/account_asset.py:954-972 | every covered day lies in exactly one of the years |
| AssetDates.NextDate | account_asset_management/models/account_asset.py:781-789 | the next posting date is later, and for yearly posting it is the end of a year that exists: the table is never read past its end |
| AssetDates.ComputeLineDates | account_asset_management/models/account_asset.py:760-799 | the loop over posting dates produces the run of dates, its last one replaced or left out as days calculation and the number of periods ask |
| AssetDates.RunReaches | account_asset_management/models/account_asset.py:780-789 | posting dates increase strictly; all but the last precede the stop date and the last reaches it |
| AssetDates.LineDatesReach | account_asset_management/models/account_asset.py:760-799 | the same for the dates finally used: the last one reaches the stop date, exactly when days are counted, if and only if no date was left out; one is left out exactly when the asset already has its number of dates |
| AssetDates.YearlyRun | account_asset_management/models/account_asset.py:777-789 | with yearly posting there is one date per fiscal year, its last day |
| AssetPosting.PostingMonths | account_asset_management/models/account_asset.py:760-799 | monthly and quarterly posting dates are the last days of months, for quarterly posting of March, June, September or December, exactly one period apart from the first that does not end before the start; a last date set to the stop date may differ. A number of entries gives that many dates; a number of years gives 12 or 4 a year, and one more exactly if the asset does not start on the first day of a period |
| AssetPosting.FirstYearIs | account_asset_management/models/account_asset.py:907-948 | the first year is a defined one around the start date, or the one counted back in whole years from the defined year that ends first; there is none exactly if no defined year contains the date and that one starts before it, or none is defined |
| AssetPosting.FrameLife | account_asset_management/models/account_asset.py:672-708 | an asset starts on its start date if pro rata and otherwise on the first of the month its first fiscal year starts in; it stops on its ending date, or the day before its number of whole years is over |
| AssetPosting.SpansFollow | account_asset_management/models/account_asset.py:960-972 | which fiscal year comes next: the defined one around its first day, if any, with its own end and state only for yearly posting; otherwise a calendar year |
| AssetAmounts.ComputeYearsOf | account_asset_management/models/account_asset.py:614-633 | the running sum over calendar years measures a fiscal year in years, leap years included |
| AssetAmounts.FactorNotNegative | account_asset_management/models/account_asset.py:635-670 | the correction for long and short fiscal years is never negative |
| AssetYearAmounts.YearsOfAdds | account_asset_management/models/account_asset.py:605-633 | the length of a fiscal year is additive over adjacent years, and a calendar year counts one, leap or not |
| AssetYearAmounts.FactorMeans | account_asset_management/models/account_asset.py:635-670 | what a year counts for, by case: months touched over twelve, its length, or the share of its days from the start on |
| AssetAmounts.YearAmountBounds | account_asset_management/models/account_asset.py:723-758 | under all five methods the yearly amount is in the direction of the base, whatever its sign, and the limit methods never go below salvage |
| AssetYearAmounts.YearYields | account_asset_management/models/account_asset.py:723-758 | a full year yields: linear, the share of which the number of years makes up the base; degressive, the factor of what is left; degressive-linear, the larger of both but at most what is left; the limit methods, the smaller of that and what is above salvage |
| AssetAmounts.FyAmountBounds | account_asset_management/models/account_asset.py:999-1012 | the rounded and clamped amount of a year takes from what is left and leaves the floor (salvage or zero), for bases of either sign; the last year takes exactly what is above the floor |
| AssetAmounts.ComputeRows | account_asset_management/models/account_asset.py:989-1031 | the loop over fiscal years, which ends early when nothing is left, computes the years' amounts |
| AssetYearAmounts.RowsYield | account_asset_management/models/account_asset.py:989-1031 | every row, from what the rows before it leave: its amount is that of a full year times the length of the year, at most what is left, to the nearest unit, and in the last fiscal year all that is left but the salvage; its period amount is that over 1, 4 or 12 |
| AssetYearAmounts.RowsAreSpans | account_asset_management/models/account_asset.py:954-1025 | the rows are the fiscal years in order, with their dates and initial-balance state and the day amount |
| AssetYearAmounts.DegressiveLeaves | account_asset_management/models/account_asset.py:742-745 | in full years the degressive method leaves the base times a power of what a year leaves, within half a unit a year |
| AssetAmounts.RowsUseResidual | account_asset_management/models/account_asset.py:989-1031 | from any year on, the amounts of the years left use up the residual exactly down to the floor, for bases of either sign |
| AssetAmounts.ResidualDescends | account_asset_management/models/account_asset.py:989-1031 | seen in the direction of the base the yearly residual never rises, never leaves the range from the floor to the base, and ends at the floor: all years together depreciate exactly the depreciable amount |
| AssetAmounts.RowsTotal | account_asset_management/models/account_asset.py:989-1031 | for every asset of the year method, any sign and any length of years: the yearly amounts add up to the residual, less what the last fiscal year leaves if the table comes to it |
| AssetAmounts.YearsUseDepreciable | account_asset_management/models/account_asset.py:999-1031 | the yearly amounts add up to the depreciable amount if and only if the salvage lies in the direction of the base and no earlier year uses up everything |
| AssetAmounts.SoundKeepsSalvage | account_asset_management/models/account_asset.py:999-1031 | an asset with sensible parameters over years of ordinary length meets that condition |
| AssetLines.SpreadYear | account_asset_management/models/account_asset.py:812-893 | the loop over the dates of one year, with its breaks and settlement, does one year of the table |
| AssetLines.ComputeLines | account_asset_management/models/account_asset.py:801-898 | the nested loops, which slice the dates left and drop an empty last year, compute all lines of the table or fail |
| AssetLineAmounts.YearLines | account_asset_management/models/account_asset.py:710-721 | the lines of the year method: the period amount in every line but a year's last, which takes the rest of the year; the first line of a pro rata asset takes the year less a period amount for every other posting date of it, so if all of these are taken nothing is left to settle |
| AssetLineAmounts.TableYields | account_asset_management/models/account_asset.py:985-1031 | the years of the computed table are the fiscal years with the amounts their method yields |
| AssetLineAmounts.EqualLines | account_asset_management/models/account_asset.py:1013-1019 | with entries or an ending date all lines but the very last are the base over the number of entries or dates, to the nearest unit; a fiscal year's amount is that of its lines |
| AssetConservation.ChainAt | account_asset_management/models/account_asset.py:852-868 | in a chain of lines the value remaining after a line is the base less all lines so far |
| AssetConservation.SettleAgrees | account_asset_management/models/account_asset.py:878-887 | settling the rounding difference in a year's last line makes the year's lines add up to the year's amount and keeps the running values right |
| AssetConservation.SpreadConserves | account_asset_management/models/account_asset.py:801-898 | for every method and all dates, each line satisfies depreciated + amount + remaining = base, and when years are settled their lines add up to the years' amounts |
| AssetTiling.WalkDated | account_asset_management/models/account_asset.py:817-837 | a year takes a stretch of the dates left, in order, and hands on the first date it did not take |
| AssetTiling.SpreadLaid | account_asset_management/models/account_asset.py:801-898 | every table, for all methods and any fiscal years: contiguous years with a line each, lines on the first dates left, rising to the last date, none beyond its year but possibly the very last |
| AssetTiling.UnsettledHandsOn | account_asset_management/models/account_asset.py:817-888 | in a table whose years are not settled, a year that is followed by another takes all of its dates |
| AssetDays.SpreadDays | account_asset_management/models/account_asset.py:817-868 | over such years the lines' days count every day between the first and the last date once, and all lines but the last are their days times the day rate |
| AssetBoard.GroupEarlyLines | account_asset_management/models/account_asset.py:485-505 | lines before the asset's start are merged into the first line from the start on |
| AssetSchedule.GroupMerges | account_asset_management/models/account_asset.py:485-505 | if the first line is before the start date, all lines up to the first that is not (or to the last of the year) become one of its date with the sum of their amounts; nothing else of the table changes, and nothing at all otherwise |
| AssetBoard.FindPosition | account_asset_management/models/account_asset.py:519-539 | the two searches find the position after the last posted date and the residual expected there |
| AssetBoard.EmitConcat | account_asset_management/models/account_asset.py:558-591 | creating lines over a stretch and then over the rest is creating them over both, with number and total carried on |
| AssetBoard.CreateYear | account_asset_management/models/account_asset.py:563-590 | the inner loop creates the lines of one year: zero amounts are skipped and the line on the table's last date takes all that is left |
| AssetBoard.CreateOnward | account_asset_management/models/account_asset.py:558-591 | the outer loop continues through the years, the first one from the position found |
| AssetBoard.RebuildLines | account_asset_management/models/account_asset.py:485-591 | the whole rebuild: grouping, date check, deviation compensated in the first open line, and the new lines |
| AssetSchedule.ScheduleFromStart | account_asset_management/models/account_asset.py:485-591 | with nothing posted: the first created line takes everything up to the first table line from the start on, and no created line is dated before the start unless no line of the first year reaches it |
| AssetSchedule.ScheduleMakes | account_asset_management/models/account_asset.py:558-591 | the created lines one by one: in order, numbered on, each with the date, days, flag and amount of its table line, or the rest on the last date; every table line with an amount has one |
| AssetSchedule.AssetFromStart | account_asset_management/models/account_asset.py:485-591 | from any asset and fiscal years: where the schedule starts and with what amount |
| AssetSchedule.DeviationAbsorbed | account_asset_management/models/account_asset.py:541-552 | whatever amounts were posted for the first lines of a schedule, the next line takes off the deviation and the lines after it come back unchanged |
| AssetSchedule.PostedBeforeTable | account_asset_management/models/account_asset.py:519-591 | after a line posted before the first year of the table the rebuild skips to the table's last line, which takes everything left |
| BoardConservation.LocateInside | account_asset_management/models/account_asset.py:519-539 | the position found lies inside the table, except exactly when the last posted date is the end of the table's last year |
| BoardConservation.BoardConserves | account_asset_management/models/account_asset.py:485-591 | posted amounts plus new lines are exactly the depreciable amount, whatever was posted, with grouping, compensation and skipped lines included |
| BoardConservation.BoardAtEndOfTable | account_asset_management/models/account_asset.py:525-552 | in the excepted case the rebuild completes if and only if the posted total is what the table depreciates |
| BoardConservation.CompletedBoardConserves | account_asset_management/models/account_asset.py:485-591 | a rebuild that completes conserves the depreciable amount if and only if the table leaves what may not be depreciated, or the last posted date is not the end of its last year |
| BoardStability.LocateInYear | account_asset_management/models/account_asset.py:519-539 | after a line in its own year, before the last date and off the end of the last year, the position found is the next line and the residual expected is what the line leaves |
| BoardStability.LocateEarly | account_asset_management/models/account_asset.py:519-539 | after a line dated before its year the position found is at most the line itself, and is the line itself exactly if it is the first of its year dated on the last day of the year before |
| BoardStability.OnLastDate | account_asset_management/models/account_asset.py:566-576 | the first line on the table's last date takes all that is left, and lines that repeat the date create nothing |
| BoardStability.EmitIncreasing | account_asset_management/models/account_asset.py:558-591 | created lines are on strictly increasing dates, also when the table repeats its last date |
| BoardStability.OnwardsFirst | account_asset_management/models/account_asset.py:519-552 | a first line dated on the last day of the year before is found again, compensated to zero and left out, so exactly the unposted lines come back |
| BoardStability.OnwardsAgain | account_asset_management/models/account_asset.py:519-591 | a posted line that is not in place is created again, with its date and amount |
| BoardStability.RebuildIsStable | account_asset_management/models/account_asset.py:455-593 | build a schedule, post any number of its first lines, rebuild: exactly the unposted lines come back with the same dates, days, amounts and numbers (the exceptions given exactly) if and only if the last posted line is in place; otherwise that line is created again |
| AssetTable.FrameOfFramed | account_asset_management/models/account_asset.py:907-982 | for every asset and all defined fiscal years: the years tile the asset's life and the posting dates increase up to the stop date |
| AssetTheorems.ComputeTable | account_asset_management/models/account_asset.py:900-1040 | the table is computed step by step from the asset and the fiscal years |
| AssetTheorems.TableConserves | account_asset_management/models/account_asset.py:801-898 | for the year method without day calculation, any sign of the base and any length of years: every line's running values make up the base, each year's lines its amount, and the table the depreciable amount if and only if it keeps the salvage |
| AssetTheorems.FrameKeepsSalvage | account_asset_management/models/account_asset.py:999-1031 | an asset with sensible parameters, over fiscal years that count for one at most, keeps its salvage, so its table depreciates the depreciable amount |
| AssetTheorems.ScheduleConserves | account_asset_management/models/account_asset.py:485-591 | whatever was posted, a rebuild that completes brings the total to the depreciable amount, if and only if the table keeps the salvage or the last posted date is not the end of its last year |
| AssetTheorems.TableLaid | account_asset_management/models/account_asset.py:801-898 | every computed table has the shape stability is proved for, whatever the method, the time method and the fiscal years |
| AssetTheorems.ScheduleIsStable | account_asset_management/models/account_asset.py:455-593 | for every computed table, with the exact condition per posted line: a partly posted schedule is rebuilt to exactly its unposted lines if and only if the last posted line lies in its own fiscal year, or is the first of a year dated on the last day of the year before |
| AssetTheorems.AlignedTableInYears | account_asset_management/models/account_asset.py:817-837 | if the fiscal years of the table end on posting dates, each year starts in itself, so every line is in place |
| AssetTheorems.UnsettledTableInYears | account_asset_management/models/account_asset.py:817-888 | so they do, over any fiscal years, when years are not settled: by entries, up to an ending date, or by days |
| AssetTheorems.InYearsIsStable | account_asset_management/models/account_asset.py:455-593 | if every year starts in itself, the unposted lines come back whatever was posted first |
| AssetTheorems.AssetIsStable | account_asset_management/models/account_asset.py:455-1040 | end to end from any asset and any defined fiscal years: stability of the schedule, with its exact condition |
| AssetTheorems.RateOff | account_asset_management/models/account_asset.py:984-987 | a rounded day rate is off by at most half a minor unit per day over the whole span |
| AssetTheorems.DaysTileAndRoundingBound | account_asset_management/models/account_asset.py:794-868 | with day calculation every line but the last is days times rate; the days tile the span if and only if depreciation starts within the first year, and then the last line is off by at most half a minor unit per day; for every time method |
| AssetYearly.FrameIsYearly | account_asset_management/models/account_asset.py:760-799 | with yearly posting the dates are the last days of the fiscal years |
| AssetYearly.YearlyTable | account_asset_management/models/account_asset.py:801-898 | a yearly table is always completed, one line per year on its last day with its amount; the exact condition for the one case in which the last year spills over, and the two lines it then has |
| AssetYearly.YearlyAssetConserves | account_asset_management/models/account_asset.py:455-1040 | from any asset posted yearly and any defined fiscal years: a table is always computed and adds up; it and every completed rebuild conserve the depreciable amount under exact conditions |
| AssetYearly.YearlyAssetIsStable | account_asset_management/models/account_asset.py:455-593 | end to end for yearly posting: a partly posted schedule is rebuilt to exactly its unposted lines, always if the last year does not spill over, and with an exactly given exception if it does |
| AssetPeriodic.PeriodicYearEnds | account_asset_management/models/account_asset.py:817-868 | a fiscal year that is not the last hands on only later dates, and ends on its last day if that is a posting date, if and only if nothing stops it before its dates end: nothing left, or the degressive-linear amount used up |
| AssetPeriodic.PeriodicTable | account_asset_management/models/account_asset.py:801-898 | for all five methods, any period and any sign: over fiscal years that hold posting dates the table is always computed; its years start in themselves if and only if those before last through their dates, and over aligned fiscal years exactly then end on posting dates |
| AssetMonthEnds.FrameStopsPosted | account_asset_management/models/account_asset.py:772-789 | if the first fiscal year ends with a month other than February, and for quarterly posting with a quarter, every fiscal year ends on a posting date |
| AssetMonthEnds.FrameYearsPosted | account_asset_management/models/account_asset.py:765-789 | every fiscal year that ends before the stop date holds a posting date, if the first posting date lies in the first fiscal year |
| AssetMonthEnds.YearsTable | account_asset_management/models/account_asset.py:801-1040 | from an asset of the year method, with any period and any fiscal years: a table is computed if and only if the first posting date lies in the first fiscal year (or there is one year and one date); then it adds up, and if its years last each starts in itself |
| AssetMonthEnds.YearsAssetIsStable | account_asset_management/models/account_asset.py:455-593 | end to end for yearly, quarterly and monthly posting: when years last through their dates a partly posted schedule is rebuilt to exactly its unposted lines |
| AssetCounted.UnsettledYearsEnd | account_asset_management/models/account_asset.py:817-888 | by entries or by days, over fiscal years that end on posting dates: so do those of the table |
| AssetCounted.UnsettledAssetIsStable | account_asset_management/models/account_asset.py:455-593 | end to end over any fiscal years, for assets depreciated by a number of entries, up to an ending date, or by days: a partly posted schedule is rebuilt to exactly its unposted lines |
| AssetCounted.CountedTable | account_asset_management/models/account_asset.py:801-898 | with equal entries, over fiscal years that hold posting dates: the table is computed if and only if something is left at the start of the last fiscal year but one |
| AssetCounted.CountedAssetTable | account_asset_management/models/account_asset.py:801-1019 | end to end with equal entries, by number or up to an ending date, over any fiscal years: exactly when a table is computed |
| AssetExamples.SpillingTable | account_asset_management/models/account_asset.py:839-887 | the table of an asset whose last year spills over, computed from the asset and two fiscal years: one year with two lines |
| AssetExamples.SpillingSpills | account_asset_management/models/account_asset.py:839-887 | that asset meets the exact condition for a second line |
| AssetExamples.SpillingRebuildFails | account_asset_management/models/account_asset.py:525-552 | after the first of these lines is posted the rebuild fails for want of a line to compensate |
| AssetExamples.LimitedRebuildRefused | account_asset_management/models/account_asset.py:513-517 | a limit method with salvage, posted to the end: the rebuild is refused |
| AssetExamples.MidMonthDays | account_asset_management/models/account_asset.py:672-684 | a fiscal year that starts in the middle of a month: the line counts 351 of 365 days |
| AssetExamples.LongYearLosesSalvage | account_asset_management/models/account_asset.py:1004-1010 | a limit method over a fiscal year of 24 months depreciates its salvage too |
| AssetEarlyStop.EvenYear | account_asset_management/models/account_asset.py:817-888 | a year of equal lines stops exactly where its amount, its dates or the asset are used up, and its last line is settled to the rest of its amount |
| AssetEarlyStop.RoundedRepeats | account_asset_management/models/account_asset.py:519-591 | 12 over two years, degressive-linear: after seven posted lines a rebuild takes back 1 in July and creates the line of August again |
| AssetEarlyStop.ChangedRepeats | account_asset_management/models/account_asset.py:519-591 | 120000 over four years and a fiscal year of six months: after 19 posted lines a rebuild takes back 2500 in July 2016 and creates the line of August again |
| AssetEarlyStop.LastingIsStable | account_asset_management/models/account_asset.py:455-593 | an asset whose years last: whatever is posted first, the unposted lines come back |
| AssetLedger.PostKeeps | account_asset_management/models/account_asset_line.py:225-259 | posting a line keeps the books consistent and takes its amount off the residual |
| AssetLedger.DepreciationMoveBalances | account_asset_management/models/account_asset_line.py:196-223 | the move of a line of either sign balances and moves the amount from expense to accumulated depreciation |
| AssetLedger.RebuildKeeps | account_asset_management/models/account_asset.py:455-593 | a rebuild writes no journal items and loses no posted line |
| AssetLedger.CutFirstKeeps | account_asset_management/wizard/account_asset_remove.py:221-278 | an early removal returns the residual that the books then show |
| AssetLedger.EarlyAmountBounds | account_asset_management/wizard/account_asset_remove.py:256-270 | after the date depreciation has reached and up to the next line, the early amount lies between zero and the scheduled amount |
| AssetLedger.EarlyRemovalBounds | account_asset_management/wizard/account_asset_remove.py:221-278 | so does the drop of the residual caused by any early removal, and it is zero on the date depreciation has reached and before |
| AssetRemoval.EarlyRemovalCuts | account_asset_management/wizard/account_asset_remove.py:221-278 | the line cut: the part of the scheduled amount that the days before the removal are of its period, to the nearest unit, dated the day before and posted, and left out if zero; the other open lines are dropped |
| AssetRemoval.EarlyRemovalRefused | account_asset_management/wizard/account_asset_remove.py:238-275 | when it is refused: exactly if no line is open or an open line is dated before the day, and else only for want of a period or for the date of the amount |
| AssetLedger.RemovalMoveBalances | account_asset_management/wizard/account_asset_remove.py:280-349 | the removal move balances under either policy, for amounts of either sign |
| AssetRemoval.RemovalMoveOn | account_asset_management/wizard/account_asset_remove.py:280-349 | the removal move on every account: cost and depreciation taken back, the residual as such, or the sale value with the gain or the loss |
| AssetLedger.RemovalSettles | account_asset_management/wizard/account_asset_remove.py:133-219 | after a removal of any kind all journal items balance, the recomputed residual is zero, and accumulated depreciation holds exactly the initial-balance amounts |
| AssetRemoval.RemovalDated | account_asset_management/wizard/account_asset_remove.py:155-168 | a removal is dated no earlier than any line left, or than the start if none is; one that is not early is refused exactly otherwise |
| AssetLedger.RunKeeps | account_asset_management/models/account_asset_line.py:225-259 | any sequence of postings and rebuilds keeps the books consistent |
| AssetLedger.WholeLifeSettles | account_asset_management/wizard/account_asset_remove.py:133-219 | over an asset's whole life, any postings and rebuilds and then a removal: everything balances, and without initial-balance lines accumulated depreciation is back at zero |
| AssetRemoval.WholeLifeBooked | account_asset_management/wizard/account_asset_remove.py:133-349 | over a whole life, any postings and rebuilds and then a removal: the balance of every account, from the amounts posted, the initial balances and the residual |
| AssetRemoval.PostCloses | account_asset_management/models/account_asset_line.py:248-259 | with moves posted at once exactly the posting that takes all that is left closes the asset |
| AssetRecord.Record.ComputeResidual | account_asset_management/models/account_asset.py:242-256 | the residual is the base less counted lines and the removal |
| AssetRecord.Record.CreateMove | account_asset_management/models/account_asset_line.py:225-259 | posting in place changes the record as posting changes its contents |
| AssetRecord.Record.ComputeBoard | account_asset_management/models/account_asset.py:455-593 | the rebuild in place gives the rebuilt contents, and leaves everything unchanged on an error |
| AssetRecord.Record.CutFirstLine | account_asset_management/wizard/account_asset_remove.py:239-278 | the first open line is cut, posted and the other open lines dropped, in place |
| AssetRecord.Record.PrepareEarlyRemoval | account_asset_management/wizard/account_asset_remove.py:221-278 | a record without open lines is rebuilt first, then cut |
| AssetRecord.Record.Remove | account_asset_management/wizard/account_asset_remove.py:133-219 | the removal in place; an error undoes everything |
| AssetRecord.Summarize | account_asset_management/models/account_asset.py:464-475 | one pass over the counted lines finds their number, total, latest date and latest line |
| AssetStability.BookIsStable | account_asset_management/models/account_asset.py:455-593 | in the stored schedule the posted lines stay and the unposted ones come back, linked after the last posted line, with exactly the exceptions a rebuild has; if the last posted line is not in place it is open again |
| AssetStability.AssetBookIsStable | account_asset_management/models/account_asset.py:455-1040 | the same end to end, from any asset and any defined fiscal years |
| RunningValues.ComputeValues | account_asset_management/models/account_asset_line.py:75-98 | recomputing lines in date order: each holds what was reached before the first plus the previous amounts, and what remains after it; other lines are not touched |
| RunningValues.RecomputeStretch | account_asset_management/models/account_asset_line.py:75-98 | recomputing any contiguous stretch of a chain, given in any order, gives the values computed from scratch and touches no other line |
| RunningValues.WriteAmount | account_asset_management/models/account_asset_line.py:75-98 | writing an amount recomputes that line only: it is right afterwards, and a later line is right if and only if the amount did not change |
| RunningValues.SameLines | account_asset_management/models/account_asset_line.py:84-84 | lines of different dates have one order by date |
| CompoundMove.DoCompoundMoveLines | account_asset_management/models/account_asset_line.py:322-369 | the loops that prepare, split and group lines build the merged entry |
| CompoundMove.MergeLines | account_asset_management/models/account_asset_line.py:341-361 | debit lines and credit lines of one account are grouped apart |
| CompoundMove.GroupLine | account_asset_management/models/account_asset_line.py:354-357 | adding a line in place sums it into the group of its key or starts a new group |
| CompoundMove.CompoundKeepsTotals | account_asset_management/models/account_asset_line.py:322-369 | for every choice of accounts, analytic accounts and journals the merged entry has the same debit and credit totals as one pair of lines per depreciation line, for any signs and zero amounts |
| CompoundMove.CompoundBalances | account_asset_management/models/account_asset_line.py:322-369 | the merged entry balances |
| CompoundMove.CompoundNets | account_asset_management/models/account_asset_line.py:196-223 | on any choice of accounts, analytic accounts and journals the entry nets the amounts expensed there less those depreciated there |
| CompoundMove.CompoundOnAccounts | account_asset_management/models/account_asset_line.py:196-223 | the depreciation account is credited with the sum of the amounts, all without analytic account, and the expense account debited with it |
| CompoundMove.CompoundIsMerged | account_asset_management/models/account_asset_line.py:322-369 | no merged line is empty or two-sided, and no two debits, or two credits, share account, analytic account and journal |
| AssetSpreadsheet.FlattenParents | account_asset_management_xls/report/account_asset_report_xls.py:397-415 | the flat list starts with the report's asset and lists every parent before its children |
| AssetSpreadsheet.AddToView | account_asset_management_xls/report/account_asset_report_xls.py:417-423 | adding an asset recursively adds its missing ancestors first |
| AssetSpreadsheet.BuildRows | account_asset_management_xls/report/account_asset_report_xls.py:480-483 | the rows are built by adding the selected assets in order |
| AssetSpreadsheet.ReportRows | account_asset_management_xls/report/account_asset_report_xls.py:417-483 | the rows hold exactly the selected assets and their ancestors, each once, after its parent |
| AssetSpreadsheet.FindChildren | account_asset_management_xls/report/account_asset_report_xls.py:489-496 | one pass over the rows below a view finds the positions of its child rows |
| AssetSpreadsheet.FormulaAddsChildren | account_asset_management_xls/report/account_asset_report_xls.py:500-511 | a view's formula evaluates to the sum of exactly its child cells |
| AssetSpreadsheet.CutSum | account_asset_management_xls/report/account_asset_report_xls.py:485-531 | cut the rows anywhere: the cells hanging below the cut are worth the plain rows below it |
| AssetSpreadsheet.ReportTotal | account_asset_management_xls/report/account_asset_report_xls.py:480-531 | the total cell evaluates to the plain sum over the selected assets |
| VoucherAllocation.RecomputeLines | account_billing_hook_recompute_vline/account_voucher_hook_recompute_vline.py:82-198 | the two passes compute the voucher's credit and debit lines |
| VoucherAllocation.ScanBoth | account_billing_hook_recompute_vline/account_voucher_hook_recompute_vline.py:118-143 | the first pass finds the items the amount goes to, or the two pools to split |
| VoucherAllocation.NetOfSplit | account_billing_hook_recompute_vline/account_voucher_hook_recompute_vline.py:118-184 | closed form of the net allocation for items in any state of reconciliation |
| VoucherAllocation.NetIsClosedForm | account_billing_hook_recompute_vline/account_voucher_hook_recompute_vline.py:118-184 | with fully open items and no exact match the net allocation is min(price, max(0, invoices - credits)), for receipts and payments |
| VoucherAllocation.NetExceedsPrice | account_billing_hook_recompute_vline/account_voucher_hook_recompute_vline.py:118-184 | exactly when partly reconciled items let a voucher, receipt or payment, settle more than its amount |
| VoucherAllocation.PartlyReconciledExample | account_billing_hook_recompute_vline/account_voucher_hook_recompute_vline.py:118-184 | a receipt of 10 that settles 70 |
| VoucherAllocation.SplitIsGreedy | account_billing_hook_recompute_vline/account_voucher_hook_recompute_vline.py:145-184 | every line gets between nothing and its open amount; a line is short only when its side is used up, and then all later lines of the side get nothing |
| VoucherAllocation.FoundGetAll | account_billing_hook_recompute_vline/account_voucher_hook_recompute_vline.py:160-172 | an amount assigned to found items goes to them alone, up to what is open of them |
| VoucherAllocation.ExactMatchTakesAll | account_billing_hook_recompute_vline/account_voucher_hook_recompute_vline.py:128-134 | the first item open for exactly the price takes all of it, every other line gets nothing |
| VoucherAllocation.InvoiceTakesAll | account_billing_hook_recompute_vline/account_voucher_hook_recompute_vline.py:123-127 | asked for an invoice, the amount goes to that invoice's items alone |
| BackendRegistry.FollowOneMeans | connector/backend.py:229-247 | what the recursive search returns for an entry: the classes of exactly those entries at or below it that match and have no matching replacement |
| BackendRegistry.LookupMeans | connector/backend.py:229-252 | the lookup returns exactly the matching entries without matching replacement, direct or indirect |
| BackendRegistry.LookupIsInstalled | connector/backend.py:238-246 | the lookup in terms of modules and classes: the visible entries of installed modules and suitable classes that no such entry replaces, direct or indirect |
| BackendRegistry.NearestAnswers | connector/backend.py:249-252 | with parents the answer is that of the nearest backend that has one |
| BackendRegistry.AnswerIsInstalled | connector/backend.py:229-252 | every class found, here or on a parent, is suitable and that of an entry of an installed module there |
| BackendRegistry.Register | connector/backend.py:277-307 | registration keeps the replacement graph free of cycles, also when it fails |
| BackendRegistry.ReachesNew | connector/backend.py:285-307 | an old entry comes to be replaced by the new one, at some remove, exactly if it is or is replaced by one of the entries the new one was attached to |
| BackendRegistry.RegisterStep | connector/backend.py:277-307 | a class that does not match changes no answer; one that matches becomes an answer and removes exactly the answers that are, or are replaced through, an entry it replaces |
| BackendRegistry.NonMatchingChangesNothing | connector/backend.py:277-307 | a class of a module that is not installed changes no lookup |
| BackendRegistry.FailedRegistrationStep | connector/backend.py:285-307 | exactly what a registration that fails half-way changes, in terms of the registry before it: a matching class answers if the first class it names is registered, in place of what lies at or above the entries found before the first unknown class |
| BackendRegistry.RefusalChanges | connector/backend.py:285-307 | a registration refused for an unknown class changes some answer if and only if the class matches and the first class it names is registered |
| BackendRegistry.ReplacingItselfChangesNothing | connector/backend.py:298-300 | a class that is to replace itself is refused without any effect |
| BackendRegistry.FailedRegistrationExample | connector/backend.py:285-307 | a refused class that from then on answers in place of another |
| BackendRegistry.Backend.FollowReplacing | connector/backend.py:229-247 | the recursive method with its local set computes the specified answer and terminates |
| BackendRegistry.Backend.GetClasses | connector/backend.py:229-252 | the search on a backend and its parents |
| BackendRegistry.Backend.GetClass | connector/backend.py:254-275 | one class is returned if and only if exactly one was found; otherwise none or several is reported |
| BackendRegistry.Backend.RegisterClass | connector/backend.py:277-307 | registration in place is the registration step, and keeps what was attached before a failure |
| ReportWalk.Walk | account_financial_report/report/parser.py:426-447 | the recursive walk that appends to one list produces the nested rows |
| ReportWalk.WalkReadsBack | account_financial_report/report/parser.py:426-447 | the list is properly bracketed: read back, it is the tree of the accounts, each expanded account enclosing exactly its subtree |
| ReportWalk.SignIsTotals | account_financial_report/report/parser.py:426-447 | the sign-change list is the ids of the rows flagged as total, in the same order |
| ReportWalk.ShownClosed | account_financial_report/report/parser.py:426-447 | an expanded account's children are all shown |
| ReportRollUp.ChildrenKnown | account_financial_report/report/parser.py:804-822 | when its turn comes, all children of a view have their totals |
| ReportRollUp.RollUp | account_financial_report/report/parser.py:777-824 | the single deepest-first pass gives every view account the recursive sum of its leaves |
| ReportRollUp.BalanceIsDifference | account_financial_report/report/parser.py:777-824 | balance is debit minus credit at every account |
| ReportRollUp.SubtreeAdds | account_financial_report/report/parser.py:777-824 | debit, credit and opening balance of an account are the plain sums of those of the leaves below it |
| ReportRollUp.ReportTotals | account_financial_report/report/parser.py:680-824 | from the root accounts: every account of the report gets its subtree's total |
| ReportRollUp.WalkIsClosed | account_financial_report/report/parser.py:426-447 | the walk to the deepest level reaches whole subtrees |
| ThaiNumber.ReadBelowMillion | l10n_th_amount_text/amount_to_text_th.py:18-61 | a number below a million, read after full millions, adds itself |
| ThaiNumber.ThaiRoundTrip | l10n_th_amount_text/amount_to_text_th.py:18-61 | the mutual recursion terminates for every number and its words determine the number |
| ThaiNumber.ThaiSaid | l10n_th_amount_text/amount_to_text_th.py:11-61 | no number says one or two before a ten or a plain one after it; the special words for one and two stand only after and before a ten |
| ThaiNumber.SpellingReads | l10n_th_amount_text/amount_to_text_th.py:8-13 | the words can be read off the text, character by character |
| ThaiNumber.AmountReads | l10n_th_amount_text/amount_to_text_th.py:64-92 | the words of an amount determine baht and satang |
| ThaiNumber.AmountRoundTrip | l10n_th_amount_text/amount_to_text_th.py:64-92 | for a fixed currency the text of an amount determines the amount |
| ThaiNumber.AmountTextInjective | l10n_th_amount_text/amount_to_text_th.py:64-92 | distinct amounts print distinct texts |
| BankPayment.PrepareMove | account_bank_payment/models/account_bank_payment.py:291-335 | the loops that build the entry, with all checks in the order they are made, produce the specified entry or error |
| BankPayment.ValidatedMove | account_bank_payment_deduction/models/account_bank_payment_deduction.py:83-186 | every validated entry balances, deductions of either sign included; the bank is credited with the document's total and every other account gets its lines and deductions |
| BankPayment.DeductionsLeftOut | account_bank_payment_deduction/models/account_bank_payment_deduction.py:126-138 | deductions are written exactly unless they cancel out |
| BankPayment.SwitchDebitCredit | account_cancel_reversal/models/account.py:8-18 | debit and credit of every line are switched in place |
| BankPayment.ReversalUndoes | account_cancel_reversal/models/account.py:8-18 | a reversal balances if the entry does, cancels its effect on every account, and reversing twice restores the entry |
| BankPayment.Document.Validate | account_bank_payment/models/account_bank_payment.py:291-344 | validation posts the entry and makes the document done; a failing one changes nothing |
| BankPayment.Document.Cancel | account_bank_payment/models/account_bank_payment.py:219-224 | cancellation posts the reversal of the attached entry, if there is one, and leaves the entry attached |
| BankPayment.Document.CancelMove | account_cancel_reversal/models/account_bank_payment.py:17-38 | the copied lines are switched and posted as one new entry |
| BankPayment.Document.BackToDraft | account_bank_payment/models/account_bank_payment.py:226-230 | only the state changes |
| BankPayment.StepDrifts | account_bank_payment/models/account_bank_payment.py:219-344 | by how much each action moves an account's total away from the documents done |
| BankPayment.StepKeepsClean | account_bank_payment/models/account_bank_payment.py:219-344 | an action keeps every account's total equal to the documents done if and only if it fits the document's state or the attached entry changes no account |
| BankPayment.RunKeepsClean | account_bank_payment/models/account_bank_payment.py:219-344 | over every run of fitting actions on any number of documents each account's total is the sum over the documents now done |
| BankPayment.RunKeepsBalance | account_bank_payment/models/account_bank_payment.py:219-344 | over every run, every entry balances and no entry is ever changed |
| BankPayment.SecondReversal | account_cancel_reversal/models/account_bank_payment.py:17-38 | a second cancellation takes the entry out of the accounts twice |
| BankPayment.SecondReversalExample | account_cancel_reversal/models/account_bank_payment.py:17-38 | a payment after which the bank shows an amount although no document is done |

## Left out

- The ORM, SQL, workflow, access rights, translations and views: records are objects or values, searches are filtered sequences, and what a framework call returns is a parameter. The fiscal-year lookup is a search in a given list of years; period lookup, journal posting, reconciliation, numbering and currency conversion are not part of this model.
- Binary floating point: rounded amounts are exact integers in minor units and unrounded ones exact reals.
- The range of the date type: dates never overflow.
- Multi-currency vouchers and payments; a payment's foreign amounts are carried along but nothing is stated of them.
- Assets with a negative number of periods, and saving an asset, which checks dates and methods; the model takes an asset that passed those checks.
- A fiscal year in the middle of the table that received no line: the program drops it while iterating and fails later for want of lines; the model reports the failure when the table is computed.
- AssetCounted.CountedTable: when the table of an asset depreciated by days is computed is not stated; stability is stated for all tables that are.
- AssetMonthEnds.YearsAssetIsStable: that years last is sufficient; per posted line the condition is exact in `AssetTheorems.AssetIsStable`.
- AssetAmounts.YearAmountBounds: asks for degressive factors that are not negative and, for the limit methods, a salvage within the base.
- AssetAmounts.FyAmountBounds: asks for that and, for the limit methods, for years that count for one at most.
- AssetAmounts.RowsUseResidual: asks for the same.
- AssetAmounts.ResidualDescends: asks for the same; `AssetAmounts.YearsUseDepreciable` says exactly what happens without.
- AssetStability.BookIsStable: the lines posted are the first of the schedule; initial-balance lines are among them, because the rebuild counts them as posted.
- AssetLedger.RunKeeps: posting is modelled without periods and with one flag for journals that post at once; the entries' dates and names are not part of this model.
- AssetLedger.EarlyRemovalBounds: asks that the line cut has an amount that is not negative, and that its predecessor, if stored, is posted or an initial-balance entry.
- AssetRecord: the link of a posted line whose own predecessor is dropped by a rebuild is kept as it is.
- AssetSchedule.DeviationAbsorbed: for tables whose years start in themselves, when the next table line has an amount, does not vanish, and is in the same year or the year ends with the posted line; otherwise the position found is as in `AssetBoard.FindPosition`.
- AssetRemoval.EarlyRemovalRefused: which open line comes first among several of one date.
- RunningValues.RecomputeStretch: kinds, dates, bases and links are fixed while values are recomputed; deleting a line and relinking its successor is not part of this model.
- CompoundMove: the order in which merged lines come, which a data-frame library decides.
- AssetSpreadsheet.ReportTotal: stated for hierarchies with distinct ids in which only views have children and no selected asset is a view; row positions, formats and the two other reports, which have the same shape, are not part of this model.
- VoucherAllocation: which open items are found and in which order, and the write-off field.
- BackendRegistry: how a class is matched against a model; the set of matching classes is part of the request. Choosing a backend by service and version is not part of this model.
- ReportRollUp.RollUp: the deepest-first order of the view accounts is a parameter, as sorting is left to the library; consolidation accounts, exchange rates and columns are not part of this model.
- ThaiNumber: texts are sequences of characters rather than encoded bytes; amounts are given in cents, not as decimals to be formatted, and are not negative.
- BankPayment.Document.Cancel: cancellation with the reversal add-on installed; without it the entry is deleted. Reconciliation of the lines in transit, before and after, is not part of this model.
- BankPayment.RunKeepsClean: documents are handled one at a time, each in company currency; which buttons a state offers is in the views, and an action fits when the document's state and entry allow it.
- Aged balances, the general ledger, billing documents, sequences and the Jasper, HTTP and session code: bucket sums, single checks or input and output.
