/** The parameters of an asset that decide its depreciation. */
module AssetTypes {
  import opened Calendar
  import opened Outcome

  datatype Method = Linear | LinearLimit | Degressive | DegressiveLinear | DegressiveLimit
  datatype TimeMethod = Years | Number | End
  datatype Period = Monthly | Quarterly | Yearly

  /** A defined fiscal year; `done` is the closed state. */
  datatype FiscalYear = FiscalYear(start: Date, stop: Date, done: bool) {
    predicate Valid() {
      start.Valid() && stop.Valid() && start.Ord() <= stop.Ord()
    }

    predicate Contains(day: int)
      requires Valid()
    {
      start.Ord() <= day <= stop.Ord()
    }
  }

  /** Amounts are in minor units; `progress` is the degressive factor. */
  datatype Asset = Asset(
    base: int,
    salvage: int,
    way: Method,
    time: TimeMethod,
    number: nat,
    period: Period,
    end: Date,
    progress: real,
    prorata: bool,
    daysCalc: bool,
    dateStart: Date)
  {
    /** What saving an asset enforces: the ending date follows the start date,
        every time method but "number of years" is pro rata, and
        degressive-linear goes with "number of years". */
    predicate Valid() {
      && dateStart.Valid()
      && (time == End ==> end.Valid() && dateStart.Ord() < end.Ord())
      && (time != Years ==> prorata)
      && (way == DegressiveLinear ==> time == Years)
    }

    predicate Limited() {
      way == LinearLimit || way == DegressiveLimit
    }

    /** The most that may ever be depreciated. */
    function Depreciable(): int {
      if Limited() then base - salvage else base
    }

    /** What the last year of the table takes of the residual. */
    function LastYear(residual: int): int {
      if Limited() then residual - salvage else residual
    }

    function Sign(): int {
      if base >= 0 then 1 else -1
    }
  }

  /** One fiscal year of the asset's life before amounts are known. */
  datatype Span = Span(fy: Option<FiscalYear>, start: Date, stop: Date, init: bool) {
    predicate Valid() {
      start.Valid() && stop.Valid() && start.Ord() <= stop.Ord() && (fy.Some? ==> fy.value.Valid())
    }
  }
}
