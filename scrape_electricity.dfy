/** The nightly reconciliation job `scrape_electricity`: yesterday's hourly
    export deltas priced at yesterday's hourly means and the EUR rate, summed
    onto the last persisted income total, plus one EUR-rate row. */
module ScrapeElectricity {
  import opened Wrappers
  import opened PyDict
  import opened Bisect
  import opened PowerDeltas
  import opened Income
  import opened Prices
  import opened Hours

  /** What the job writes: the income rows and the one EUR-rate row. */
  datatype Reconciliation = Reconciliation(income: seq<IncomeRecord>, rateStat: MeanStat)

  /** The meter readings as the job lists them: timestamps in increasing
      order, one value per timestamp. */
  predicate Readings(dates: seq<int>, values: seq<real>)
  {
    |values| == |dates| && Sorted(dates)
  }

  /** The hourly export deltas the job derives from yesterday's readings. */
  function DayDeltas(dates: seq<int>, values: seq<real>, yesterday: int): map<int, real>
    requires |values| == |dates|
  {
    PowerDiffs(Resolve(dates, values, yesterday, BoundaryCount))
  }

  /** The income rows the job writes when the persisted total is usable. */
  function DayIncome(yesterday: int, priceMeans: seq<real>, rate: real, dates: seq<int>, values: seq<real>, prior: real): seq<IncomeRecord>
    requires |values| == |dates|
  {
    Accrue(PricesFromStats(priceMeans), DayDeltas(dates, values, yesterday), rate, yesterday, prior, 0)
  }

  /** The job, from the readings it obtains to the rows it writes. It fails,
      writing nothing, exactly when the persisted income total is missing or
      newer than yesterday's midnight; otherwise it writes the accrued income
      rows over the meter's timestamps and values, and a flat EUR-rate row at
      the midnight before yesterday. */
  method ScrapeElectricity(yesterday: int, priceMeans: seq<real>, eurRate: real, samples: seq<Sample>, lastIncome: Option<StatPoint>)
    returns (r: Result<Reconciliation, JobError>)
    requires TimeOrdered(samples)
    ensures r.Failure? <==> lastIncome.None? || lastIncome.value.end > yesterday
    ensures r.Failure? ==> r.error == LastIncomeSum(lastIncome, yesterday).error
    ensures r.Success? ==>
      r.value.income == DayIncome(yesterday, priceMeans, eurRate, Keys(PowerPoints(samples)), Values(PowerPoints(samples)), lastIncome.value.sum)
    ensures r.Success? ==> r.value.rateStat == MeanStat(yesterday - SecondsPerDay, eurRate, eurRate, eurRate)
  {
    var prices := PricesFromStats(priceMeans);
    var power := PowerPoints(samples);
    var dates := Keys(power);
    var values := Values(power);
    PowerPointsSorted(samples);
    var powers := ResolveBoundaries(dates, values, yesterday);
    var diffs := PowerDiffs(powers);
    var prior := LastIncomeSum(lastIncome, yesterday);
    if prior.Failure? {
      return Failure(prior.error);
    }
    var income, total := AccumulateIncome(prices, diffs, eurRate, yesterday, prior.value);
    r := Success(Reconciliation(income, MeanStat(yesterday - SecondsPerDay, eurRate, eurRate, eurRate)));
  }

  /** Hour `h` of the day has a delta exactly when some reading lies at or
      before its boundary and some reading lies after boundary `h + 1`; the
      delta is the difference of the readings in effect at the two. */
  lemma DayDeltasOnReadings(dates: seq<int>, values: seq<real>, yesterday: int, h: int)
    requires Readings(dates, values)
    ensures h in DayDeltas(dates, values, yesterday) <==>
      0 <= h < HoursPerDay && 0 < AtOrBefore(dates, yesterday, h) && AtOrBefore(dates, yesterday, h + 1) < |dates|
    ensures h in DayDeltas(dates, values, yesterday) ==>
      && 0 < AtOrBefore(dates, yesterday, h) <= AtOrBefore(dates, yesterday, h + 1) < |dates|
      && DayDeltas(dates, values, yesterday)[h] ==
         values[AtOrBefore(dates, yesterday, h + 1) - 1] - values[AtOrBefore(dates, yesterday, h) - 1]
  {
    HourlyDeltas(dates, values, yesterday, BoundaryCount, h);
  }

  /** Each income row is for an hour with a price mean and a delta, and
      carries that hour's income. */
  lemma IncomeRowPriced(yesterday: int, priceMeans: seq<real>, rate: real, dates: seq<int>, values: seq<real>, prior: real, k: int)
    requires |values| == |dates|
    requires 0 <= k < |DayIncome(yesterday, priceMeans, rate, dates, values, prior)|
    ensures var rec := DayIncome(yesterday, priceMeans, rate, dates, values, prior)[k];
      && rec.hour < HoursPerDay && rec.hour < |priceMeans|
      && rec.start == Boundary(yesterday, rec.hour)
      && rec.hour in DayDeltas(dates, values, yesterday)
      && rec.state == HourIncome(priceMeans[rec.hour], DayDeltas(dates, values, yesterday)[rec.hour], rate)
  {
    var prices := PricesFromStats(priceMeans);
    var diffs := DayDeltas(dates, values, yesterday);
    AccrueHours(prices, diffs, rate, yesterday, prior, 0);
    var rec := DayIncome(yesterday, priceMeans, rate, dates, values, prior)[k];
    assert rec.hour in prices && rec.hour in diffs;
    assert prices[rec.hour] == priceMeans[rec.hour];
  }

  /** End to end, per income row: it is for an hour of yesterday that has a
      price mean and readings around both of its boundaries; it starts at
      that hour; and its state is the hour's mean price times the exported
      energy between the readings in effect at the hour's two boundaries
      times the rate, over 1000. */
  lemma ReconciledIncomeRow(yesterday: int, priceMeans: seq<real>, rate: real, dates: seq<int>, values: seq<real>, prior: real, k: int)
    requires Readings(dates, values)
    requires 0 <= k < |DayIncome(yesterday, priceMeans, rate, dates, values, prior)|
    ensures var rec := DayIncome(yesterday, priceMeans, rate, dates, values, prior)[k];
      && rec.hour < HoursPerDay && rec.hour < |priceMeans|
      && rec.start == Boundary(yesterday, rec.hour)
      && 0 < AtOrBefore(dates, yesterday, rec.hour) <= AtOrBefore(dates, yesterday, rec.hour + 1) < |dates|
      && rec.state == HourIncome(priceMeans[rec.hour],
           values[AtOrBefore(dates, yesterday, rec.hour + 1) - 1] - values[AtOrBefore(dates, yesterday, rec.hour) - 1], rate)
  {
    IncomeRowPriced(yesterday, priceMeans, rate, dates, values, prior, k);
    var rec := DayIncome(yesterday, priceMeans, rate, dates, values, prior)[k];
    DayDeltasOnReadings(dates, values, yesterday, rec.hour);
  }

  /** End to end, per hour: every hour of yesterday with a price mean and
      readings around both of its boundaries has its income row. */
  lemma ReconciledHourPresent(yesterday: int, priceMeans: seq<real>, rate: real, dates: seq<int>, values: seq<real>, prior: real, h: int)
    requires Readings(dates, values)
    requires 0 <= h < HoursPerDay && h < |priceMeans|
    requires 0 < AtOrBefore(dates, yesterday, h) && AtOrBefore(dates, yesterday, h + 1) < |dates|
    ensures HasHour(DayIncome(yesterday, priceMeans, rate, dates, values, prior), h)
  {
    DayDeltasOnReadings(dates, values, yesterday, h);
    AccrueComplete(PricesFromStats(priceMeans), DayDeltas(dates, values, yesterday), rate, yesterday, prior, 0, h);
  }

  /** With no meter readings there are no income rows. */
  lemma NoReadingsNoIncome(yesterday: int, priceMeans: seq<real>, rate: real, prior: real)
    ensures DayIncome(yesterday, priceMeans, rate, [], [], prior) == []
  {
    var prices := PricesFromStats(priceMeans);
    forall g | 0 <= g < HoursPerDay && g in prices
      ensures g !in DayDeltas([], [], yesterday)
    {
      DayDeltasOnReadings([], [], yesterday, g);
    }
    AccrueNothing(prices, DayDeltas([], [], yesterday), rate, yesterday, prior, 0);
  }

  /** A day on which fewer than two boundaries resolve has no hourly deltas,
      so it has no income rows. */
  lemma FewBoundariesNoIncome(yesterday: int, priceMeans: seq<real>, rate: real, dates: seq<int>, values: seq<real>, prior: real)
    requires |values| == |dates|
    requires |Resolve(dates, values, yesterday, BoundaryCount)| < 2
    ensures DayIncome(yesterday, priceMeans, rate, dates, values, prior) == []
  {
    HourlyDeltaCount(dates, values, yesterday);
    assert DayDeltas(dates, values, yesterday) == map[];
    AccrueNothing(PricesFromStats(priceMeans), DayDeltas(dates, values, yesterday), rate, yesterday, prior, 0);
  }
}
