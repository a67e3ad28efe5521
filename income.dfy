/** The income accumulator of the hourly PV-income reconciliation: hourly
    price times hourly exported energy times the EUR rate, summed onto the
    last persisted income total, and the guard on that persisted total. */
module Income {
  import opened Wrappers
  import opened Hours

  /** One point of the `ote:pv_income` statistic: the hour, its start, the
      income earned in that hour and the running income total after it. */
  datatype IncomeRecord = IncomeRecord(hour: nat, start: int, state: real, sum: real)

  /** The most recent persisted point of `ote:pv_income`: its end and sum. */
  datatype StatPoint = StatPoint(end: int, sum: real)

  /** Why the job stops before writing anything. */
  datatype JobError =
    | NoLastIncome           // no prior income statistic: raises
    | LastIncomeTooNew(end: int)  // the prior point ends after yesterday's midnight: assertion fails

  /** Income of one hour: price (EUR/MWh) times exported energy (Wh) times
      the rate (CZK/EUR), scaled by 1/1000. */
  function HourIncome(price: real, delta: real, rate: real): real
  {
    price * delta * rate / 1000.0
  }

  /** The income total to continue from: the sum of the last persisted point,
      provided one exists and it does not end after yesterday's midnight. */
  function LastIncomeSum(last: Option<StatPoint>, yesterday: int): (r: Result<real, JobError>)
    ensures last.None? ==> r == Failure(NoLastIncome)
    ensures last.Some? && last.value.end > yesterday ==> r == Failure(LastIncomeTooNew(last.value.end))
    ensures r.Success? <==> last.Some? && last.value.end <= yesterday
    ensures r.Success? ==> r.value == last.value.sum
  {
    if last.None? then Failure(NoLastIncome)
    else if last.value.end > yesterday then Failure(LastIncomeTooNew(last.value.end))
    else Success(last.value.sum)
  }

  /** The records for hours h .. 23, continuing from running total `sum`: one
      record per hour that has both a price and a delta, the others skipped. */
  function Accrue(prices: map<int, real>, diffs: map<int, real>, rate: real, base: int, sum: real, h: nat): seq<IncomeRecord>
    requires h <= HoursPerDay
    decreases HoursPerDay - h
  {
    if h == HoursPerDay then []
    else if h in prices && h in diffs then
      var income := HourIncome(prices[h], diffs[h], rate);
      [IncomeRecord(h, Boundary(base, h), income, sum + income)] + Accrue(prices, diffs, rate, base, sum + income, h + 1)
    else Accrue(prices, diffs, rate, base, sum, h + 1)
  }

  /** The total of the hourly incomes of `records`. */
  function SumOfStates(records: seq<IncomeRecord>): real
  {
    if records == [] then 0.0 else records[0].state + SumOfStates(records[1..])
  }

  /** The accumulation loop of the job: hours 0 .. 23 in order, adding each
      hour's income to the running total and appending its record. */
  method AccumulateIncome(prices: map<int, real>, diffs: map<int, real>, rate: real, base: int, prior: real)
    returns (records: seq<IncomeRecord>, total: real)
    ensures records == Accrue(prices, diffs, rate, base, prior, 0)
    ensures total == prior + SumOfStates(records)
  {
    records := [];
    total := prior;
    ghost var all := Accrue(prices, diffs, rate, base, prior, 0);
    assert [] + all == all;
    for h := 0 to HoursPerDay
      invariant records + Accrue(prices, diffs, rate, base, total, h) == all
      invariant total == prior + SumOfStates(records)
    {
      if h in prices && h in diffs {
        var income := HourIncome(prices[h], diffs[h], rate);
        AccrueTaken(prices, diffs, rate, base, total, h, income);
        total := total + income;
        var record := IncomeRecord(h, Boundary(base, h), income, total);
        ghost var next := Accrue(prices, diffs, rate, base, total, h + 1);
        SumOfStatesAppend(records, record);
        ConcatAssociative(records, [record], next);
        records := records + [record];
      } else {
        AccrueSkipped(prices, diffs, rate, base, total, h);
      }
    }
    assert records + [] == records;
  }

  /** An hour with a price and a delta adds its record. */
  lemma AccrueTaken(prices: map<int, real>, diffs: map<int, real>, rate: real, base: int, sum: real, h: nat, income: real)
    requires h < HoursPerDay && h in prices && h in diffs
    requires income == HourIncome(prices[h], diffs[h], rate)
    ensures Accrue(prices, diffs, rate, base, sum, h) ==
      [IncomeRecord(h, Boundary(base, h), income, sum + income)] + Accrue(prices, diffs, rate, base, sum + income, h + 1)
  {
  }

  /** An hour without a price or a delta adds nothing. */
  lemma AccrueSkipped(prices: map<int, real>, diffs: map<int, real>, rate: real, base: int, sum: real, h: nat)
    requires h < HoursPerDay && !(h in prices && h in diffs)
    ensures Accrue(prices, diffs, rate, base, sum, h) == Accrue(prices, diffs, rate, base, sum, h + 1)
  {
  }

  /** Summing distributes over appending one record. */
  lemma {:induction false} SumOfStatesAppend(records: seq<IncomeRecord>, r: IncomeRecord)
    ensures SumOfStates(records + [r]) == SumOfStates(records) + r.state
  {
    if records != [] {
      assert (records + [r])[1..] == records[1..] + [r];
      SumOfStatesAppend(records[1..], r);
    }
  }

  /** The records are for strictly increasing hours. */
  predicate HoursIncrease(records: seq<IncomeRecord>)
  {
    forall i, j :: 0 <= i < j < |records| ==> records[i].hour < records[j].hour
  }

  /** Each record is for an hour of h .. 23 that has both a price and a delta,
      starts at that hour's boundary and has that hour's income as its state. */
  predicate RecordsPriced(records: seq<IncomeRecord>, prices: map<int, real>, diffs: map<int, real>, rate: real, base: int, h: nat)
  {
    forall k :: 0 <= k < |records| ==>
      && h <= records[k].hour < HoursPerDay
      && records[k].hour in prices && records[k].hour in diffs
      && records[k].start == Boundary(base, records[k].hour)
      && records[k].state == HourIncome(prices[records[k].hour], diffs[records[k].hour], rate)
  }

  /** Some record is for hour `g`. */
  predicate HasHour(records: seq<IncomeRecord>, g: int)
  {
    exists k :: 0 <= k < |records| && records[k].hour == g
  }

  /** Every running total is `start` plus the incomes of the records up to
      and including it. */
  predicate PrefixSums(records: seq<IncomeRecord>, start: real)
  {
    forall k :: 0 <= k < |records| ==> records[k].sum == start + SumOfStates(records[..k + 1])
  }

  /** The running totals never decrease and never fall below `start`. */
  predicate SumsIncreaseFrom(records: seq<IncomeRecord>, start: real)
  {
    && (forall k :: 0 <= k < |records| ==> start <= records[k].sum)
    && (forall i, j :: 0 <= i < j < |records| ==> records[i].sum <= records[j].sum)
  }

  /** The records come in strictly increasing hour order, each for an hour of
      h .. 23 that has both a price and a delta, starting at that hour's
      boundary, with that hour's income as its state. */
  lemma {:induction false} AccrueHours(prices: map<int, real>, diffs: map<int, real>, rate: real, base: int, sum: real, h: nat)
    requires h <= HoursPerDay
    decreases HoursPerDay - h
    ensures RecordsPriced(Accrue(prices, diffs, rate, base, sum, h), prices, diffs, rate, base, h)
    ensures HoursIncrease(Accrue(prices, diffs, rate, base, sum, h))
  {
    if h < HoursPerDay {
      if h in prices && h in diffs {
        var income := HourIncome(prices[h], diffs[h], rate);
        AccrueHours(prices, diffs, rate, base, sum + income, h + 1);
        AccrueTaken(prices, diffs, rate, base, sum, h, income);
      } else {
        AccrueHours(prices, diffs, rate, base, sum, h + 1);
        AccrueSkipped(prices, diffs, rate, base, sum, h);
      }
    }
  }

  /** No hour is dropped: every hour of h .. 23 with both a price and a delta
      has a record. */
  lemma {:induction false} AccrueComplete(prices: map<int, real>, diffs: map<int, real>, rate: real, base: int, sum: real, h: nat, g: int)
    requires h <= HoursPerDay
    requires h <= g < HoursPerDay && g in prices && g in diffs
    decreases HoursPerDay - h
    ensures HasHour(Accrue(prices, diffs, rate, base, sum, h), g)
  {
    var r := Accrue(prices, diffs, rate, base, sum, h);
    if h in prices && h in diffs {
      var income := HourIncome(prices[h], diffs[h], rate);
      var rest := Accrue(prices, diffs, rate, base, sum + income, h + 1);
      AccrueTaken(prices, diffs, rate, base, sum, h, income);
      if g == h {
        assert r[0].hour == g;
      } else {
        AccrueComplete(prices, diffs, rate, base, sum + income, h + 1, g);
        var k :| 0 <= k < |rest| && rest[k].hour == g;
        assert r[k + 1].hour == g;
      }
    } else {
      AccrueComplete(prices, diffs, rate, base, sum, h + 1, g);
      AccrueSkipped(prices, diffs, rate, base, sum, h);
    }
  }

  /** Each record's running total is the previous one, `start` for the
      first, plus its own income. */
  predicate RunningTotals(records: seq<IncomeRecord>, start: real)
  {
    records == [] || (records[0].sum == start + records[0].state && RunningTotals(records[1..], records[0].sum))
  }

  /** The accrual keeps running totals. */
  lemma {:induction false} AccrueRunningTotals(prices: map<int, real>, diffs: map<int, real>, rate: real, base: int, sum: real, h: nat)
    requires h <= HoursPerDay
    decreases HoursPerDay - h
    ensures RunningTotals(Accrue(prices, diffs, rate, base, sum, h), sum)
  {
    if h < HoursPerDay {
      if h in prices && h in diffs {
        var income := HourIncome(prices[h], diffs[h], rate);
        AccrueTaken(prices, diffs, rate, base, sum, h, income);
        AccrueRunningTotals(prices, diffs, rate, base, sum + income, h + 1);
        var rest := Accrue(prices, diffs, rate, base, sum + income, h + 1);
        assert ([IncomeRecord(h, Boundary(base, h), income, sum + income)] + rest)[1..] == rest;
      } else {
        AccrueSkipped(prices, diffs, rate, base, sum, h);
        AccrueRunningTotals(prices, diffs, rate, base, sum, h + 1);
      }
    }
  }

  /** Running totals are prefix sums. */
  lemma {:induction false} RunningTotalsArePrefixSums(records: seq<IncomeRecord>, start: real)
    requires RunningTotals(records, start)
    ensures PrefixSums(records, start)
  {
    if records != [] {
      var rest := records[1..];
      RunningTotalsArePrefixSums(rest, records[0].sum);
      forall k | 0 <= k < |records| ensures records[k].sum == start + SumOfStates(records[..k + 1]) {
        if k > 0 {
          assert records[..k + 1][1..] == rest[..k];
          assert records[k] == rest[k - 1];
        }
      }
    }
  }

  /** Every record's running total is the starting total plus the incomes of
      all records up to and including it. */
  lemma AccruePrefixSums(prices: map<int, real>, diffs: map<int, real>, rate: real, base: int, sum: real)
    ensures PrefixSums(Accrue(prices, diffs, rate, base, sum, 0), sum)
  {
    AccrueRunningTotals(prices, diffs, rate, base, sum, 0);
    RunningTotalsArePrefixSums(Accrue(prices, diffs, rate, base, sum, 0), sum);
  }

  /** So the last record carries the starting total plus every hour's
      income. */
  lemma AccrueLastTotal(prices: map<int, real>, diffs: map<int, real>, rate: real, base: int, sum: real)
    requires Accrue(prices, diffs, rate, base, sum, 0) != []
    ensures var r := Accrue(prices, diffs, rate, base, sum, 0);
      r[|r| - 1].sum == sum + SumOfStates(r)
  {
    var r := Accrue(prices, diffs, rate, base, sum, 0);
    AccruePrefixSums(prices, diffs, rate, base, sum);
    PrefixSumsLast(r, sum);
  }

  lemma PrefixSumsLast(records: seq<IncomeRecord>, start: real)
    requires records != [] && PrefixSums(records, start)
    ensures records[|records| - 1].sum == start + SumOfStates(records)
  {
    assert records[..|records|] == records;
  }

  /** With no negative hourly income, the running totals never decrease and
      never fall below the starting total. */
  lemma {:induction false} AccrueMonotone(prices: map<int, real>, diffs: map<int, real>, rate: real, base: int, sum: real, h: nat)
    requires h <= HoursPerDay
    requires forall g :: g in prices && g in diffs ==> HourIncome(prices[g], diffs[g], rate) >= 0.0
    decreases HoursPerDay - h
    ensures SumsIncreaseFrom(Accrue(prices, diffs, rate, base, sum, h), sum)
  {
    if h < HoursPerDay {
      if h in prices && h in diffs {
        var income := HourIncome(prices[h], diffs[h], rate);
        assert income >= 0.0;
        AccrueMonotone(prices, diffs, rate, base, sum + income, h + 1);
        AccrueTaken(prices, diffs, rate, base, sum, h, income);
      } else {
        AccrueMonotone(prices, diffs, rate, base, sum, h + 1);
        AccrueSkipped(prices, diffs, rate, base, sum, h);
      }
    }
  }

  /** With no hour of h .. 23 in both maps, nothing is recorded. */
  lemma {:induction false} AccrueNothing(prices: map<int, real>, diffs: map<int, real>, rate: real, base: int, sum: real, h: nat)
    requires h <= HoursPerDay
    requires forall g :: h <= g < HoursPerDay && g in prices ==> g !in diffs
    decreases HoursPerDay - h
    ensures Accrue(prices, diffs, rate, base, sum, h) == []
  {
    if h < HoursPerDay {
      AccrueNothing(prices, diffs, rate, base, sum, h + 1);
    }
  }

  /** A worked day: prices {0: 50, 1: -10} EUR/MWh, deltas {0: 2000, 1: -500}
      Wh, rate 25 CZK/EUR, prior total 1000 CZK. Hour 0 earns 2500 (total 3500),
      hour 1 earns 125 (total 3625). */
  lemma WorkedExample(base: int)
    ensures Accrue(map[0 := 50.0, 1 := -10.0], map[0 := 2000.0, 1 := -500.0], 25.0, base, 1000.0, 0) ==
      [IncomeRecord(0, base, 2500.0, 3500.0), IncomeRecord(1, base + 3600, 125.0, 3625.0)]
  {
    var prices, diffs := map[0 := 50.0, 1 := -10.0], map[0 := 2000.0, 1 := -500.0];
    AccrueNothing(prices, diffs, 25.0, base, 3625.0, 2);
  }

  lemma ConcatAssociative<T>(a: seq<T>, b: seq<T>, c: seq<T>)
    ensures (a + b) + c == a + (b + c)
  {
  }
}
