# Electricity income reconciliation and wallbox session energy: a Dafny model

This project models two parts of a home-automation setup.

**The nightly electricity jobs** (`pyscript/scrape_electricity.py`):

- `scrape_electricity_price` reads tomorrow's day-ahead price chart, a list of
  (1-based hour, price) points. It writes one flat statistics row per hour
  (mean = min = max).
- `scrape_electricity` reconciles yesterday's photovoltaic export income:
  - It reads the export meter's cumulative readings.
  - It samples them at the 25 hour boundaries of the day, using
    `bisect_right`, each search resumed at the previous index. It skips
    boundaries with no reading at or before them and stops at the first
    boundary not earlier than the last reading.
  - It subtracts consecutive snapshots to get hourly export deltas.
  - The hourly price means are keyed by their position in the statistics
    reply, not by the hour each one belongs to. For every hour `h` with both
    a price mean and a delta, it prices the delta at the `h`-th mean and the
    EUR/CZK rate, and adds the income onto the last persisted income total.
    A missing hourly price statistic therefore shifts every later hour's
    price one position earlier.
  - It writes the income rows and one EUR-rate row.
  - It fails, writing nothing, when no persisted total exists, or when the
    persisted one is newer than yesterday's midnight.
- The EUR rate is the second `|` field of the last line of the bank's text
  reply, with its decimal comma made a point.

**The wallbox session-energy sensor** (`custom_components/wallbox2/sensor.py`):

- On every coordinator refresh, it sorts the reported charging sessions by
  time (a stable sort).
- It adds each session's energy to the coordinator's starting total, writing
  one state per session, stamped with that session's time.
- With no sessions it writes nothing.
- Its own `native_value` is always `None`.

How the model represents these:

- A Python `dict` is a sequence of (key, value) pairs in insertion order
  (module `PyDict`).
- Times are integer seconds (module `Hours`). Hour boundary `h` of a day starting at `base` is
  `base + h * 3600`.
- Readings, prices and energies are `real`.

The three loops are imperative methods, each proved equal to a recursive
specification function:

- the boundary scan: `ResolveBoundaries` is proved equal to `Resolve`;
- the income loop: `AccumulateIncome` is proved equal to `Accrue`;
- the sensor loop: `HandleCoordinatorUpdate` is proved equal to `Replay` of
  `SortByTime`.

The properties of each job are proved as lemmas about those specification
functions.

A day whose readings resolve fewer than two boundaries is not aborted:

- the delta map is simply empty;
- the persisted-total guard still runs;
- an empty income list and the EUR-rate row are still written.

`PowerDeltas.HourlyDeltaCount` states that such a day has no deltas,
`ScrapeElectricity.FewBoundariesNoIncome` that it has no income rows, and
`ScrapeElectricity.ScrapeElectricity` that the guard and the EUR-rate row are
unaffected.

## Model

| member | source | states |
|---|---|---|
| PyDict.Put | pyscript/scrape_electricity.py:130 | assigning a key sets its value, leaves every other key's value alone, keeps an existing key's position, appends a new key at the end, and keeps keys unique |
| PyDict.FromPairsGet | pyscript/scrape_electricity.py:46 | a dict comprehension keeps, for each key, the value of its last occurrence among the rows |
| PyDict.FromPairsKeys | pyscript/scrape_electricity.py:46 | a key is in the comprehension exactly when some row has that key |
| PyDict.LastValueLatest | pyscript/scrape_electricity.py:46 | the value kept for a key comes from a row with that key after which no row has it |
| PyDict.FromPairsOrdered | pyscript/scrape_electricity.py:46 | built from rows with nondecreasing keys, the dict's keys strictly increase |
| PowerDeltas.PowerPointsSorted | pyscript/scrape_electricity.py:46 | the reading timestamps, taken from time-ordered recorder rows, strictly increase, so they form a valid `bisect_right` list |
| Bisect.BisectRight | pyscript/scrape_electricity.py:125 | the binary search returns the split point of `a[lo..]`: everything before it is at most `x`, everything from it on is above `x`; it equals `lo` plus the count of elements at most `x` in `a[lo..]` |
| Bisect.CountAtMostSplits | pyscript/scrape_electricity.py:125 | in a sorted list, the number of elements at most `x` is the `bisect_right` split point |
| Bisect.ResumedSearch | pyscript/scrape_electricity.py:125 | resuming the search at the previous index gives the same index as a fresh search, because nothing before that index exceeds the later boundary |
| PowerDeltas.ResolveBoundaries | pyscript/scrape_electricity.py:120-131 | the 25-boundary scan, with its `continue` and `break`, produces exactly the snapshots `Resolve` defines |
| PowerDeltas.ResolveGet | pyscript/scrape_electricity.py:124-130 | boundary `h` has a snapshot exactly when some reading is at or before it and some reading is after it, and the snapshot is the reading at `bisect_right - 1` |
| PowerDeltas.ResolvedHours | pyscript/scrape_electricity.py:124-130 | hour `h` of 0..24 is recorded exactly when the first reading is at or before its boundary and the last reading is after it |
| PowerDeltas.SnapshotIsLatestReading | pyscript/scrape_electricity.py:125-130 | each snapshot is the value of the right-most reading at or before its boundary, since the next reading is already past it |
| PowerDeltas.SnapshotOfRows | pyscript/scrape_electricity.py:46 | stated on the recorder rows: each snapshot is the value of a row at or before its boundary after which every row is past the boundary, so where rows share a time the later one decides |
| PowerDeltas.ResolveSettled | pyscript/scrape_electricity.py:128-129 | once a boundary is not earlier than the last reading, no later boundary adds a snapshot, so breaking out loses nothing |
| PowerDeltas.ResolveKeysBelow | pyscript/scrape_electricity.py:124-130 | every recorded hour is one of the boundaries scanned so far |
| PowerDeltas.ResolveContiguous | pyscript/scrape_electricity.py:124-130 | the recorded hours are consecutive, and the first has a reading at or before it |
| PowerDeltas.PowerDiffsOfConsecutive | pyscript/scrape_electricity.py:132 | pairing each snapshot with the next over consecutive hours gives hour `h` a delta exactly when `h` is not the last snapshot's hour, and that delta is `snapshot[h + 1] - snapshot[h]` |
| PowerDeltas.PowerDiffsCount | pyscript/scrape_electricity.py:132 | over consecutive hours there is one delta fewer than there are snapshots, and none for fewer than two snapshots |
| PowerDeltas.HourlyDeltaCount | pyscript/scrape_electricity.py:120-133 | the day has one delta fewer than it has snapshots, and none when fewer than two boundaries resolve |
| PowerDeltas.DeltaOfSnapshots | pyscript/scrape_electricity.py:132 | hour `h` has a delta exactly when both `h` and `h + 1` have snapshots, and the delta is their difference |
| PowerDeltas.HourlyDeltas | pyscript/scrape_electricity.py:120-132 | stated on the readings: hour `h` has a delta exactly when a reading is at or before boundary `h` and one is after boundary `h + 1`; the delta is the reading in effect at `h + 1` minus the one in effect at `h` |
| Income.LastIncomeSum | pyscript/scrape_electricity.py:84-89 | no persisted point fails with "no last income"; a point ending after yesterday's midnight fails the consistency assertion; otherwise the result is that point's sum |
| Income.AccumulateIncome | pyscript/scrape_electricity.py:135-142 | the hour loop appends exactly the records `Accrue` defines, and its final total is the prior total plus every record's income |
| Income.AccrueHours | pyscript/scrape_electricity.py:137-142 | the records come in strictly increasing hour order; each is for an hour with both a price and a delta, starts at that hour's boundary, and has price × delta × rate / 1000 as its state |
| Income.AccrueComplete | pyscript/scrape_electricity.py:137-142 | no hour with both a price and a delta is dropped |
| Income.AccrueNothing | pyscript/scrape_electricity.py:137-139 | with no hour having both a price and a delta, no record is written |
| Income.AccrueRunningTotals | pyscript/scrape_electricity.py:140-142 | each record's running total is the previous one (the prior total for the first) plus its own income |
| Income.RunningTotalsArePrefixSums | pyscript/scrape_electricity.py:140-142 | running totals are the prior total plus the incomes of all records up to and including each one |
| Income.AccruePrefixSums | pyscript/scrape_electricity.py:136-142 | every record's sum is the persisted total plus the incomes of all records up to and including it |
| Income.AccrueLastTotal | pyscript/scrape_electricity.py:136-142 | the last record carries the persisted total plus every hour's income |
| Income.AccrueMonotone | pyscript/scrape_electricity.py:140-142 | with no negative hourly income, the running totals never decrease and never fall below the persisted total |
| Income.WorkedExample | pyscript/scrape_electricity.py:139-142 | a worked day: two priced hours give two records with totals 3500 and 3625 from a prior total of 1000 |
| ScrapeElectricity.ScrapeElectricity | pyscript/scrape_electricity.py:111-147 | the job fails exactly when the persisted total is missing or too new, with that error; otherwise it writes the accrued income rows over the meter readings and a flat EUR-rate row at the midnight before yesterday |
| ScrapeElectricity.DayDeltasOnReadings | pyscript/scrape_electricity.py:119-132 | the job's hourly deltas, stated on the recorder's timestamps and values |
| ScrapeElectricity.IncomeRowPriced | pyscript/scrape_electricity.py:137-142 | each income row is for an hour with a price mean and a delta, and carries that hour's income |
| ScrapeElectricity.ReconciledIncomeRow | pyscript/scrape_electricity.py:106-142 | end to end, each income row is for an hour of yesterday whose position among the hourly means is its hour and which has readings around both boundaries; its state is the mean at that position × the exported energy between the readings in effect at the two boundaries × the rate / 1000 |
| ScrapeElectricity.ReconciledHourPresent | pyscript/scrape_electricity.py:119-142 | end to end, every hour with a price mean and readings around both of its boundaries has its income row |
| ScrapeElectricity.NoReadingsNoIncome | pyscript/scrape_electricity.py:119-146 | with no meter readings, the job writes no income rows |
| ScrapeElectricity.FewBoundariesNoIncome | pyscript/scrape_electricity.py:120-142 | a day on which fewer than two boundaries resolve has no income rows |
| Prices.PricesFromPoints | pyscript/scrape_electricity.py:60 | the parsed prices have unique hour keys |
| Prices.PricesShiftHours | pyscript/scrape_electricity.py:60 | hour `h` of the parsed prices is the price of the last chart point with `x = h + 1` |
| Prices.GetPrices | pyscript/scrape_electricity.py:51-62 | prices are obtained exactly on a 200 reply, and then have unique hours |
| Prices.ScrapeElectricityPrice | pyscript/scrape_electricity.py:65-71 | rows are produced exactly when the chart reply is 200 and every chart hour is 1 .. 24; an hour outside the day makes building its start time fail, and nothing is written |
| Prices.ChartHoursOfDay | pyscript/scrape_electricity.py:60 | the parsed hours are all hours 0 .. 23 exactly when every chart point is for an hour 1 .. 24 |
| Prices.ChartHourOutsideDay | pyscript/scrape_electricity.py:69 | a single chart point outside hours 1 .. 24 means no rows at all |
| Prices.DayAheadOnePerHour | pyscript/scrape_electricity.py:69 | no two rows share a start, and each row is flat (mean = min = max) at the price of the hour of the day it starts at |
| Prices.DayAheadHourCovered | pyscript/scrape_electricity.py:69 | when every hour is an hour of the day, every priced hour has a row starting at its boundary with its price |
| Prices.ScrapeElectricityPriceRows | pyscript/scrape_electricity.py:66-71 | end to end, for a chart whose hours are all 1 .. 24: the rows have distinct starts, each is flat at an hour's price, and each chart point `h + 1` has its row at hour `h` with the last such point's price |
| Prices.RateNumeral | pyscript/scrape_electricity.py:21-24 | the rate numeral contains no decimal comma |
| Prices.GetEurRate | pyscript/scrape_electricity.py:20-27 | the rate is unavailable exactly on a non-200 reply, and a rate text contains no decimal comma |
| Prices.EurRateOfLastLine | pyscript/scrape_electricity.py:21-24 | for a reply of lines, padded with whitespace at either end, whose last line is `|`-separated fields, possibly indented, the rate is the second field of the last line with its comma made a point |
| Prices.EurRateNeedsTwoFields | pyscript/scrape_electricity.py:21-23 | a last line without `|` has no second field: the reply is malformed |
| Text.Strip | pyscript/scrape_electricity.py:21 | the stripped text has no whitespace at either end, is no longer than the input, and leaves already-trimmed text unchanged |
| Text.StripPadded | pyscript/scrape_electricity.py:21 | stripping whitespace-padded text that does not itself begin or end with whitespace gives exactly that text |
| Text.StripAllSpace | pyscript/scrape_electricity.py:21 | stripping text made of whitespace alone gives the empty string |
| Text.Split | pyscript/scrape_electricity.py:21 | splitting gives at least one piece, and no piece contains the separator |
| Text.SplitJoin | pyscript/scrape_electricity.py:21 | splitting joined pieces gives the pieces back when none contains the separator |
| Text.JoinSplit | pyscript/scrape_electricity.py:21 | joining the pieces of a split gives the text back |
| Text.ReplaceChar | pyscript/scrape_electricity.py:24 | each character equal to `from` becomes `to`, every other one is kept, and no `from` remains |
| WallboxSensor.HandleCoordinatorUpdate | custom_components/wallbox2/sensor.py:57-67 | no sessions means no writes; otherwise the writes are the replay of the time-sorted sessions from the coordinator's total onto its entity |
| WallboxSensor.SortByTimeStable | custom_components/wallbox2/sensor.py:64 | the sort orders by session time, is a permutation, and keeps the reported order of sessions with equal times |
| WallboxSensor.SortByTimeSorted | custom_components/wallbox2/sensor.py:64 | the sorted sessions have nondecreasing times |
| WallboxSensor.SortByTimePermutes | custom_components/wallbox2/sensor.py:64 | the sort neither loses nor duplicates sessions |
| WallboxSensor.SortByTimeKeepsOrder | custom_components/wallbox2/sensor.py:64 | sessions with equal times keep their relative order |
| WallboxSensor.InsertStable | custom_components/wallbox2/sensor.py:64 | inserting a session puts it after the sessions already there with the same time |
| WallboxSensor.ReplayWrites | custom_components/wallbox2/sensor.py:64-67 | write `k` goes to the entity, carries the starting total plus the energy of sessions 0..k, and is stamped with session `k`'s time; there is one write per session |
| WallboxSensor.TotalsIncrease | custom_components/wallbox2/sensor.py:45 | with no negative session energy, the written totals never decrease, never fall below the starting total and never exceed it plus all the energy, as a total-increasing sensor requires |
| WallboxSensor.SessionWrites | custom_components/wallbox2/sensor.py:57-67 | end to end: one write per session, all to the configured entity, with nondecreasing timestamps; write `k` carries the starting total plus the energy of the `k + 1` earliest sessions |
| WallboxSensor.NativeValue | custom_components/wallbox2/sensor.py:50-51 | the sensor reports no value of its own; its states come only from the writes |

## Left out

- HTTP and JSON: the replies are parameters, a status code plus the chart points or the rate text. The URLs and date windows of the requests are not modelled.
- The recorder and the statistics store: the meter rows, the hourly price means and the last persisted income point are parameters. The rows written are returned as values.
- `get_power`'s query window (three hours either side of the day) is not modelled. The rows it returns are an input.
- Time zones and daylight-saving time are not modelled. `as_local`, `as_utc` and `datetime.combine` become integer seconds, and a day has 24 hours of 3600 seconds.
- Floating point is not modelled: readings, prices, rates and energies are reals. `float()` parsing of the rate numeral is not modelled; the model stops at the numeral string.
- `str()` formatting of the sensor's total is not modelled: a write carries the real total.
- Text.IsSpace: covers ASCII whitespace, the separator controls, NEL and the no-break space, not the rest of Unicode whitespace that `str.strip()` removes.
- The EUR rate enters the reconciliation as a real number. When the rate is unavailable (`None`), the source fails with a type error at the first priced hour; that path is not modelled.
- Prices.ScrapeElectricityPrice: on a non-200 chart reply the source fails when it iterates `None`. The model returns `None`; in both cases nothing is written.
- Prices.RateNumeral: where the last line has a single field, the source fails with an index error; the model returns `None` (`RateLineMalformed`).
- ScrapeElectricity.ScrapeElectricity: requires the recorder rows in time order, as the recorder returns them.
- WallboxSensor.HandleCoordinatorUpdate: requires that the coordinator supply a total and an entity whenever it reports sessions. The coordinator's computation of that total is not part of this model; it is an input.
- Logging is not modelled.
- The Home Assistant entity set-up, the unit and device-class attributes, and the other integration files are not modelled.
