/** The price and rate readers of the electricity jobs: the day-ahead price
    chart of the market operator, the hourly price means read back from the
    statistics store, and the EUR/CZK rate text of the national bank. */
module Prices {
  import opened Wrappers
  import opened PyDict
  import opened Text
  import opened Hours

  /** The HTTP status both readers accept. */
  const HttpOk: int := 200

  /** One point of the price chart: `x` is the 1-based hour, `y` the price. */
  datatype PricePoint = PricePoint(x: int, y: real)

  /** The chart points as (hour, price) pairs, the hour made 0-based. */
  function HourKeyed(points: seq<PricePoint>): (pairs: seq<(int, real)>)
    ensures |pairs| == |points|
    ensures forall i :: 0 <= i < |points| ==> pairs[i].0 + 1 == points[i].x && pairs[i].1 == points[i].y
  {
    seq(|points|, i requires 0 <= i < |points| => (points[i].x - 1, points[i].y))
  }

  /** The dict comprehension over the chart points. */
  function PricesFromPoints(points: seq<PricePoint>): (prices: Dict<int, real>)
    ensures UniqueKeys(prices)
  {
    FromPairs(HourKeyed(points))
  }

  /** `get_prices`: nothing on a non-200 reply, otherwise the hourly prices. */
  function GetPrices(status: int, points: seq<PricePoint>): (r: Option<Dict<int, real>>)
    ensures r.Some? <==> status == HttpOk
    ensures r.Some? ==> UniqueKeys(r.value)
  {
    if status != HttpOk then None else Some(PricesFromPoints(points))
  }

  /** Reference reading of the chart: the price of the last point at `x`. */
  function LastPointPrice(points: seq<PricePoint>, x: int): Option<real>
  {
    if points == [] then None
    else if points[|points| - 1].x == x then Some(points[|points| - 1].y)
    else LastPointPrice(points[..|points| - 1], x)
  }

  lemma {:induction false} LastValueShifted(points: seq<PricePoint>, h: int)
    ensures LastValue(HourKeyed(points), h) == LastPointPrice(points, h + 1)
  {
    if points != [] {
      var init := points[..|points| - 1];
      assert HourKeyed(points)[..|points| - 1] == HourKeyed(init);
      LastValueShifted(init, h);
    }
  }

  /** Hour `h` of the parsed prices is chart point `h + 1`; where the chart
      repeats a point, the later one wins. */
  lemma PricesShiftHours(points: seq<PricePoint>, h: int)
    ensures Get(PricesFromPoints(points), h) == LastPointPrice(points, h + 1)
  {
    FromPairsGet(HourKeyed(points), h);
    LastValueShifted(points, h);
  }

  /** A statistics row with a mean, minimum and maximum. */
  datatype MeanStat = MeanStat(start: int, mean: real, min: real, max: real)

  /** One flat statistics row per price, starting at the price's hour of
      `tomorrow`, in the order of the dict. */
  function DayAheadStats(tomorrow: int, prices: Dict<int, real>): (stats: seq<MeanStat>)
    ensures |stats| == |prices|
  {
    seq(|prices|, k requires 0 <= k < |prices| =>
      MeanStat(Boundary(tomorrow, prices[k].0), prices[k].1, prices[k].1, prices[k].1))
  }

  /** Every hour of the dict is an hour of the day. */
  predicate HoursOfDay(prices: Dict<int, real>)
  {
    forall k :: 0 <= k < |prices| ==> IsHourOfDay(prices[k].0)
  }

  /** Every chart point is for an hour 1 .. 24. */
  predicate ChartHoursValid(points: seq<PricePoint>)
  {
    forall i :: 0 <= i < |points| ==> IsHourOfDay(points[i].x - 1)
  }

  /** The parsed hours are all hours of the day exactly when every chart
      point is for an hour 1 .. 24. */
  lemma ChartHoursOfDay(points: seq<PricePoint>)
    ensures HoursOfDay(PricesFromPoints(points)) <==> ChartHoursValid(points)
  {
    var pairs := HourKeyed(points);
    var prices := PricesFromPoints(points);
    if HoursOfDay(prices) {
      forall i | 0 <= i < |points| ensures IsHourOfDay(points[i].x - 1) {
        FromPairsKeys(pairs, pairs[i].0);
        var m :| 0 <= m < |prices| && Keys(prices)[m] == pairs[i].0;
      }
    }
    if ChartHoursValid(points) {
      forall k | 0 <= k < |prices| ensures IsHourOfDay(prices[k].0) {
        assert Keys(prices)[k] == prices[k].0;
        FromPairsKeys(pairs, prices[k].0);
        var i :| 0 <= i < |pairs| && pairs[i].0 == prices[k].0;
      }
    }
  }

  /** Row `k` is the price of the hour of the day it starts at, flat. */
  ghost predicate RowOfPrice(s: MeanStat, tomorrow: int, prices: Dict<int, real>)
  {
    s.min == s.mean && s.max == s.mean &&
    exists h :: IsHourOfDay(h) && s.start == Boundary(tomorrow, h) && Get(prices, h) == Some(s.mean)
  }

  /** No two rows share a start. */
  predicate StartsDistinct(stats: seq<MeanStat>)
  {
    forall i, j :: 0 <= i < j < |stats| ==> stats[i].start != stats[j].start
  }

  /** Every row is the price of one hour with mean = min = max, no two rows
      share a start, and every priced hour has its row. */
  lemma DayAheadOnePerHour(tomorrow: int, prices: Dict<int, real>)
    requires UniqueKeys(prices) && HoursOfDay(prices)
    ensures StartsDistinct(DayAheadStats(tomorrow, prices))
    ensures forall k :: 0 <= k < |DayAheadStats(tomorrow, prices)| ==>
      RowOfPrice(DayAheadStats(tomorrow, prices)[k], tomorrow, prices)
  {
    var stats := DayAheadStats(tomorrow, prices);
    forall i, j | 0 <= i < j < |stats| ensures stats[i].start != stats[j].start {
      BoundaryInjective(tomorrow, prices[i].0, prices[j].0);
    }
    forall k | 0 <= k < |stats| ensures RowOfPrice(stats[k], tomorrow, prices) {
      GetAt(prices, k);
      assert stats[k].start == Boundary(tomorrow, prices[k].0);
    }
  }

  /** Every priced hour is an hour of the day and has its row. */
  lemma DayAheadHourCovered(tomorrow: int, prices: Dict<int, real>, h: int)
    requires HoursOfDay(prices)
    requires Get(prices, h).Some?
    ensures IsHourOfDay(h)
    ensures exists k :: (0 <= k < |DayAheadStats(tomorrow, prices)| &&
      DayAheadStats(tomorrow, prices)[k].start == Boundary(tomorrow, h) &&
      DayAheadStats(tomorrow, prices)[k].mean == Get(prices, h).value)
  {
    var stats := DayAheadStats(tomorrow, prices);
    var v := Get(prices, h).value;
    var k :| 0 <= k < |prices| && prices[k] == (h, v);
    assert stats[k].start == Boundary(tomorrow, h) && stats[k].mean == v;
  }

  /** `scrape_electricity_price`: the rows for tomorrow's prices. Nothing is
      written when the chart cannot be read, nor when some chart hour is
      outside 1 .. 24, where building that row's start time fails. */
  function ScrapeElectricityPrice(tomorrow: int, status: int, points: seq<PricePoint>): (r: Option<seq<MeanStat>>)
    ensures r.Some? <==> status == HttpOk && ChartHoursValid(points)
  {
    match GetPrices(status, points)
    case None => None
    case Some(prices) =>
      ChartHoursOfDay(points);
      if HoursOfDay(prices) then Some(DayAheadStats(tomorrow, prices)) else None
  }

  /** End to end, on a 200 reply whose chart hours are all 1 .. 24: the
      rows have distinct starts; each is flat at an hour `h` of tomorrow
      with the price of the last chart point `h + 1`; and every chart point
      has its row. */
  lemma ScrapeElectricityPriceRows(tomorrow: int, points: seq<PricePoint>, h: int)
    requires ChartHoursValid(points)
    ensures ScrapeElectricityPrice(tomorrow, HttpOk, points).Some?
    ensures StartsDistinct(ScrapeElectricityPrice(tomorrow, HttpOk, points).value)
    ensures forall k :: 0 <= k < |ScrapeElectricityPrice(tomorrow, HttpOk, points).value| ==>
      RowOfPrice(ScrapeElectricityPrice(tomorrow, HttpOk, points).value[k], tomorrow, PricesFromPoints(points))
    ensures LastPointPrice(points, h + 1).Some? ==>
      IsHourOfDay(h) &&
      exists k :: (0 <= k < |ScrapeElectricityPrice(tomorrow, HttpOk, points).value| &&
        ScrapeElectricityPrice(tomorrow, HttpOk, points).value[k].start == Boundary(tomorrow, h) &&
        ScrapeElectricityPrice(tomorrow, HttpOk, points).value[k].mean == LastPointPrice(points, h + 1).value)
  {
    var prices := PricesFromPoints(points);
    ChartHoursOfDay(points);
    DayAheadOnePerHour(tomorrow, prices);
    PricesShiftHours(points, h);
    if LastPointPrice(points, h + 1).Some? {
      DayAheadHourCovered(tomorrow, prices, h);
    }
  }

  /** A chart point for an hour outside 1 .. 24 stops the job before it
      writes anything. */
  lemma ChartHourOutsideDay(tomorrow: int, status: int, points: seq<PricePoint>, i: int)
    requires 0 <= i < |points| && !IsHourOfDay(points[i].x - 1)
    ensures ScrapeElectricityPrice(tomorrow, status, points).None?
  {
  }

  /** `get_prices_stats`: the hourly means keyed by their position. */
  function PricesFromStats(means: seq<real>): (prices: map<int, real>)
    ensures forall h :: h in prices <==> 0 <= h < |means|
    ensures forall h :: 0 <= h < |means| ==> prices[h] == means[h]
  {
    map h | 0 <= h < |means| :: means[h]
  }

  /** The rate numeral of the bank's reply: the second `|` field of the last
      line, with the decimal comma turned into a point. `None` where that line
      has a single field, where the source fails with an index error. */
  function RateNumeral(text: string): (r: Option<string>)
    ensures r.Some? ==> ',' !in r.value
  {
    var lines := Split(Strip(text), '\n');
    var fields := Split(Strip(lines[|lines| - 1]), '|');
    if |fields| < 2 then None else Some(ReplaceChar(fields[1], ',', '.'))
  }

  /** What `get_eur_rate` obtains before converting to a number. */
  datatype RateReply = RateUnavailable | RateLineMalformed | RateText(numeral: string)

  function GetEurRate(status: int, text: string): (r: RateReply)
    ensures r == RateUnavailable <==> status != HttpOk
    ensures r.RateText? ==> ',' !in r.numeral
  {
    if status != HttpOk then RateUnavailable
    else match RateNumeral(text)
      case None => RateLineMalformed
      case Some(n) => RateText(n)
  }

  lemma RateNumeralOfFields(text: string, lines: seq<string>, fields: seq<string>)
    requires Split(Strip(text), '\n') == lines
    requires |fields| >= 2 && Split(Strip(lines[|lines| - 1]), '|') == fields
    ensures RateNumeral(text) == Some(ReplaceChar(fields[1], ',', '.'))
  {
  }

  /** A reply made of lines, possibly padded with whitespace, whose last
      line is `|`-separated fields, possibly indented, yields the second
      field of the last line with its decimal comma made a point. */
  lemma EurRateOfLastLine(ws1: string, lines: seq<string>, ws3: string, fields: seq<string>, ws2: string)
    requires AllSpace(ws1) && AllSpace(ws2) && AllSpace(ws3)
    requires |lines| >= 1 && forall i :: 0 <= i < |lines| ==> '\n' !in lines[i]
    requires lines[0] != [] && !IsSpace(lines[0][0])
    requires |fields| >= 2 && forall i :: 0 <= i < |fields| ==> '|' !in fields[i]
    requires Trimmed(Join(fields, '|'))
    requires lines[|lines| - 1] == ws3 + Join(fields, '|')
    ensures GetEurRate(HttpOk, ws1 + Join(lines, '\n') + ws2) == RateText(ReplaceChar(fields[1], ',', '.'))
  {
    var text := ws1 + Join(lines, '\n') + ws2;
    var core := Join(lines, '\n');
    var fieldText := Join(fields, '|');
    var last := lines[|lines| - 1];
    assert fieldText != [] && last != [];
    JoinEnds(lines, '\n');
    assert last[|last| - 1] == fieldText[|fieldText| - 1];
    StripPadded(ws1, core, ws2);
    SplitJoin(lines, '\n');
    StripPadded(ws3, fieldText, []);
    assert ws3 + fieldText + [] == last;
    SplitJoin(fields, '|');
    RateNumeralOfFields(text, lines, fields);
  }

  /** A last line without a `|` has no rate field. */
  lemma EurRateNeedsTwoFields(text: string)
    requires var lines := Split(Strip(text), '\n'); '|' !in Strip(lines[|lines| - 1])
    ensures GetEurRate(HttpOk, text) == RateLineMalformed
  {
    var lines := Split(Strip(text), '\n');
    var last := Strip(lines[|lines| - 1]);
    SplitJoin([last], '|');
    assert Join([last], '|') == last;
    RateNumeralOfOneField(text, lines, Split(last, '|'));
  }

  lemma RateNumeralOfOneField(text: string, lines: seq<string>, fields: seq<string>)
    requires Split(Strip(text), '\n') == lines
    requires |fields| < 2 && Split(Strip(lines[|lines| - 1]), '|') == fields
    ensures RateNumeral(text) == None
  {
  }
}
