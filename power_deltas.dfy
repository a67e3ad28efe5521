/** The power-delta extractor of the hourly PV-income reconciliation: the
    export meter's cumulative readings are sampled at the 25 hour boundaries
    of a day and consecutive snapshots are subtracted. */
module PowerDeltas {
  import opened Wrappers
  import opened PyDict
  import opened Bisect
  import opened Hours

  /** Hours sampled: the boundaries 0 through 24 of the day. */
  const BoundaryCount: nat := HoursPerDay + 1

  /** One recorder row of the export meter: (last_changed, state). */
  type Sample = (int, real)

  /** Rows in the order the recorder returns them: by time. */
  predicate TimeOrdered(samples: seq<Sample>)
  {
    forall i, j :: 0 <= i < j < |samples| ==> samples[i].0 <= samples[j].0
  }

  /** The meter readings keyed by timestamp (a dict comprehension over the
      rows, so a later row overwrites an earlier one with the same time). */
  function PowerPoints(samples: seq<Sample>): Dict<int, real>
  {
    FromPairs(samples)
  }

  /** The timestamps of the readings strictly increase, so they are a valid
      `bisect_right` list. */
  lemma PowerPointsSorted(samples: seq<Sample>)
    requires TimeOrdered(samples)
    ensures Sorted(Keys(PowerPoints(samples)))
    ensures forall i, j :: 0 <= i < j < |PowerPoints(samples)| ==> PowerPoints(samples)[i].0 < PowerPoints(samples)[j].0
  {
    FromPairsOrdered(samples);
  }

  /** The number of readings at or before boundary `h`: what `bisect_right`
      returns for that boundary. */
  function AtOrBefore(dates: seq<int>, base: int, h: int): nat
  {
    CountAtMost(dates, Boundary(base, h))
  }

  /** The snapshots recorded for boundaries 0 .. n-1, in insertion order: a
      boundary with no reading at or before it is skipped, and a boundary
      that is not earlier than the last reading records nothing. */
  function Resolve(dates: seq<int>, values: seq<real>, base: int, n: nat): Dict<int, real>
    requires |values| == |dates|
  {
    if n == 0 then []
    else
      var h := n - 1;
      var i := AtOrBefore(dates, base, h);
      Resolve(dates, values, base, h) + (if 0 < i < |dates| then [(h, values[i - 1])] else [])
  }

  /** Boundary resolution as the job runs it: one `bisect_right` per boundary,
      each resumed at the previous index; skip while no reading precedes the
      boundary, stop at the first boundary not earlier than the last reading. */
  method ResolveBoundaries(dates: seq<int>, values: seq<real>, base: int) returns (powers: Dict<int, real>)
    requires |values| == |dates|
    requires Sorted(dates)
    ensures powers == Resolve(dates, values, base, BoundaryCount)
  {
    var i := 0;
    powers := [];
    for h := 0 to BoundaryCount
      invariant powers == Resolve(dates, values, base, h)
      invariant i == if h == 0 then 0 else AtOrBefore(dates, base, h - 1)
    {
      if h > 0 {
        CountAtMostSplits(dates, Boundary(base, h - 1));
        BoundaryStep(base, h - 1);
      }
      ResumedSearch(dates, Boundary(base, h), i);
      i := BisectRight(dates, Boundary(base, h), i);
      if i == 0 {
        continue;
      }
      if i >= |dates| {
        ResolveSettled(dates, values, base, h, BoundaryCount);
        break;
      }
      ResolveKeysBelow(dates, values, base, h);
      powers := Put(powers, h, values[i - 1]);
    }
  }

  /** Every key recorded for boundaries below `n` is an hour in 0 .. n-1. */
  lemma {:induction false} ResolveKeysBelow(dates: seq<int>, values: seq<real>, base: int, n: nat)
    requires |values| == |dates|
    ensures forall k :: 0 <= k < |Resolve(dates, values, base, n)| ==> 0 <= Resolve(dates, values, base, n)[k].0 < n
    ensures forall h :: h in Keys(Resolve(dates, values, base, n)) ==> 0 <= h < n
  {
    if n > 0 {
      ResolveKeysBelow(dates, values, base, n - 1);
    }
  }

  /** Once a boundary is not earlier than the last reading, no later boundary
      adds a snapshot. */
  lemma {:induction false} ResolveSettled(dates: seq<int>, values: seq<real>, base: int, h: nat, n: nat)
    requires |values| == |dates|
    requires h <= n
    requires AtOrBefore(dates, base, h) == |dates|
    ensures Resolve(dates, values, base, n) == Resolve(dates, values, base, h)
  {
    if h < n {
      ResolveSettled(dates, values, base, h, n - 1);
      CountAtMostMonotone(dates, Boundary(base, h), Boundary(base, n - 1));
    }
  }

  /** The snapshot boundary `h` gets among the first `n`: the reading at
      index `AtOrBefore - 1`, when some reading is at or before the boundary
      and some reading is after it. */
  function SnapshotAt(dates: seq<int>, values: seq<real>, base: int, n: nat, h: int): Option<real>
    requires |values| == |dates|
  {
    var i := AtOrBefore(dates, base, h);
    if 0 <= h < n && 0 < i < |dates| then Some(values[i - 1]) else None
  }

  /** The snapshot recorded for boundary `h` among the first `n` (if any)
      is the reading at index `AtOrBefore - 1`, and one is recorded exactly
      when some reading is at or before the boundary and some reading is
      after it. */
  lemma {:induction false} ResolveGet(dates: seq<int>, values: seq<real>, base: int, n: nat, h: int)
    requires |values| == |dates|
    ensures Get(Resolve(dates, values, base, n), h) == SnapshotAt(dates, values, base, n, h)
  {
    if n > 0 {
      ResolveStep(dates, values, base, n, h);
      if h != n - 1 {
        ResolveGet(dates, values, base, n - 1, h);
        SnapshotShift(dates, values, base, n, h);
      }
    }
  }

  /** Adding a boundary other than `h` leaves `h`'s snapshot alone. */
  lemma SnapshotShift(dates: seq<int>, values: seq<real>, base: int, n: nat, h: int)
    requires |values| == |dates|
    requires n > 0 && h != n - 1
    ensures SnapshotAt(dates, values, base, n, h) == SnapshotAt(dates, values, base, n - 1, h)
  {
  }

  /** One more boundary: hour `n - 1` gets its snapshot, if any, and every
      other hour reads as before. */
  lemma ResolveStep(dates: seq<int>, values: seq<real>, base: int, n: nat, h: int)
    requires |values| == |dates|
    requires n > 0
    ensures h != n - 1 ==> Get(Resolve(dates, values, base, n), h) == Get(Resolve(dates, values, base, n - 1), h)
    ensures h == n - 1 ==> Get(Resolve(dates, values, base, n), h) == SnapshotAt(dates, values, base, n, h)
  {
    var prev := Resolve(dates, values, base, n - 1);
    ResolveKeysBelow(dates, values, base, n - 1);
    var i := AtOrBefore(dates, base, n - 1);
    if 0 < i < |dates| {
      var p := Put(prev, n - 1, values[i - 1]);
      assert p == prev + [(n - 1, values[i - 1])];
      assert Resolve(dates, values, base, n) == p;
    } else {
      assert Resolve(dates, values, base, n) == prev;
    }
  }

  /** Which boundaries get a snapshot, stated on the readings themselves: hour
      h (0 .. 24) is recorded exactly when the first reading is at or before
      its boundary and the last reading is after it. */
  lemma ResolvedHours(dates: seq<int>, values: seq<real>, base: int, h: int)
    requires |values| == |dates|
    requires Sorted(dates)
    ensures Get(Resolve(dates, values, base, BoundaryCount), h).Some? <==>
      0 <= h < BoundaryCount && |dates| > 0 && dates[0] <= Boundary(base, h) < dates[|dates| - 1]
  {
    ResolveGet(dates, values, base, BoundaryCount, h);
    CountAtMostSplits(dates, Boundary(base, h));
  }

  /** Each snapshot is the value of the right-most reading at or before its
      boundary: the reading after that one is already past the boundary. */
  lemma SnapshotIsLatestReading(dates: seq<int>, values: seq<real>, base: int, n: nat, h: int, v: real)
    requires |values| == |dates|
    requires Sorted(dates)
    requires Get(Resolve(dates, values, base, n), h) == Some(v)
    ensures exists i :: 0 <= i < |dates| - 1 && dates[i] <= Boundary(base, h) < dates[i + 1] && v == values[i]
  {
    ResolveGet(dates, values, base, n, h);
    CountAtMostSplits(dates, Boundary(base, h));
    var i := AtOrBefore(dates, base, h) - 1;
    assert dates[i] <= Boundary(base, h) < dates[i + 1] && v == values[i];
  }

  /** Row `j` holds `v` at or before `b`, and every later row is past `b`. */
  predicate LatestRowAtOrBefore(samples: seq<Sample>, j: int, b: int, v: real)
  {
    0 <= j < |samples| && samples[j].0 <= b && samples[j].1 == v &&
    forall j' :: j < j' < |samples| ==> samples[j'].0 > b
  }

  /** Stated on the recorder rows: a snapshot is the value of some row at or
      before its boundary after which every row is past the boundary; where
      rows share a time, the later row decides. Stated for any number `n`
      of boundaries; the job uses `BoundaryCount`. */
  lemma SnapshotOfRows(samples: seq<Sample>, base: int, n: nat, h: int, v: real)
    requires TimeOrdered(samples)
    requires Get(Resolve(Keys(PowerPoints(samples)), Values(PowerPoints(samples)), base, n), h) == Some(v)
    ensures exists j :: LatestRowAtOrBefore(samples, j, Boundary(base, h), v)
  {
    var d := PowerPoints(samples);
    assert Sorted(Keys(d)) by {
      PowerPointsSorted(samples);
    }
    SnapshotBracket(d, base, n, h, v);
    var i :| 0 <= i < |d| - 1 && d[i].0 <= Boundary(base, h) < d[i + 1].0 && v == d[i].1;
    ReadingRow(samples, i, Boundary(base, h));
  }

  /** The snapshot of boundary `h` over a dict of readings is the value of
      the dict entry whose time brackets the boundary with the next one. */
  lemma SnapshotBracket(d: Dict<int, real>, base: int, n: nat, h: int, v: real)
    requires Sorted(Keys(d))
    requires Get(Resolve(Keys(d), Values(d), base, n), h) == Some(v)
    ensures exists i :: 0 <= i < |d| - 1 && d[i].0 <= Boundary(base, h) < d[i + 1].0 && v == d[i].1
  {
    SnapshotIsLatestReading(Keys(d), Values(d), base, n, h, v);
    var i :| 0 <= i < |d| - 1 && Keys(d)[i] <= Boundary(base, h) < Keys(d)[i + 1] && v == Values(d)[i];
    assert d[i].0 <= Boundary(base, h) < d[i + 1].0 && v == d[i].1;
  }

  /** Reading `i` of the dict, when it is the last one at or before `b`,
      comes from a row after which every row is past `b`. */
  lemma ReadingRow(samples: seq<Sample>, i: nat, b: int)
    requires TimeOrdered(samples)
    requires i + 1 < |PowerPoints(samples)|
    requires PowerPoints(samples)[i].0 <= b < PowerPoints(samples)[i + 1].0
    ensures exists j :: LatestRowAtOrBefore(samples, j, b, PowerPoints(samples)[i].1)
  {
    var d := PowerPoints(samples);
    var dates := Keys(d);
    var v := d[i].1;
    PowerPointsSorted(samples);
    GetAt(d, i);
    FromPairsGet(samples, d[i].0);
    LastValueLatest(samples, d[i].0, v);
    var j :| 0 <= j < |samples| && samples[j] == (d[i].0, v) &&
      forall j' :: j < j' < |samples| ==> samples[j'].0 != d[i].0;
    forall j' | j < j' < |samples| ensures samples[j'].0 > b {
      LaterRowPast(samples, dates, i, j, j');
    }
    assert LatestRowAtOrBefore(samples, j, b, v);
  }

  /** A row later than the row of reading `i`, with a different time, is at
      or after reading `i + 1`. */
  lemma LaterRowPast(samples: seq<Sample>, dates: seq<int>, i: nat, j: nat, j': nat)
    requires TimeOrdered(samples)
    requires dates == Keys(PowerPoints(samples))
    requires forall a, c :: 0 <= a < c < |PowerPoints(samples)| ==> PowerPoints(samples)[a].0 < PowerPoints(samples)[c].0
    requires i + 1 < |dates| && j < j' < |samples|
    requires samples[j].0 == dates[i] && samples[j'].0 != dates[i]
    ensures samples[j'].0 >= dates[i + 1]
  {
    var d := PowerPoints(samples);
    FromPairsKeys(samples, samples[j'].0);
    var m :| 0 <= m < |dates| && dates[m] == samples[j'].0;
    if m > i + 1 {
      assert d[i + 1].0 < d[m].0;
    }
  }

  /** The keys of a dict are consecutive integers from its first key on. */
  predicate Consecutive(p: Dict<int, real>)
  {
    forall k :: 0 <= k < |p| ==> p[k].0 == p[0].0 + k
  }

  /** `p` is empty, or a run of consecutive hours from 0 on whose first
      hour has a reading at or before it and whose last hour is `n - 1`
      unless boundary `n - 1` already has every reading at or before it. */
  predicate ContiguousRun(dates: seq<int>, base: int, n: nat, p: Dict<int, real>)
  {
    p == [] ||
    (&& Consecutive(p)
     && 0 <= p[0].0
     && 0 < AtOrBefore(dates, base, p[0].0)
     && (p[|p| - 1].0 == n - 1 || AtOrBefore(dates, base, n - 1) == |dates|))
  }

  /** The recorded hours are consecutive. The first has a reading at or before
      it, and if the last recorded hour is not the last boundary considered,
      that boundary already has every reading at or before it. */
  lemma {:induction false} ResolveContiguous(dates: seq<int>, values: seq<real>, base: int, n: nat)
    requires |values| == |dates|
    ensures ContiguousRun(dates, base, n, Resolve(dates, values, base, n))
  {
    if n > 0 {
      ResolveContiguous(dates, values, base, n - 1);
      if Resolve(dates, values, base, n - 1) == [] {
        ContiguousStart(dates, values, base, n);
      } else {
        ContiguousExtend(dates, values, base, n);
      }
    }
  }

  /** The first recorded hour starts a run. */
  lemma ContiguousStart(dates: seq<int>, values: seq<real>, base: int, n: nat)
    requires |values| == |dates|
    requires n > 0 && Resolve(dates, values, base, n - 1) == []
    ensures ContiguousRun(dates, base, n, Resolve(dates, values, base, n))
  {
    var h := n - 1;
    var i := AtOrBefore(dates, base, h);
    if 0 < i < |dates| {
      assert Resolve(dates, values, base, n) == [(h, values[i - 1])];
    } else {
      assert Resolve(dates, values, base, n) == [];
    }
  }

  /** A run is extended by the next boundary or stays as it is. */
  lemma ContiguousExtend(dates: seq<int>, values: seq<real>, base: int, n: nat)
    requires |values| == |dates|
    requires n > 0 && Resolve(dates, values, base, n - 1) != []
    requires ContiguousRun(dates, base, n - 1, Resolve(dates, values, base, n - 1))
    ensures ContiguousRun(dates, base, n, Resolve(dates, values, base, n))
  {
    var h := n - 1;
    var prev := Resolve(dates, values, base, h);
    var p := Resolve(dates, values, base, n);
    var i := AtOrBefore(dates, base, h);
    ResolveKeysBelow(dates, values, base, h);
    var first, last := prev[0].0, prev[|prev| - 1].0;
    CountAtMostMonotone(dates, Boundary(base, first), Boundary(base, h));
    assert 0 < i;
    if h > 0 {
      CountAtMostMonotone(dates, Boundary(base, h - 1), Boundary(base, h));
    }
    if i < |dates| {
      assert last == h - 1;
      assert p == prev + [(h, values[i - 1])];
      assert p[|p| - 1].0 == first + |prev|;
    } else {
      assert p == prev;
    }
  }

  /** The per-hour deltas: consecutive snapshots (in insertion order) are
      subtracted and keyed by the earlier snapshot's hour. */
  function PowerDiffs(powers: Dict<int, real>): map<int, real>
  {
    if |powers| < 2 then map[]
    else
      var n := |powers|;
      PowerDiffs(powers[..n - 1])[powers[n - 2].0 := powers[n - 1].1 - powers[n - 2].1]
  }

  /** Over consecutive hours, there is one delta per snapshot but the last,
      `diffs[h] = powers[h + 1] - powers[h]`. */
  lemma {:induction false} PowerDiffsOfConsecutive(powers: Dict<int, real>, h: int)
    requires Consecutive(powers)
    ensures h in PowerDiffs(powers) <==> |powers| > 0 && powers[0].0 <= h < powers[0].0 + |powers| - 1
    ensures h in PowerDiffs(powers) ==>
      PowerDiffs(powers)[h] == powers[h - powers[0].0 + 1].1 - powers[h - powers[0].0].1
  {
    if |powers| >= 2 {
      var n, f := |powers|, powers[0].0;
      var init := powers[..n - 1];
      assert Consecutive(init);
      var k := powers[n - 2].0;
      assert k == f + n - 2;
      if h != k {
        PowerDiffsOfConsecutive(init, h);
        if h in PowerDiffs(init) {
          assert init[h - f + 1] == powers[h - f + 1] && init[h - f] == powers[h - f];
        }
      }
    }
  }

  /** Over consecutive hours, the number of deltas is one fewer than the
      number of snapshots, and none for fewer than two. */
  lemma {:induction false} PowerDiffsCount(powers: Dict<int, real>)
    requires Consecutive(powers)
    ensures |PowerDiffs(powers)| == if |powers| < 2 then 0 else |powers| - 1
  {
    if |powers| >= 2 {
      var n := |powers|;
      var init := powers[..n - 1];
      assert Consecutive(init);
      PowerDiffsCount(init);
      PowerDiffsOfConsecutive(init, powers[n - 2].0);
      assert powers[n - 2].0 !in PowerDiffs(init);
    }
  }

  /** There is one delta fewer than there are snapshots, and none for fewer
      than two. */
  lemma HourlyDeltaCount(dates: seq<int>, values: seq<real>, base: int)
    requires |values| == |dates|
    ensures var p := Resolve(dates, values, base, BoundaryCount);
      |PowerDiffs(p)| == if |p| < 2 then 0 else |p| - 1
  {
    var p := Resolve(dates, values, base, BoundaryCount);
    ResolveContiguous(dates, values, base, BoundaryCount);
    if p != [] {
      PowerDiffsCount(p);
    }
  }

  /** Over consecutive hours, hour h has a delta exactly when both h and
      h + 1 have snapshots, and the delta is their difference. */
  lemma DeltaOfSnapshots(p: Dict<int, real>, h: int)
    requires Consecutive(p)
    ensures h in PowerDiffs(p) <==> Get(p, h).Some? && Get(p, h + 1).Some?
    ensures h in PowerDiffs(p) ==> PowerDiffs(p)[h] == Get(p, h + 1).value - Get(p, h).value
  {
    var d := PowerDiffs(p);
    PowerDiffsOfConsecutive(p, h);
    ConsecutiveGet(p, h);
    ConsecutiveGet(p, h + 1);
    if p != [] {
      var f := p[0].0;
      assert h in d <==> f <= h < f + |p| - 1;
      if h in d {
        assert d[h] == p[h - f + 1].1 - p[h - f].1;
      }
    } else {
      assert d == map[];
    }
  }

  /** The deltas of a day, stated on the readings: hour h has a delta exactly
      when its boundary has a reading at or before it and boundary h + 1 has
      a reading after it, and the delta is the reading at or before boundary
      h + 1 minus the reading at or before boundary h. Stated for any number
      `n` of boundaries; the job uses `BoundaryCount`. */
  lemma HourlyDeltas(dates: seq<int>, values: seq<real>, base: int, n: nat, h: int)
    requires |values| == |dates|
    requires Sorted(dates)
    ensures var d := PowerDiffs(Resolve(dates, values, base, n));
      h in d <==> 0 <= h < n - 1 && 0 < AtOrBefore(dates, base, h) && AtOrBefore(dates, base, h + 1) < |dates|
    ensures var d := PowerDiffs(Resolve(dates, values, base, n));
      h in d ==>
        && 0 < AtOrBefore(dates, base, h) <= AtOrBefore(dates, base, h + 1) < |dates|
        && d[h] == values[AtOrBefore(dates, base, h + 1) - 1] - values[AtOrBefore(dates, base, h) - 1]
  {
    var p := Resolve(dates, values, base, n);
    ResolveContiguous(dates, values, base, n);
    assert Consecutive(p);
    ResolveGet(dates, values, base, n, h);
    ResolveGet(dates, values, base, n, h + 1);
    CountAtMostMonotone(dates, Boundary(base, h), Boundary(base, h + 1));
    DeltaOfReadings(p, dates, values, base, n, h);
  }

  /** The delta of hour h over any consecutive snapshots that agree with the
      readings at boundaries h and h + 1. */
  lemma DeltaOfReadings(p: Dict<int, real>, dates: seq<int>, values: seq<real>, base: int, n: nat, h: int)
    requires |values| == |dates|
    requires Consecutive(p)
    requires Get(p, h) == SnapshotAt(dates, values, base, n, h)
    requires Get(p, h + 1) == SnapshotAt(dates, values, base, n, h + 1)
    requires AtOrBefore(dates, base, h) <= AtOrBefore(dates, base, h + 1)
    ensures h in PowerDiffs(p) <==> 0 <= h < n - 1 && 0 < AtOrBefore(dates, base, h) && AtOrBefore(dates, base, h + 1) < |dates|
    ensures h in PowerDiffs(p) ==>
      && 0 < AtOrBefore(dates, base, h) <= AtOrBefore(dates, base, h + 1) < |dates|
      && PowerDiffs(p)[h] == values[AtOrBefore(dates, base, h + 1) - 1] - values[AtOrBefore(dates, base, h) - 1]
  {
    DeltaOfSnapshots(p, h);
  }

  /** In a dict with consecutive keys, a key is present exactly when it lies
      in the run, and its value sits at its offset from the first key. */
  lemma ConsecutiveGet(p: Dict<int, real>, h: int)
    requires Consecutive(p)
    ensures Get(p, h).Some? <==> p != [] && p[0].0 <= h < p[0].0 + |p|
    ensures Get(p, h).Some? ==> p != [] && 0 <= h - p[0].0 < |p| && Get(p, h).value == p[h - p[0].0].1
  {
    if Get(p, h).Some? {
      var k :| 0 <= k < |p| && Keys(p)[k] == h;
      assert p[k].0 == p[0].0 + k;
      GetAt(p, k);
    }
    if p != [] && p[0].0 <= h < p[0].0 + |p| {
      GetAt(p, h - p[0].0);
    }
  }
}
