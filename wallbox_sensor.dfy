/** The session-energy sensor of the wallbox integration: on every
    coordinator refresh it replays the charging sessions, oldest first, onto
    the last known energy total, writing one state per session. */
module WallboxSensor {
  import opened Wrappers

  /** One charging session: when it took place and the energy it delivered
      (Wh). */
  datatype Session = Session(time: int, energy: real)

  /** What the coordinator hands the sensor: the sessions since the last
      persisted statistic and, when an energy entity is configured, the
      total to continue from and the entity to write to. */
  datatype CoordinatorData = CoordinatorData(sessions: seq<Session>, total: Option<real>, entityId: Option<string>)

  /** One state written to the entity: its id, the running total and the
      timestamp of the session that produced it. */
  datatype StateWrite = StateWrite(entityId: string, state: real, timestamp: int)

  /** The coordinator fills in the total and the entity whenever it reports
      sessions: with no entity configured it reports none. */
  predicate Consistent(data: CoordinatorData)
  {
    data.sessions != [] ==> data.total.Some? && data.entityId.Some?
  }

  // ---------------------------------------------------------------------
  // Stable sort by session time

  /** `s` placed after every element whose time is at most its own. */
  function InsertByTime(s: Session, xs: seq<Session>): (r: seq<Session>)
    ensures |r| == |xs| + 1
  {
    if xs == [] then [s]
    else if xs[0].time > s.time then [s] + xs
    else [xs[0]] + InsertByTime(s, xs[1..])
  }

  lemma {:induction false} InsertPermutes(s: Session, xs: seq<Session>)
    ensures multiset(InsertByTime(s, xs)) == multiset(xs) + multiset{s}
  {
    if xs != [] && xs[0].time <= s.time {
      InsertPermutes(s, xs[1..]);
      assert xs == [xs[0]] + xs[1..];
    }
  }

  /** `sorted(sessions, key=time)`: an insertion sort taking the sessions
      from the last one, each placed after the equal times already there. */
  function SortByTime(ss: seq<Session>): (r: seq<Session>)
    ensures |r| == |ss|
  {
    if ss == [] then [] else InsertByTime(ss[|ss| - 1], SortByTime(ss[..|ss| - 1]))
  }

  /** The sort is a permutation. */
  lemma {:induction false} SortByTimePermutes(ss: seq<Session>)
    ensures multiset(SortByTime(ss)) == multiset(ss)
  {
    if ss != [] {
      SortByTimePermutes(ss[..|ss| - 1]);
      InsertPermutes(ss[|ss| - 1], SortByTime(ss[..|ss| - 1]));
      assert ss == ss[..|ss| - 1] + [ss[|ss| - 1]];
    }
  }

  predicate SortedByTime(ss: seq<Session>)
  {
    forall i, j :: 0 <= i < j < |ss| ==> ss[i].time <= ss[j].time
  }

  /** The sessions at time `t`, in their order in `ss`. */
  function WithTime(ss: seq<Session>, t: int): seq<Session>
  {
    if ss == [] then [] else (if ss[0].time == t then [ss[0]] else []) + WithTime(ss[1..], t)
  }

  lemma {:induction false} WithTimeAppend(a: seq<Session>, b: seq<Session>, t: int)
    ensures WithTime(a + b, t) == WithTime(a, t) + WithTime(b, t)
  {
    if a != [] {
      assert (a + b)[1..] == a[1..] + b;
      WithTimeAppend(a[1..], b, t);
    } else {
      assert a + b == b;
    }
  }

  lemma WithTimeSingle(s: Session, t: int)
    ensures WithTime([s], t) == if s.time == t then [s] else []
  {
    assert [s][1..] == [];
  }

  lemma {:induction false} WithTimeNone(ss: seq<Session>, t: int)
    requires forall i :: 0 <= i < |ss| ==> ss[i].time != t
    ensures WithTime(ss, t) == []
  {
    if ss != [] {
      WithTimeNone(ss[1..], t);
    }
  }

  /** Inserting keeps every time at or above a common lower bound. */
  lemma {:induction false} InsertLowerBound(s: Session, xs: seq<Session>, b: int)
    requires s.time >= b
    requires forall i :: 0 <= i < |xs| ==> xs[i].time >= b
    ensures forall i :: 0 <= i < |InsertByTime(s, xs)| ==> InsertByTime(s, xs)[i].time >= b
  {
    if xs != [] && xs[0].time <= s.time {
      InsertLowerBound(s, xs[1..], b);
      assert InsertByTime(s, xs) == [xs[0]] + InsertByTime(s, xs[1..]);
    }
  }

  lemma {:induction false} InsertSorted(s: Session, xs: seq<Session>)
    requires SortedByTime(xs)
    ensures SortedByTime(InsertByTime(s, xs))
  {
    if xs != [] && xs[0].time <= s.time {
      var rest := InsertByTime(s, xs[1..]);
      InsertSorted(s, xs[1..]);
      InsertLowerBound(s, xs[1..], xs[0].time);
      var r := InsertByTime(s, xs);
      assert r == [xs[0]] + rest;
      forall i, j | 0 <= i < j < |r| ensures r[i].time <= r[j].time {
        assert r[j] == rest[j - 1];
        if i > 0 {
          assert r[i] == rest[i - 1];
        }
      }
    }
  }

  lemma {:induction false} InsertStable(s: Session, xs: seq<Session>, t: int)
    requires SortedByTime(xs)
    ensures WithTime(InsertByTime(s, xs), t) == WithTime(xs, t) + (if s.time == t then [s] else [])
  {
    var here := if s.time == t then [s] else [];
    if xs == [] {
      WithTimeSingle(s, t);
      assert WithTime(xs, t) == [];
    } else if xs[0].time > s.time {
      InsertBeforeLater(s, xs, t);
    } else {
      var head := if xs[0].time == t then [xs[0]] else [];
      var rest := InsertByTime(s, xs[1..]);
      InsertStable(s, xs[1..], t);
      assert InsertByTime(s, xs) == [xs[0]] + rest;
      WithTimeCons(xs[0], rest, t);
      WithTimeCons(xs[0], xs[1..], t);
      assert [xs[0]] + xs[1..] == xs;
      assert head + (WithTime(xs[1..], t) + here) == (head + WithTime(xs[1..], t)) + here;
    }
  }

  /** A session earlier than all of `xs` goes first, and `xs` holds none of
      its time. */
  lemma InsertBeforeLater(s: Session, xs: seq<Session>, t: int)
    requires SortedByTime(xs)
    requires xs != [] && xs[0].time > s.time
    ensures WithTime(InsertByTime(s, xs), t) == WithTime(xs, t) + (if s.time == t then [s] else [])
  {
    WithTimeCons(s, xs, t);
    if s.time == t {
      WithTimeNone(xs, t);
    }
  }

  lemma WithTimeCons(s: Session, xs: seq<Session>, t: int)
    ensures WithTime([s] + xs, t) == (if s.time == t then [s] else []) + WithTime(xs, t)
  {
    assert ([s] + xs)[0] == s && ([s] + xs)[1..] == xs;
  }

  /** The sort orders by time. */
  lemma {:induction false} SortByTimeSorted(ss: seq<Session>)
    ensures SortedByTime(SortByTime(ss))
  {
    if ss != [] {
      SortByTimeSorted(ss[..|ss| - 1]);
      InsertSorted(ss[|ss| - 1], SortByTime(ss[..|ss| - 1]));
    }
  }

  /** The sort keeps the input order of sessions with equal times. */
  lemma {:induction false} SortByTimeKeepsOrder(ss: seq<Session>, t: int)
    ensures WithTime(SortByTime(ss), t) == WithTime(ss, t)
  {
    if ss != [] {
      var init, last := ss[..|ss| - 1], ss[|ss| - 1];
      var here := if last.time == t then [last] else [];
      SortByTimeKeepsOrder(init, t);
      SortByTimeSorted(init);
      InsertStable(last, SortByTime(init), t);
      assert SortByTime(ss) == InsertByTime(last, SortByTime(init));
      assert WithTime(SortByTime(ss), t) == WithTime(init, t) + here;
      assert ss == init + [last];
      WithTimeAppend(init, [last], t);
      WithTimeSingle(last, t);
    }
  }

  /** The sort orders by time, is a permutation, and keeps the input order
      of sessions with equal times: it is the stable sort by time. */
  lemma SortByTimeStable(ss: seq<Session>, t: int)
    ensures SortedByTime(SortByTime(ss))
    ensures multiset(SortByTime(ss)) == multiset(ss)
    ensures WithTime(SortByTime(ss), t) == WithTime(ss, t)
  {
    SortByTimeSorted(ss);
    SortByTimePermutes(ss);
    SortByTimeKeepsOrder(ss, t);
  }

  // ---------------------------------------------------------------------
  // The replay

  /** Energy of the sessions of `ss`. */
  function EnergySum(ss: seq<Session>): real
  {
    if ss == [] then 0.0 else EnergySum(ss[..|ss| - 1]) + ss[|ss| - 1].energy
  }

  /** The writes for `ss` taken in order, from `total`. */
  function Replay(ss: seq<Session>, total: real, entityId: string): seq<StateWrite>
  {
    if ss == [] then []
    else Replay(ss[..|ss| - 1], total, entityId) + [StateWrite(entityId, total + EnergySum(ss), ss[|ss| - 1].time)]
  }

  /** One more session: one more write, carrying one more energy. */
  lemma ReplayStep(ss: seq<Session>, k: nat, total: real, entityId: string)
    requires k < |ss|
    ensures EnergySum(ss[..k + 1]) == EnergySum(ss[..k]) + ss[k].energy
    ensures Replay(ss[..k + 1], total, entityId) ==
      Replay(ss[..k], total, entityId) + [StateWrite(entityId, total + EnergySum(ss[..k + 1]), ss[k].time)]
  {
    assert ss[..k + 1][..k] == ss[..k];
  }

  /** `_handle_coordinator_update`: nothing when there are no sessions;
      otherwise the sessions in time order, the running total and one write
      per session. */
  method HandleCoordinatorUpdate(data: CoordinatorData) returns (writes: seq<StateWrite>)
    requires Consistent(data)
    ensures data.sessions == [] ==> writes == []
    ensures data.sessions != [] ==> writes == Replay(SortByTime(data.sessions), data.total.value, data.entityId.value)
  {
    writes := [];
    if |data.sessions| > 0 {
      var start := data.total.value;
      var entityId := data.entityId.value;
      var sorted := SortByTime(data.sessions);
      var total := start;
      for k := 0 to |sorted|
        invariant writes == Replay(sorted[..k], start, entityId)
        invariant total == start + EnergySum(sorted[..k])
      {
        ReplayStep(sorted, k, start, entityId);
        total := total + sorted[k].energy;
        writes := writes + [StateWrite(entityId, total, sorted[k].time)];
      }
      assert sorted[..|sorted|] == sorted;
    }
  }

  /** Write `k` goes to the entity, carries the starting total plus the
      energy of the first `k + 1` sessions, and is stamped with the time of
      session `k`; there is one write per session. */
  lemma {:induction false} ReplayWrites(ss: seq<Session>, total: real, entityId: string)
    ensures |Replay(ss, total, entityId)| == |ss|
    ensures forall k :: 0 <= k < |ss| ==>
      Replay(ss, total, entityId)[k] == StateWrite(entityId, total + EnergySum(ss[..k + 1]), ss[k].time)
  {
    if ss != [] {
      var init := ss[..|ss| - 1];
      ReplayWrites(init, total, entityId);
      forall k | 0 <= k < |init|
        ensures Replay(ss, total, entityId)[k] == StateWrite(entityId, total + EnergySum(ss[..k + 1]), ss[k].time)
      {
        assert init[..k + 1] == ss[..k + 1];
      }
      assert ss[..|ss|] == ss;
    }
  }

  /** Every written total is at least `total` and at most `top`, and none
      is below an earlier one. */
  predicate StatesBetween(writes: seq<StateWrite>, total: real, top: real)
  {
    && (forall k :: 0 <= k < |writes| ==> total <= writes[k].state <= top)
    && (forall i, j :: 0 <= i < j < |writes| ==> writes[i].state <= writes[j].state)
  }

  /** With no negative session, the written totals never decrease and never
      fall below the starting total, as a total-increasing sensor demands;
      none exceeds the starting total plus all the energy. */
  lemma {:induction false} TotalsIncrease(ss: seq<Session>, total: real, entityId: string)
    requires forall k :: 0 <= k < |ss| ==> ss[k].energy >= 0.0
    ensures 0.0 <= EnergySum(ss)
    ensures StatesBetween(Replay(ss, total, entityId), total, total + EnergySum(ss))
  {
    if ss != [] {
      var init := ss[..|ss| - 1];
      TotalsIncrease(init, total, entityId);
      var w := StateWrite(entityId, total + EnergySum(ss), ss[|ss| - 1].time);
      assert EnergySum(ss) == EnergySum(init) + ss[|ss| - 1].energy;
      assert Replay(ss, total, entityId) == Replay(init, total, entityId) + [w];
    }
  }

  /** End to end: one write per session, all to the configured entity,
      stamped with nondecreasing times; the `k`-th carries the starting total
      plus the energy of the `k + 1` earliest sessions, equal times taken in
      the order the coordinator reported them. */
  lemma SessionWrites(data: CoordinatorData, k: int)
    requires Consistent(data) && data.sessions != []
    requires 0 <= k < |data.sessions|
    ensures var writes := Replay(SortByTime(data.sessions), data.total.value, data.entityId.value);
      && |writes| == |data.sessions|
      && writes[k].entityId == data.entityId.value
      && writes[k].state == data.total.value + EnergySum(SortByTime(data.sessions)[..k + 1])
      && writes[k].timestamp == SortByTime(data.sessions)[k].time
      && (forall i, j :: 0 <= i < j < |writes| ==> writes[i].timestamp <= writes[j].timestamp)
  {
    var sorted := SortByTime(data.sessions);
    SortByTimeStable(data.sessions, 0);
    ReplayWrites(sorted, data.total.value, data.entityId.value);
  }

  /** `native_value`: the sensor reports no value of its own. */
  function NativeValue(): (r: Option<int>)
    ensures r == None
  {
    None
  }
}
