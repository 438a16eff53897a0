/** The enrichment stages of the metric pipeline (analysis.py).

    Each stage is a pure table-to-table function that keeps every row, in
    order, with its input columns untouched, and adds one derived column:
      1. `AddRunningCounts`    running_cars
      2. `AddFinishedRanking`  position_finish_only (calls stage 1)
      3. `AddFinishPercentile` finish_percentile (calls stage 2, then drops
                               position_finish_only)
      4. `AddRelativeBestLap`  best_lap_percentage (best_speed_session is an
                               intermediate column, dropped again)
      5. `AddPositionChange`   position_change
    Rounding of the percentages to two decimals is not modelled. */
module Enrichment {
  import opened Options
  import opened Seqs
  import opened Records

  // ---------------------------------------------------------------------------
  // Stage 1: running_cars
  // ---------------------------------------------------------------------------

  /** Rows that are "Running" in event `e`. */
  function RunningIn(e: int): Record -> bool {
    r => IsRunning(r) && r.eventId == e
  }

  /** Number of "Running" rows of event `e` (0 when there are none, which is
      what `fillna(0)` yields for an event missing from `value_counts`). */
  function RunningCount(rs: seq<Record>, e: int): nat {
    Count(rs, RunningIn(e))
  }

  /** Adds `running_cars` to every row. */
  function AddRunningCounts(t: Table): (out: Table)
    ensures SameRecords(out, t)
    ensures forall i :: 0 <= i < |t| ==> out[i].runningCars.Some?
    ensures forall i, j :: 0 <= i < |t| && 0 <= j < |t| && t[i].rec.eventId == t[j].rec.eventId ==>
      out[i].runningCars == out[j].runningCars
    ensures forall i :: 0 <= i < |t| ==> out[i] == t[i].(runningCars := out[i].runningCars)
  {
    var rs := Recs(t);
    seq(|t|, i requires 0 <= i < |t| => t[i].(runningCars := Some(RunningCount(rs, t[i].rec.eventId))))
  }

  /** `running_cars` is the number of "Running" rows sharing the row's
      `event_id`. */
  lemma RunningCarsCountsRunningRows(t: Table, i: int)
    requires 0 <= i < |t|
    ensures AddRunningCounts(t)[i].runningCars ==
      Some(|set j | 0 <= j < |t| && IsRunning(t[j].rec) && t[j].rec.eventId == t[i].rec.eventId|)
    ensures AddRunningCounts(t)[i].runningCars == Some(0) <==>
      forall j :: 0 <= j < |t| && t[j].rec.eventId == t[i].rec.eventId ==> !IsRunning(t[j].rec)
  {
    var rs := Recs(t);
    var e := t[i].rec.eventId;
    CountIsIndexCount(rs, RunningIn(e));
    assert Indices(rs, RunningIn(e)) ==
      set j | 0 <= j < |t| && IsRunning(t[j].rec) && t[j].rec.eventId == e;
    CountPositive(rs, RunningIn(e));
  }

  /** The one-pass computation the source performs: `value_counts` of the
      event ids of the "Running" rows. An event is a key exactly when it has a
      "Running" row. */
  method RunningValueCounts(t: Table) returns (counts: map<int, nat>)
    ensures forall e :: e in counts <==> RunningCount(Recs(t), e) > 0
    ensures forall e :: e in counts ==> counts[e] == RunningCount(Recs(t), e)
  {
    var rs := Recs(t);
    counts := map[];
    var i := 0;
    while i < |rs|
      invariant 0 <= i <= |rs|
      invariant forall e :: e in counts <==> RunningCount(rs[..i], e) > 0
      invariant forall e :: e in counts ==> counts[e] == RunningCount(rs[..i], e)
    {
      assert rs[..i + 1][..i] == rs[..i];
      var r := rs[i];
      if IsRunning(r) {
        var n := if r.eventId in counts then counts[r.eventId] else 0;
        counts := counts[r.eventId := n + 1];
      }
      i := i + 1;
    }
    assert rs[..|rs|] == rs;
  }

  /** Stage 1 as the source computes it: map each `event_id` through the
      counts and fill the missing ones with 0. */
  method AddRunningCountsByValueCounts(t: Table) returns (out: Table)
    ensures out == AddRunningCounts(t)
  {
    var counts := RunningValueCounts(t);
    out := seq(|t|, i requires 0 <= i < |t| =>
      t[i].(runningCars := Some(if t[i].rec.eventId in counts then counts[t[i].rec.eventId] else 0)));
  }

  // ---------------------------------------------------------------------------
  // Stage 2: position_finish_only (minimum-rank ties)
  // ---------------------------------------------------------------------------

  /** "Running" rows of event `e` that finished strictly ahead of position `p`. */
  function RunningAhead(e: int, p: int): Record -> bool {
    r => IsRunning(r) && r.eventId == e && r.positionFinish < p
  }

  /** "Running" rows of event `e` that finished at position `p`. */
  function RunningTied(e: int, p: int): Record -> bool {
    r => IsRunning(r) && r.eventId == e && r.positionFinish == p
  }

  /** "Running" rows of event `e` that finished at or ahead of position `p`. */
  function RunningUpTo(e: int, p: int): Record -> bool {
    r => IsRunning(r) && r.eventId == e && r.positionFinish <= p
  }

  /** pandas `rank(method="min")` of `r` among the "Running" rows of its event:
      one more than the number of them strictly ahead. */
  function MinRank(rs: seq<Record>, r: Record): (rank: nat)
    ensures 1 <= rank
    ensures IsRunning(r) && r in rs ==> rank <= RunningCount(rs, r.eventId)
  {
    assert IsRunning(r) && r in rs ==>
      Count(rs, RunningAhead(r.eventId, r.positionFinish)) < Count(rs, RunningIn(r.eventId)) by {
      if IsRunning(r) && r in rs {
        var j :| 0 <= j < |rs| && rs[j] == r;
        assert RunningIn(r.eventId)(rs[j]) && !RunningAhead(r.eventId, r.positionFinish)(rs[j]);
        CountMonotone(rs, RunningAhead(r.eventId, r.positionFinish), RunningIn(r.eventId));
      }
    }
    1 + Count(rs, RunningAhead(r.eventId, r.positionFinish))
  }

  /** Adds `running_cars` (stage 1), then `position_finish_only`, which only
      "Running" rows receive. */
  function AddFinishedRanking(t: Table): (out: Table)
    ensures SameRecords(out, t)
    ensures forall i :: 0 <= i < |t| ==> (out[i].positionFinishOnly.Some? <==> IsRunning(t[i].rec))
    ensures forall i :: 0 <= i < |t| ==> out[i].runningCars == AddRunningCounts(t)[i].runningCars
    ensures forall i :: 0 <= i < |t| ==>
      out[i] == t[i].(runningCars := out[i].runningCars, positionFinishOnly := out[i].positionFinishOnly)
  {
    var c := AddRunningCounts(t);
    var rs := Recs(c);
    seq(|c|, i requires 0 <= i < |c| =>
      c[i].(positionFinishOnly := if IsRunning(c[i].rec) then Some(MinRank(rs, c[i].rec)) else None))
  }

  /** The rank of a "Running" row is one more than the number of "Running"
      rows of its event that finished strictly ahead of it, and lies in
      [1, running_cars]. */
  lemma RankIsCompetitionRank(t: Table, i: int)
    requires 0 <= i < |t| && IsRunning(t[i].rec)
    ensures var o := AddFinishedRanking(t);
      && o[i].positionFinishOnly.Some? && o[i].runningCars.Some?
      && o[i].positionFinishOnly.value == 1 + |set j | 0 <= j < |t| && IsRunning(t[j].rec)
                                               && t[j].rec.eventId == t[i].rec.eventId
                                               && t[j].rec.positionFinish < t[i].rec.positionFinish|
      && 1 <= o[i].positionFinishOnly.value <= o[i].runningCars.value
  {
    var rs := Recs(t);
    var r := t[i].rec;
    SameRecordsRecs(AddRunningCounts(t), t);
    var ahead := RunningAhead(r.eventId, r.positionFinish);
    CountIsIndexCount(rs, ahead);
    assert Indices(rs, ahead) == set j | 0 <= j < |t| && IsRunning(t[j].rec)
      && t[j].rec.eventId == r.eventId && t[j].rec.positionFinish < r.positionFinish;
    CountMonotone(rs, ahead, RunningIn(r.eventId));
    assert RunningIn(r.eventId)(rs[i]) && !ahead(rs[i]);
  }

  /** Ranks order the "Running" rows of one event as their finishing positions
      do; tied rows share a rank, and the rank after a tie skips the tied
      rows (rank 1, 2, 2, 4 for positions 1, 2, 2, 3). */
  lemma {:induction false} RankOrdersFinishes(t: Table, i: int, j: int)
    requires 0 <= i < |t| && 0 <= j < |t|
    requires IsRunning(t[i].rec) && IsRunning(t[j].rec)
    requires t[i].rec.eventId == t[j].rec.eventId
    ensures var o := AddFinishedRanking(t);
      && o[i].positionFinishOnly.Some? && o[j].positionFinishOnly.Some?
      && (t[i].rec.positionFinish == t[j].rec.positionFinish <==>
          o[i].positionFinishOnly == o[j].positionFinishOnly)
      && (t[i].rec.positionFinish < t[j].rec.positionFinish <==>
          o[i].positionFinishOnly.value < o[j].positionFinishOnly.value)
      && (t[i].rec.positionFinish < t[j].rec.positionFinish ==>
          o[j].positionFinishOnly.value >= o[i].positionFinishOnly.value
            + Count(Recs(t), RunningTied(t[i].rec.eventId, t[i].rec.positionFinish)))
  {
    SameRecordsRecs(AddRunningCounts(t), t);
    if t[i].rec.positionFinish < t[j].rec.positionFinish {
      RankSkipsTies(t, i, j);
    } else if t[j].rec.positionFinish < t[i].rec.positionFinish {
      RankSkipsTies(t, j, i);
    }
  }

  /** Helper for `RankOrdersFinishes`: the row finishing behind has a rank at
      least the rank of the row ahead plus the size of its tie group. */
  lemma RankSkipsTies(t: Table, i: int, j: int)
    requires 0 <= i < |t| && 0 <= j < |t|
    requires IsRunning(t[i].rec) && IsRunning(t[j].rec)
    requires t[i].rec.eventId == t[j].rec.eventId
    requires t[i].rec.positionFinish < t[j].rec.positionFinish
    ensures var rs := Recs(t);
      var tied := Count(rs, RunningTied(t[i].rec.eventId, t[i].rec.positionFinish));
      && tied >= 1
      && MinRank(rs, t[j].rec) >= MinRank(rs, t[i].rec) + tied
  {
    var rs := Recs(t);
    var e := t[i].rec.eventId;
    var p := t[i].rec.positionFinish;
    var q := t[j].rec.positionFinish;
    CountSplit(rs, RunningUpTo(e, p), RunningAhead(e, p), RunningTied(e, p));
    CountMonotone(rs, RunningUpTo(e, p), RunningAhead(e, q));
    CountPositive(rs, RunningTied(e, p));
    assert RunningTied(e, p)(rs[i]);
  }

  /** A "Running" row has rank 1 exactly when no "Running" row of its event
      finished ahead of it. */
  lemma RankOneIsEventBest(t: Table, i: int)
    requires 0 <= i < |t| && IsRunning(t[i].rec)
    ensures AddFinishedRanking(t)[i].positionFinishOnly == Some(1) <==>
      forall j :: 0 <= j < |t| && IsRunning(t[j].rec) && t[j].rec.eventId == t[i].rec.eventId ==>
        t[j].rec.positionFinish >= t[i].rec.positionFinish
  {
    var rs := Recs(t);
    SameRecordsRecs(AddRunningCounts(t), t);
    CountPositive(rs, RunningAhead(t[i].rec.eventId, t[i].rec.positionFinish));
  }

  // ---------------------------------------------------------------------------
  // Stage 3: finish_percentile
  // ---------------------------------------------------------------------------

  /** `(running_cars - rank) / (running_cars - 1) * 100`; a zero denominator
      gives NaN, modelled as `None`. */
  function PercentileOf(cars: int, rank: int): (p: Option<real>)
    ensures cars == 1 ==> p.None?
    ensures 1 <= rank <= cars && cars > 1 ==>
      && p.Some?
      && 0.0 <= p.value <= 100.0
      && (p.value == 100.0 <==> rank == 1)
      && (p.value == 0.0 <==> rank == cars)
  {
    var d := cars - 1;
    if d == 0 then None
    else
      var q := (cars - rank) as real / d as real;
      assert 1 <= rank <= cars && cars > 1 ==> q * (d as real) == (cars - rank) as real;
      Some(q * 100.0)
  }

  /** The percentile of a row from its `running_cars` and rank, NaN when
      either is NaN. */
  function RowPercentile(r: Row): Option<real> {
    match (r.runningCars, r.positionFinishOnly)
    case (Some(c), Some(k)) => PercentileOf(c, k)
    case _ => None
  }

  /** Adds `finish_percentile` for "Running" rows (after stages 1 and 2) and
      drops `position_finish_only` again. */
  function AddFinishPercentile(t: Table): (out: Table)
    ensures SameRecords(out, t)
    ensures forall i :: 0 <= i < |t| ==> out[i].positionFinishOnly.None?
    ensures forall i :: 0 <= i < |t| ==> out[i].finishPercentile.Some? ==> IsRunning(t[i].rec)
    ensures forall i :: 0 <= i < |t| ==> out[i].runningCars == AddRunningCounts(t)[i].runningCars
    ensures forall i :: 0 <= i < |t| ==>
      out[i] == t[i].(runningCars := out[i].runningCars, positionFinishOnly := None,
                      finishPercentile := out[i].finishPercentile)
  {
    var k := AddFinishedRanking(t);
    seq(|k|, i requires 0 <= i < |k| =>
      k[i].(finishPercentile := if IsRunning(k[i].rec) then RowPercentile(k[i]) else None,
            positionFinishOnly := None))
  }

  /** `finish_percentile` of a "Running" row is
      `(running_cars - rank) / (running_cars - 1) * 100`, lies in [0, 100],
      is 100 exactly for the event's best finisher and 0 exactly for rank
      `running_cars`; it is missing when the row is the only "Running" one. */
  lemma FinishPercentileBounds(t: Table, i: int)
    requires 0 <= i < |t|
    ensures var o := AddFinishPercentile(t);
      var rs := Recs(t);
      var cars := RunningCount(rs, t[i].rec.eventId);
      var rank := MinRank(rs, t[i].rec);
      && (!IsRunning(t[i].rec) ==> o[i].finishPercentile.None?)
      && (IsRunning(t[i].rec) ==> cars >= 1)
      && (IsRunning(t[i].rec) && cars == 1 ==> o[i].finishPercentile.None?)
      && (IsRunning(t[i].rec) && cars > 1 ==>
            && o[i].finishPercentile == Some((cars - rank) as real / (cars - 1) as real * 100.0)
            && 0.0 <= o[i].finishPercentile.value <= 100.0
            && (o[i].finishPercentile.value == 100.0 <==>
                  forall j :: 0 <= j < |t| && IsRunning(t[j].rec) && t[j].rec.eventId == t[i].rec.eventId ==>
                    t[j].rec.positionFinish >= t[i].rec.positionFinish)
            && (o[i].finishPercentile.value == 0.0 <==> rank == cars))
  {
    if IsRunning(t[i].rec) {
      RankIsCompetitionRank(t, i);
      RankOneIsEventBest(t, i);
      SameRecordsRecs(AddRunningCounts(t), t);
    }
  }

  /** Every percentile the stage produces lies in [0, 100]. */
  lemma FinishPercentileInRange(t: Table)
    ensures forall i :: 0 <= i < |t| && AddFinishPercentile(t)[i].finishPercentile.Some? ==>
      0.0 <= AddFinishPercentile(t)[i].finishPercentile.value <= 100.0
  {
    forall i | 0 <= i < |t| && AddFinishPercentile(t)[i].finishPercentile.Some?
      ensures 0.0 <= AddFinishPercentile(t)[i].finishPercentile.value <= 100.0
    {
      FinishPercentileBounds(t, i);
    }
  }

  // ---------------------------------------------------------------------------
  // Stage 4: best_lap_percentage
  // ---------------------------------------------------------------------------

  /** The best (maximum) `best_speed` among the rows of session `s`, missing
      when the session has no row. */
  function SessionBest(rs: seq<Record>, s: int): (m: Option<real>)
    ensures m.Some? <==> exists i :: 0 <= i < |rs| && rs[i].eventsSessionsId == s
    ensures m.Some? ==> forall i :: 0 <= i < |rs| && rs[i].eventsSessionsId == s ==> rs[i].bestSpeed <= m.value
    ensures m.Some? ==> exists i :: 0 <= i < |rs| && rs[i].eventsSessionsId == s && rs[i].bestSpeed == m.value
  {
    if |rs| == 0 then None
    else
      var init := rs[..|rs| - 1];
      var last := rs[|rs| - 1];
      var m := SessionBest(init, s);
      assert forall i :: 0 <= i < |init| ==> init[i] == rs[i];
      if last.eventsSessionsId != s then m
      else
        match m
        case None => Some(last.bestSpeed)
        case Some(v) => Some(if last.bestSpeed > v then last.bestSpeed else v)
  }

  /** `p` is `part` as a percentage of a non-zero `whole`, stated without
      division. */
  predicate PercentOf(p: real, part: real, whole: real) {
    p * whole == part * 100.0
  }

  /** `best_speed / best_speed_session * 100`, NaN when the session best is
      missing or zero. */
  function SpeedPercentage(speed: real, best: Option<real>): (p: Option<real>)
    ensures p.Some? <==> best.Some? && best.value != 0.0
    ensures p.Some? ==> PercentOf(p.value, speed, best.value)
    ensures best.Some? && 0.0 < speed <= best.value ==>
      && p.Some?
      && 0.0 < p.value <= 100.0
      && (p.value == 100.0 <==> speed == best.value)
  {
    match best
    case None => None
    case Some(m) =>
      if m == 0.0 then None
      else
        var q := speed / m;
        assert q * m == speed;
        assert (q * 100.0) * m == (q * m) * 100.0;
        Some(q * 100.0)
  }

  /** Adds `best_speed_session`, computes `best_lap_percentage` from it and
      drops `best_speed_session` again. */
  function AddRelativeBestLap(t: Table): (out: Table)
    ensures SameRecords(out, t)
    ensures forall i :: 0 <= i < |t| ==> out[i].bestSpeedSession.None?
    ensures forall i :: 0 <= i < |t| ==>
      out[i] == t[i].(bestSpeedSession := None, bestLapPercentage := out[i].bestLapPercentage)
  {
    var rs := Recs(t);
    var withBest := seq(|t|, i requires 0 <= i < |t| =>
      t[i].(bestSpeedSession := SessionBest(rs, t[i].rec.eventsSessionsId)));
    seq(|withBest|, i requires 0 <= i < |withBest| =>
      withBest[i].(bestLapPercentage := SpeedPercentage(withBest[i].rec.bestSpeed, withBest[i].bestSpeedSession),
                   bestSpeedSession := None))
  }

  /** Each row's `best_lap_percentage` is its best speed as a percentage of
      the best speed of its session (`SessionBest`, the largest any row of
      the session reached); it is missing when that largest speed is 0. */
  lemma BestLapPercentageValue(t: Table, i: int)
    requires 0 <= i < |t|
    ensures var s := t[i].rec.eventsSessionsId;
      var m := SessionBest(Recs(t), s);
      var p := AddRelativeBestLap(t)[i].bestLapPercentage;
      && m.Some?
      && (p.Some? <==> m.value != 0.0)
      && (p.Some? ==> PercentOf(p.value, t[i].rec.bestSpeed, m.value))
  {
    var rs := Recs(t);
    var s := t[i].rec.eventsSessionsId;
    assert rs[i].eventsSessionsId == s;
    var m := SessionBest(rs, s);
    BestLapPercentageAt(t, i);
  }

  /** Row `i` of `AddRelativeBestLap` holds the percentage of its own best
      speed over its session's. */
  lemma BestLapPercentageAt(t: Table, i: int)
    requires 0 <= i < |t|
    ensures var m := SessionBest(Recs(t), t[i].rec.eventsSessionsId);
      var p := AddRelativeBestLap(t)[i].bestLapPercentage;
      p == SpeedPercentage(t[i].rec.bestSpeed, m)
  {
  }

  /** The rows of session `s` all have a positive `best_speed`. */
  ghost predicate PositiveSpeeds(t: Table, s: int) {
    forall j :: 0 <= j < |t| && t[j].rec.eventsSessionsId == s ==> t[j].rec.bestSpeed > 0.0
  }

  /** With positive speeds, `best_lap_percentage` lies in (0, 100] and is 100
      exactly for the rows holding the session's best speed. */
  lemma BestLapPercentageBounds(t: Table, i: int)
    requires 0 <= i < |t| && PositiveSpeeds(t, t[i].rec.eventsSessionsId)
    ensures var p := AddRelativeBestLap(t)[i].bestLapPercentage;
      && p.Some?
      && 0.0 < p.value <= 100.0
      && (p.value == 100.0 <==>
            forall j :: 0 <= j < |t| && t[j].rec.eventsSessionsId == t[i].rec.eventsSessionsId ==>
              t[j].rec.bestSpeed <= t[i].rec.bestSpeed)
  {
    var rs := Recs(t);
    var s := t[i].rec.eventsSessionsId;
    var m := SessionBest(rs, s);
    assert rs[i].eventsSessionsId == s;
    var k :| 0 <= k < |rs| && rs[k].eventsSessionsId == s && rs[k].bestSpeed == m.value;
    assert t[k].rec.bestSpeed == m.value;
  }

  /** Every session has a row whose `best_lap_percentage` is exactly 100. */
  lemma BestLapLeaderExists(t: Table, i: int)
    requires 0 <= i < |t| && PositiveSpeeds(t, t[i].rec.eventsSessionsId)
    ensures exists k :: && 0 <= k < |t|
                        && t[k].rec.eventsSessionsId == t[i].rec.eventsSessionsId
                        && AddRelativeBestLap(t)[k].bestLapPercentage == Some(100.0)
  {
    var rs := Recs(t);
    var s := t[i].rec.eventsSessionsId;
    assert rs[i].eventsSessionsId == s;
    var m := SessionBest(rs, s);
    var k :| 0 <= k < |rs| && rs[k].eventsSessionsId == s && rs[k].bestSpeed == m.value;
    BestLapPercentageBounds(t, k);
  }

  // ---------------------------------------------------------------------------
  // Stage 5: position_change
  // ---------------------------------------------------------------------------

  /** Places gained from the grid to the flag, for race rows only. */
  function CalculatePositionChange(r: Record): (c: Option<int>)
    ensures c.Some? <==> IsRace(r)
    ensures c.Some? ==> r.positionFinish + c.value == r.positionStart
    ensures c.Some? ==> (c.value > 0 <==> r.positionFinish < r.positionStart)
  {
    if r.sessionType == Race then Some(r.positionStart - r.positionFinish) else None
  }

  /** Adds `position_change`, row by row. */
  function AddPositionChange(t: Table): (out: Table)
    ensures SameRecords(out, t)
    ensures forall i :: 0 <= i < |t| ==> (out[i].positionChange.Some? <==> IsRace(t[i].rec))
    ensures forall i :: 0 <= i < |t| && out[i].positionChange.Some? ==>
      t[i].rec.positionFinish + out[i].positionChange.value == t[i].rec.positionStart
    ensures forall i :: 0 <= i < |t| ==> out[i] == t[i].(positionChange := out[i].positionChange)
  {
    seq(|t|, i requires 0 <= i < |t| => t[i].(positionChange := CalculatePositionChange(t[i].rec)))
  }

  // ---------------------------------------------------------------------------
  // Stage independence
  // ---------------------------------------------------------------------------

  /** Stages 4 and 5 read only input columns and write columns that stage 3
      neither reads nor writes, so they may run before or after it. */
  lemma StagesCommute(t: Table)
    ensures AddPositionChange(AddRelativeBestLap(AddFinishPercentile(t)))
         == AddFinishPercentile(AddRelativeBestLap(AddPositionChange(t)))
  {
    var left := AddPositionChange(AddRelativeBestLap(AddFinishPercentile(t)));
    var right := AddFinishPercentile(AddRelativeBestLap(AddPositionChange(t)));
    forall i | 0 <= i < |t|
      ensures left[i] == right[i]
    {
      StagesCommuteAt(t, i);
    }
  }

  /** Row `i` is the same whichever order the stages run in. */
  lemma StagesCommuteAt(t: Table, i: int)
    requires 0 <= i < |t|
    ensures |AddPositionChange(AddRelativeBestLap(AddFinishPercentile(t)))| == |t|
    ensures |AddFinishPercentile(AddRelativeBestLap(AddPositionChange(t)))| == |t|
    ensures AddPositionChange(AddRelativeBestLap(AddFinishPercentile(t)))[i]
         == AddFinishPercentile(AddRelativeBestLap(AddPositionChange(t)))[i]
  {
    var a := AddFinishPercentile(t);
    var b := AddRelativeBestLap(AddPositionChange(t));
    var left := AddPositionChange(AddRelativeBestLap(a));
    var right := AddFinishPercentile(b);
    SameRecordsRecs(a, t);
    SameRecordsRecs(b, t);
    SameRecordsRecs(AddRunningCounts(t), t);
    SameRecordsRecs(AddRunningCounts(b), b);
    SameRecordsRecs(AddRelativeBestLap(a), a);
    SameRecordsRecs(AddPositionChange(t), t);
    assert left[i].rec == right[i].rec;
    assert left[i].runningCars == right[i].runningCars;
    assert left[i].finishPercentile == right[i].finishPercentile;
    assert left[i].bestLapPercentage == right[i].bestLapPercentage;
  }
}
