/** The per-driver summary of analysis.py: `calculate_rpi` and `get_rpi_df`.

    `GetRpiDf` keeps the race rows of the enriched table, groups them by
    driver (or by season and driver), summarises each group, drops the groups
    with too few races and sorts by the race performance index, best first.
    Rounding to one or two decimals is not modelled. */
module Summary {
  import opened Options
  import opened Seqs
  import opened Records
  import opened Enrichment

  // ---------------------------------------------------------------------------
  // calculate_rpi
  // ---------------------------------------------------------------------------

  /** The harmonic mean of two values, `1 / mean(1/a, 1/b)`: `2ab / (a + b)`
      for positive values, 0 as soon as one of them is 0, and undefined for a
      negative value. */
  function HarmonicMean(a: real, b: real): (h: Option<real>)
    ensures h.Some? <==> 0.0 <= a && 0.0 <= b
    ensures h.Some? && (a == 0.0 || b == 0.0) ==> h.value == 0.0
    ensures 0.0 < a && 0.0 < b ==> h.Some? && h.value * (a + b) == 2.0 * a * b
  {
    if a < 0.0 || b < 0.0 then None
    else if a == 0.0 || b == 0.0 then Some(0.0)
    else Some(2.0 * a * b / (a + b))
  }

  /** For positive values the harmonic mean lies between them and never
      exceeds their arithmetic mean. */
  lemma HarmonicMeanBetween(a: real, b: real)
    requires 0.0 < a && 0.0 < b
    ensures var h := HarmonicMean(a, b).value;
      && (if a <= b then a else b) <= h <= (if a <= b then b else a)
      && h <= (a + b) / 2.0
  {
    if a <= b {
      HarmonicMeanOrdered(a, b);
    } else {
      HarmonicMeanOrdered(b, a);
      assert HarmonicMean(a, b) == HarmonicMean(b, a);
    }
    HarmonicMeanBelowAverage(a, b);
  }

  /** For `0 < a <= b` the harmonic mean lies in `[a, b]`. */
  lemma HarmonicMeanOrdered(a: real, b: real)
    requires 0.0 < a <= b
    ensures a <= HarmonicMean(a, b).value <= b
  {
    var s := a + b;
    var h := 2.0 * a * b / s;
    assert HarmonicMean(a, b).value == h;
    // h - a == a(b - a) / (a + b) and b - h == b(b - a) / (a + b)
    assert h - a == a * (b - a) / s;
    assert b - h == b * (b - a) / s;
    NonNegativeQuotient(a * (b - a), s);
    NonNegativeQuotient(b * (b - a), s);
  }

  /** The harmonic mean of positive values never exceeds their arithmetic
      mean. */
  lemma HarmonicMeanBelowAverage(a: real, b: real)
    requires 0.0 < a && 0.0 < b
    ensures HarmonicMean(a, b).value <= (a + b) / 2.0
  {
    var s := a + b;
    var h := 2.0 * a * b / s;
    assert HarmonicMean(a, b).value == h;
    // (a + b) / 2 - h == (a - b)^2 / 2(a + b)
    assert s / 2.0 - h == (a - b) * (a - b) / (2.0 * s);
    NonNegativeQuotient((a - b) * (a - b), 2.0 * s);
  }

  /** A non-negative number over a positive one is non-negative. */
  lemma NonNegativeQuotient(x: real, y: real)
    requires 0.0 <= x && 0.0 < y
    ensures 0.0 <= x / y
  {
  }

  /** `calculate_rpi`: the harmonic mean of the finish percentile index and
      the adjusted finish rate; missing when the index is missing. Two values
      in [0, 100] give a value in [0, 100]. */
  function CalculateRpi(percentileIndex: Option<real>, finishRate: real): (rpi: Option<real>)
    ensures rpi.Some? ==> percentileIndex.Some?
    ensures percentileIndex.Some? ==> rpi == HarmonicMean(percentileIndex.value, finishRate)
    ensures percentileIndex.Some? && 0.0 <= percentileIndex.value <= 100.0 && 0.0 <= finishRate <= 100.0 ==>
      rpi.Some? && 0.0 <= rpi.value <= 100.0
  {
    match percentileIndex
    case None => None
    case Some(a) =>
      if 0.0 < a && 0.0 < finishRate then
        HarmonicMeanBetween(a, finishRate);
        HarmonicMean(a, finishRate)
      else
        HarmonicMean(a, finishRate)
  }

  // ---------------------------------------------------------------------------
  // Grouping
  // ---------------------------------------------------------------------------

  /** The groupby key: the driver, or the season and the driver. */
  datatype Key = DriverKey(driver: string) | SeasonKey(season: int, driver: string)

  function KeyOf(r: Record, bySeason: bool): (k: Key)
    ensures k.driver == r.driverName
  {
    if bySeason then SeasonKey(r.season, r.driverName) else DriverKey(r.driverName)
  }

  /** The distinct keys of the rows, each once. pandas lists the groups in
      ascending key order; the final sort by RPI makes the order of the
      keys here invisible, so it is left unspecified. */
  function KeysOf(t: Table, bySeason: bool): (ks: seq<Key>)
    ensures forall i, j :: 0 <= i < j < |ks| ==> ks[i] != ks[j]
    ensures forall k :: k in ks <==> exists i :: 0 <= i < |t| && KeyOf(t[i].rec, bySeason) == k
  {
    if |t| == 0 then []
    else
      var init := t[..|t| - 1];
      var rest := KeysOf(init, bySeason);
      var k := KeyOf(t[|t| - 1].rec, bySeason);
      assert forall i :: 0 <= i < |init| ==> init[i] == t[i];
      if k in rest then rest else rest + [k]
  }

  /** Rows whose key is `k`. */
  function HasKey(k: Key, bySeason: bool): Row -> bool {
    (r: Row) => KeyOf(r.rec, bySeason) == k
  }

  /** The rows of group `k`, in table order. */
  function GroupOf(t: Table, k: Key, bySeason: bool): (g: Table)
    ensures forall r :: r in g <==> r in t && KeyOf(r.rec, bySeason) == k
  {
    Filter(t, HasKey(k, bySeason))
  }

  /** Every key that occurs names a non-empty group. */
  lemma GroupOfKeyNonEmpty(t: Table, k: Key, bySeason: bool)
    requires k in KeysOf(t, bySeason)
    ensures |GroupOf(t, k, bySeason)| > 0
  {
    var i :| 0 <= i < |t| && KeyOf(t[i].rec, bySeason) == k;
    assert t[i] in GroupOf(t, k, bySeason);
  }

  // ---------------------------------------------------------------------------
  // One summary row
  // ---------------------------------------------------------------------------

  datatype DriverSummary = DriverSummary(
    key: Key,
    driverName: string,
    racesCompleted: nat,
    averageStartingPosition: real,
    averageFinishPosition: real,
    finishPercentileIndex: Option<real>,
    finishRate: real,
    adjFinishRate: real,
    pointsEarned: int,
    pointsPerRace: real,
    racePerformanceIndex: Option<real>)

  predicate HasPercentile(r: Row) { r.finishPercentile.Some? }

  function PercentileOrZero(r: Row): real { r.finishPercentile.GetOr(0.0) }

  function StartOf(r: Record): int { r.positionStart }

  function FinishOf(r: Record): int { r.positionFinish }

  function PointsOf(r: Record): int { r.pointsEarned }

  /** `finish_rate`: 100 per "Running" race, shared out over all races. */
  function FinishRate(running: nat, size: nat): (rate: real)
    requires 0 < size
    ensures rate * size as real == running as real * 100.0
  {
    PercentTimesDivisor(running as real, size as real);
    running as real / size as real * 100.0
  }

  /** `adj_finish_rate`: 100 per "Running" race, shared out over the races
      that did not end "Mechanical"; 0 when every race did. */
  function AdjFinishRate(running: nat, mechanical: nat, size: nat): (rate: real)
    ensures size - mechanical != 0 ==> rate * (size - mechanical) as real == running as real * 100.0
    ensures size - mechanical == 0 ==> rate == 0.0
  {
    if size - mechanical != 0 then
      PercentTimesDivisor(running as real, (size - mechanical) as real);
      running as real / (size - mechanical) as real * 100.0
    else 0.0
  }

  /** Mean of the percentiles that are present; missing when none is. */
  function PercentileIndex(g: Table): (m: Option<real>)
    ensures m.Some? <==> exists i :: 0 <= i < |g| && HasPercentile(g[i])
    ensures m.Some? ==> MeanOf(m.value, Sum(g, PercentileOrZero), Count(g, HasPercentile))
    ensures (forall i :: 0 <= i < |g| && HasPercentile(g[i]) ==> 0.0 <= g[i].finishPercentile.value <= 100.0)
      ==> m.Some? ==> 0.0 <= m.value <= 100.0
  {
    var n := Count(g, HasPercentile);
    CountPositive(g, HasPercentile);
    if n == 0 then None
    else
      var total := Sum(g, PercentileOrZero);
      var mean := total / n as real;
      assert MeanOf(mean, total, n) by {
        QuotientTimesDivisor(total, n as real);
      }
      assert (forall i :: 0 <= i < |g| && HasPercentile(g[i]) ==> 0.0 <= g[i].finishPercentile.value <= 100.0)
        ==> 0.0 <= mean <= 100.0 by {
        if forall i :: 0 <= i < |g| && HasPercentile(g[i]) ==> 0.0 <= g[i].finishPercentile.value <= 100.0 {
          SumBounds(g, PercentileOrZero, HasPercentile, 100.0);
          MeanBound(total, n as real, 100.0);
        }
      }
      Some(mean)
  }

  /** `m` is the mean of `n` items adding up to `total`, stated without
      division. */
  predicate MeanOf(m: real, total: real, n: nat) {
    m * n as real == total
  }

  /** A total in [0, hi * n] over n > 0 items has a mean in [0, hi]. */
  lemma MeanBound(total: real, n: real, hi: real)
    requires 0.0 < n && 0.0 <= total <= hi * n
    ensures 0.0 <= total / n <= hi
  {
    var m := total / n;
    assert m * n == total;
    if m > hi {
      assert m * n > hi * n;
    }
  }

  /** (p / n) * n == p for n > 0. */
  lemma QuotientTimesDivisor(p: real, n: real)
    requires n != 0.0
    ensures (p / n) * n == p
  {
  }

  /** The summary of one group of race rows. */
  function Summarize(k: Key, g: Table): (s: DriverSummary)
    requires |g| > 0
    ensures s.key == k && s.racesCompleted == |g| && s.driverName == g[0].rec.driverName
    ensures s.pointsPerRace * s.racesCompleted as real == s.pointsEarned as real
    ensures s.finishPercentileIndex.None? <==> forall i :: 0 <= i < |g| ==> g[i].finishPercentile.None?
    ensures s.racePerformanceIndex.Some? ==> s.finishPercentileIndex.Some?
    ensures s.finishPercentileIndex == PercentileIndex(g)
    ensures s.finishRate == FinishRate(Count(Recs(g), IsRunning), |g|)
    ensures s.adjFinishRate == AdjFinishRate(Count(Recs(g), IsRunning), Count(Recs(g), IsMechanical), |g|)
    ensures s.racePerformanceIndex == CalculateRpi(s.finishPercentileIndex, s.adjFinishRate)
  {
    var rs := Recs(g);
    var size := |g|;
    var running := Count(rs, IsRunning);
    var mechanical := Count(rs, IsMechanical);
    var points := IntSum(rs, PointsOf);
    var fpi := PercentileIndex(g);
    var adj := AdjFinishRate(running, mechanical, size);
    QuotientTimesDivisor(points as real, size as real);
    DriverSummary(
      k, g[0].rec.driverName, size,
      IntSum(rs, StartOf) as real / size as real,
      IntSum(rs, FinishOf) as real / size as real,
      fpi, FinishRate(running, size), adj,
      points, points as real / size as real,
      CalculateRpi(fpi, adj))
  }

  /** The averages of a summary, stated through their totals: each average
      times the number of races is the column total. */
  lemma SummaryAverages(k: Key, g: Table)
    requires |g| > 0
    ensures var s := Summarize(k, g);
      var rs := Recs(g);
      && s.averageStartingPosition * |g| as real == IntSum(rs, StartOf) as real
      && s.averageFinishPosition * |g| as real == IntSum(rs, FinishOf) as real
      && s.pointsEarned == IntSum(rs, PointsOf)
  {
    var s := Summarize(k, g);
    var rs := Recs(g);
    assert s.averageStartingPosition == IntSum(rs, StartOf) as real / |g| as real;
    assert s.averageFinishPosition == IntSum(rs, FinishOf) as real / |g| as real;
    QuotientTimesDivisor(IntSum(rs, StartOf) as real, |g| as real);
    QuotientTimesDivisor(IntSum(rs, FinishOf) as real, |g| as real);
  }

  /** (p / n * 100) * n == p * 100 for n != 0. */
  lemma PercentTimesDivisor(p: real, n: real)
    requires n != 0.0
    ensures (p / n * 100.0) * n == p * 100.0
  {
    var q := p / n;
    QuotientTimesDivisor(p, n);
    assert (q * 100.0) * n == (q * n) * 100.0;
  }

  /** In a summary the finish rate never exceeds the adjusted finish rate,
      both lie in [0, 100], the adjusted rate is 0 exactly when no race ended
      "Running", and the two agree when no race ended "Mechanical". */
  lemma SummaryRates(k: Key, g: Table)
    requires |g| > 0
    ensures var s := Summarize(k, g);
      && 0.0 <= s.finishRate <= s.adjFinishRate <= 100.0
      && (s.adjFinishRate == 0.0 <==> forall i :: 0 <= i < |g| ==> !IsRunning(g[i].rec))
      && ((forall i :: 0 <= i < |g| ==> !IsMechanical(g[i].rec)) ==> s.adjFinishRate == s.finishRate)
  {
    RateBounds(Recs(g));
  }

  /** The rate arithmetic over the input columns of a group. */
  lemma RateBounds(rs: seq<Record>)
    requires |rs| > 0
    ensures var running := Count(rs, IsRunning);
      var mechanical := Count(rs, IsMechanical);
      var rate := FinishRate(running, |rs|);
      var adj := AdjFinishRate(running, mechanical, |rs|);
      && 0.0 <= rate <= adj <= 100.0
      && (adj == 0.0 <==> forall i :: 0 <= i < |rs| ==> !IsRunning(rs[i]))
      && ((forall i :: 0 <= i < |rs| ==> !IsMechanical(rs[i])) ==> adj == rate)
  {
    var running := Count(rs, IsRunning);
    var mechanical := Count(rs, IsMechanical);
    CountSplit(rs, RunningOrMechanical, IsRunning, IsMechanical);
    CountPositive(rs, IsRunning);
    CountPositive(rs, IsMechanical);
    RatesOrdered(running, mechanical, |rs|);
  }

  /** A row that is either "Running" or "Mechanical" (never both). */
  predicate RunningOrMechanical(r: Record) { IsRunning(r) || IsMechanical(r) }

  /** The arithmetic behind `RateBounds`: with `running + mechanical <= size`,
      running / size <= running / (size - mechanical) <= 1. */
  lemma RatesOrdered(running: nat, mechanical: nat, size: nat)
    requires 0 < size && running + mechanical <= size
    ensures var rate := FinishRate(running, size);
      var adj := AdjFinishRate(running, mechanical, size);
      && 0.0 <= rate <= adj <= 100.0
      && (adj == 0.0 <==> running == 0)
      && (mechanical == 0 ==> adj == rate)
  {
    var r := running as real;
    var n := size as real;
    MeanBound(r, n, 1.0);
    var x := r / n;
    assert FinishRate(running, size) == x * 100.0;
    if size - mechanical != 0 {
      var d := (size - mechanical) as real;
      assert r <= 1.0 * d;
      MeanBound(r, d, 1.0);
      var y := r / d;
      assert AdjFinishRate(running, mechanical, size) == y * 100.0;
      QuotientAntitone(r, d, n);
      if running != 0 {
        assert y > 0.0;
      }
    } else {
      assert running == 0;
      assert r / n == 0.0;
    }
  }

  /** Sharing out over more items gives each a smaller part. */
  lemma QuotientAntitone(r: real, d: real, n: real)
    requires 0.0 <= r && 0.0 < d <= n
    ensures r / n <= r / d
  {
    var x := r / n;
    var y := r / d;
    QuotientTimesDivisor(r, n);
    QuotientTimesDivisor(r, d);
    NonNegativeQuotient(r, n);
    if x > y {
      assert x * d > y * d;
      assert x * n >= x * d;
    }
  }

  // ---------------------------------------------------------------------------
  // The summary table
  // ---------------------------------------------------------------------------

  /** The summary of the group of key `k`. */
  function SummaryOf(t: Table, k: Key, bySeason: bool): (s: DriverSummary)
    requires k in KeysOf(t, bySeason)
    ensures s.key == k && s.driverName == k.driver
    ensures 0 < s.racesCompleted == |GroupOf(t, k, bySeason)|
  {
    GroupOfKeyNonEmpty(t, k, bySeason);
    assert GroupOf(t, k, bySeason)[0] in GroupOf(t, k, bySeason);
    Summarize(k, GroupOf(t, k, bySeason))
  }

  /** One summary per distinct key, in the order of `KeysOf`. */
  function Summaries(t: Table, bySeason: bool): (out: seq<DriverSummary>)
    ensures |out| == |KeysOf(t, bySeason)|
    ensures forall i :: 0 <= i < |out| ==> out[i] == SummaryOf(t, KeysOf(t, bySeason)[i], bySeason)
    ensures forall i, j :: 0 <= i < j < |out| ==> out[i] != out[j]
  {
    var ks := KeysOf(t, bySeason);
    seq(|ks|, i requires 0 <= i < |ks| => SummaryOf(t, ks[i], bySeason))
  }

  /** Summaries of groups with at least `drop` races. */
  function AtLeastRaces(drop: int): DriverSummary -> bool {
    (s: DriverSummary) => s.racesCompleted >= drop
  }

  /** The minimum-races filter: with `drop > 0`, only the summaries of at
      least `drop` races stay; otherwise all do. */
  function DropSmallGroups(s: seq<DriverSummary>, drop: int): (r: seq<DriverSummary>)
    ensures forall x :: multiset(r)[x] ==
                        if drop <= 0 || x.racesCompleted >= drop then multiset(s)[x] else 0
  {
    if drop > 0 then
      FilterKeeps(s, AtLeastRaces(drop));
      Filter(s, AtLeastRaces(drop))
    else s
  }

  /** `a` may stand before `b` in a descending sort on the index; a missing
      index sorts last. */
  predicate RpiAtLeast(a: Option<real>, b: Option<real>) {
    b.None? || (a.Some? && a.value >= b.value)
  }

  predicate SortedByRpi(s: seq<DriverSummary>) {
    forall i, j :: 0 <= i < j < |s| ==> RpiAtLeast(s[i].racePerformanceIndex, s[j].racePerformanceIndex)
  }

  /** Inserts `x` into a sorted sequence. */
  function InsertByRpi(x: DriverSummary, s: seq<DriverSummary>): (r: seq<DriverSummary>)
    requires SortedByRpi(s)
    ensures SortedByRpi(r)
    ensures multiset(r) == multiset(s) + multiset{x}
  {
    if |s| == 0 then [x]
    else if RpiAtLeast(x.racePerformanceIndex, s[0].racePerformanceIndex) then
      assert s == [s[0]] + s[1..];
      [x] + s
    else
      var rest := InsertByRpi(x, s[1..]);
      assert s == [s[0]] + s[1..];
      InsertBehindHead(s[0], x, s[1..], rest);
      [s[0]] + rest
  }

  /** Putting `head` in front of the insertion result keeps it sorted when
      `head` is at least `x` and every element of `tail`. */
  lemma InsertBehindHead(head: DriverSummary, x: DriverSummary, tail: seq<DriverSummary>, rest: seq<DriverSummary>)
    requires SortedByRpi([head] + tail) && SortedByRpi(rest)
    requires !RpiAtLeast(x.racePerformanceIndex, head.racePerformanceIndex)
    requires multiset(rest) == multiset(tail) + multiset{x}
    ensures SortedByRpi([head] + rest)
  {
    var h := [head] + tail;
    assert h[0] == head;
    forall y | y in rest
      ensures RpiAtLeast(head.racePerformanceIndex, y.racePerformanceIndex)
    {
      assert y in multiset(rest);
      if y != x {
        assert y in multiset(tail);
        var j :| 0 <= j < |tail| && tail[j] == y;
        assert h[j + 1] == y;
      }
    }
    var r := [head] + rest;
    forall i, j | 0 <= i < j < |r|
      ensures RpiAtLeast(r[i].racePerformanceIndex, r[j].racePerformanceIndex)
    {
      if i == 0 {
        assert r[j] == rest[j - 1];
        assert r[j] in rest;
      } else {
        assert r[i] == rest[i - 1] && r[j] == rest[j - 1];
      }
    }
  }

  /** The descending sort on the race performance index: the order
      among equal indices is not specified, so any permutation sorted in
      non-increasing order meets it; this is one. */
  function SortByRpi(s: seq<DriverSummary>): (r: seq<DriverSummary>)
    ensures SortedByRpi(r)
    ensures multiset(r) == multiset(s)
  {
    if |s| == 0 then []
    else
      assert s == s[..|s| - 1] + [s[|s| - 1]];
      InsertByRpi(s[|s| - 1], SortByRpi(s[..|s| - 1]))
  }

  /** The table the summary is computed from: the percentile stage is run
      unless the column is already present. */
  function Enriched(t: Table, hasPercentile: bool): Table {
    if hasPercentile then t else AddFinishPercentile(t)
  }

  /** The race rows of the enriched table: every one of them, each as often
      as it occurs there, in table order, and no other row. */
  function RaceTable(t: Table, hasPercentile: bool): (races: Table)
    ensures forall r :: r in races <==> r in Enriched(t, hasPercentile) && IsRace(r.rec)
    ensures forall x :: multiset(races)[x] == if IsRace(x.rec) then multiset(Enriched(t, hasPercentile))[x] else 0
    ensures IsSubsequence(races, Enriched(t, hasPercentile))
  {
    FilterKeeps(Enriched(t, hasPercentile), IsRaceRow);
    Filter(Enriched(t, hasPercentile), IsRaceRow)
  }

  /** `get_rpi_df(df, by_season, drop)`. */
  function GetRpiDf(t: Table, bySeason: bool, drop: int, hasPercentile: bool): (out: seq<DriverSummary>)
    ensures SortedByRpi(out)
  {
    var races := RaceTable(t, hasPercentile);
    SortByRpi(DropSmallGroups(Summaries(races, bySeason), drop))
  }

  /** Each element of `Summaries` summarises the group of its own key. */
  lemma SummariesAreGroups(races: Table, bySeason: bool, s: DriverSummary)
    requires s in Summaries(races, bySeason)
    ensures s.key in KeysOf(races, bySeason)
    ensures s == SummaryOf(races, s.key, bySeason)
    ensures s.racesCompleted == |GroupOf(races, s.key, bySeason)| >= 1
  {
    var all := Summaries(races, bySeason);
    var ks := KeysOf(races, bySeason);
    var i :| 0 <= i < |all| && all[i] == s;
    GroupOfKeyNonEmpty(races, ks[i], bySeason);
  }

  /** Every output row is the summary of one group of race rows, and of a
      group with at least `drop` races when `drop > 0`. */
  lemma GetRpiDfRowsAreGroups(t: Table, bySeason: bool, drop: int, hasPercentile: bool)
    ensures var races := RaceTable(t, hasPercentile);
      forall s :: s in GetRpiDf(t, bySeason, drop, hasPercentile) ==>
        && s.key in KeysOf(races, bySeason)
        && s == SummaryOf(races, s.key, bySeason)
        && s.racesCompleted == |GroupOf(races, s.key, bySeason)| >= 1
        && (forall r :: r in GroupOf(races, s.key, bySeason) ==> IsRace(r.rec))
        && (drop > 0 ==> s.racesCompleted >= drop)
  {
    var races := RaceTable(t, hasPercentile);
    forall s | s in GetRpiDf(t, bySeason, drop, hasPercentile)
      ensures && s.key in KeysOf(races, bySeason)
              && s == SummaryOf(races, s.key, bySeason)
              && s.racesCompleted == |GroupOf(races, s.key, bySeason)| >= 1
              && (forall r :: r in GroupOf(races, s.key, bySeason) ==> IsRace(r.rec))
              && (drop > 0 ==> s.racesCompleted >= drop)
    {
      GetRpiDfRowKept(t, bySeason, drop, hasPercentile, s);
      SummariesAreGroups(races, bySeason, s);
    }
  }

  /** An output row is a summary of the race table that the drop kept. */
  lemma GetRpiDfRowKept(t: Table, bySeason: bool, drop: int, hasPercentile: bool, s: DriverSummary)
    requires s in GetRpiDf(t, bySeason, drop, hasPercentile)
    ensures s in Summaries(RaceTable(t, hasPercentile), bySeason)
    ensures drop > 0 ==> s.racesCompleted >= drop
  {
    var all := Summaries(RaceTable(t, hasPercentile), bySeason);
    var kept := DropSmallGroups(all, drop);
    assert multiset(GetRpiDf(t, bySeason, drop, hasPercentile)) == multiset(kept);
    assert multiset(kept)[s] > 0;
  }

  /** Every group with at least `drop` races (every group, when `drop <= 0`)
      has exactly one output row. */
  lemma GetRpiDfKeepsGroups(t: Table, bySeason: bool, drop: int, hasPercentile: bool)
    ensures var races := RaceTable(t, hasPercentile);
      forall k :: k in KeysOf(races, bySeason) && (drop <= 0 || |GroupOf(races, k, bySeason)| >= drop) ==>
        multiset(GetRpiDf(t, bySeason, drop, hasPercentile))[SummaryOf(races, k, bySeason)] == 1
  {
    var races := RaceTable(t, hasPercentile);
    var ks := KeysOf(races, bySeason);
    var all := Summaries(races, bySeason);
    var kept := DropSmallGroups(all, drop);
    var out := GetRpiDf(t, bySeason, drop, hasPercentile);
    assert multiset(out) == multiset(kept);
    DistinctOnce(all);
    forall k | k in ks && (drop <= 0 || |GroupOf(races, k, bySeason)| >= drop)
      ensures multiset(out)[SummaryOf(races, k, bySeason)] == 1
    {
      var i :| 0 <= i < |ks| && ks[i] == k;
      assert all[i] == SummaryOf(races, k, bySeason);
      assert all[i] in all;
    }
  }

  /** Every race row of the enriched table is counted: the summary of its
      key's group is in the output, unless `drop > 0` and the group has fewer
      than `drop` races. */
  lemma GetRpiDfCoversRaceRows(t: Table, bySeason: bool, drop: int, hasPercentile: bool)
    ensures var races := RaceTable(t, hasPercentile);
      forall r :: r in Enriched(t, hasPercentile) && IsRace(r.rec) ==>
        var k := KeyOf(r.rec, bySeason);
        r in GroupOf(races, k, bySeason)
        && (drop <= 0 || |GroupOf(races, k, bySeason)| >= drop ==>
              SummaryOf(races, k, bySeason) in GetRpiDf(t, bySeason, drop, hasPercentile))
  {
    forall r | r in Enriched(t, hasPercentile) && IsRace(r.rec) {
      RaceRowCovered(t, bySeason, drop, hasPercentile, r);
    }
  }

  /** `GetRpiDfCoversRaceRows` for one row. */
  lemma RaceRowCovered(t: Table, bySeason: bool, drop: int, hasPercentile: bool, r: Row)
    requires r in Enriched(t, hasPercentile) && IsRace(r.rec)
    ensures var races := RaceTable(t, hasPercentile);
      var k := KeyOf(r.rec, bySeason);
      r in GroupOf(races, k, bySeason)
      && (drop <= 0 || |GroupOf(races, k, bySeason)| >= drop ==>
            SummaryOf(races, k, bySeason) in GetRpiDf(t, bySeason, drop, hasPercentile))
  {
    var races := RaceTable(t, hasPercentile);
    var k := KeyOf(r.rec, bySeason);
    RaceRowKey(races, bySeason, r);
    if drop <= 0 || |GroupOf(races, k, bySeason)| >= drop {
      GetRpiDfKeepsGroups(t, bySeason, drop, hasPercentile);
      assert multiset(GetRpiDf(t, bySeason, drop, hasPercentile))[SummaryOf(races, k, bySeason)] == 1;
    }
  }

  /** A row's key is one of the table's keys, and the row is in its group. */
  lemma RaceRowKey(races: Table, bySeason: bool, r: Row)
    requires r in races
    ensures KeyOf(r.rec, bySeason) in KeysOf(races, bySeason)
    ensures r in GroupOf(races, KeyOf(r.rec, bySeason), bySeason)
  {
    var i :| 0 <= i < |races| && races[i] == r;
    assert KeyOf(races[i].rec, bySeason) in KeysOf(races, bySeason);
  }

  /** When the percentile stage runs, every rate, index and score of the
      summary lies in [0, 100], and the finish rate never exceeds the adjusted
      one. */
  lemma GetRpiDfBounds(t: Table, bySeason: bool, drop: int)
    ensures forall s :: s in GetRpiDf(t, bySeason, drop, false) ==>
      && 0.0 <= s.finishRate <= s.adjFinishRate <= 100.0
      && (s.finishPercentileIndex.Some? ==> 0.0 <= s.finishPercentileIndex.value <= 100.0)
      && (s.finishPercentileIndex.Some? ==> s.racePerformanceIndex.Some?)
      && (s.racePerformanceIndex.Some? ==> 0.0 <= s.racePerformanceIndex.value <= 100.0)
  {
    var e := AddFinishPercentile(t);
    var races := RaceTable(t, false);
    var out := GetRpiDf(t, bySeason, drop, false);
    FinishPercentileInRange(t);
    GetRpiDfRowsAreGroups(t, bySeason, drop, false);
    forall s | s in out
      ensures && 0.0 <= s.finishRate <= s.adjFinishRate <= 100.0
              && (s.finishPercentileIndex.Some? ==> 0.0 <= s.finishPercentileIndex.value <= 100.0)
              && (s.finishPercentileIndex.Some? ==> s.racePerformanceIndex.Some?)
              && (s.racePerformanceIndex.Some? ==> 0.0 <= s.racePerformanceIndex.value <= 100.0)
    {
      var k := s.key;
      var g := GroupOf(races, k, bySeason);
      assert s == Summarize(k, g);
      SummaryRates(k, g);
      forall i | 0 <= i < |g| && HasPercentile(g[i])
        ensures 0.0 <= g[i].finishPercentile.value <= 100.0
      {
        assert g[i] in races;
        assert g[i] in e;
      }
      assert s.finishPercentileIndex == PercentileIndex(g);
      assert s.racePerformanceIndex == CalculateRpi(s.finishPercentileIndex, s.adjFinishRate);
    }
  }

  /** With the percentile column already present, rows of other session
      types do not influence the summary at all. */
  lemma NonRaceRowsIgnored(t: Table, bySeason: bool, drop: int)
    ensures GetRpiDf(t, bySeason, drop, true) == GetRpiDf(Filter(t, IsRaceRow), bySeason, drop, true)
  {
    FilterIdempotent(t, IsRaceRow);
  }
}
