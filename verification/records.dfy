/** The canonical session-results table the metric pipeline works on.

    A `Record` holds the input columns of one row (one driver in one session);
    a `Row` is a `Record` plus the columns the pipeline stages add. A derived
    column that is missing, or missing for this row, is `None`. */
module Records {
  import opened Options
  import opened Seqs

  /** The status text of a car still running at the flag. */
  const Running: string := "Running"
  /** The status text of a mechanical retirement. */
  const Mechanical: string := "Mechanical"
  /** The session-type code of a race. */
  const Race: string := "R"

  datatype Record = Record(
    eventId: int,
    eventsSessionsId: int,
    season: int,
    driverName: string,
    sessionType: string,
    status: string,
    positionStart: int,
    positionFinish: int,
    bestSpeed: real,
    pointsEarned: int)

  datatype Row = Row(
    rec: Record,
    runningCars: Option<nat>,
    positionFinishOnly: Option<nat>,
    finishPercentile: Option<real>,
    bestSpeedSession: Option<real>,
    bestLapPercentage: Option<real>,
    positionChange: Option<int>)

  type Table = seq<Row>

  /** The input columns of every row, in order. */
  function Recs(t: Table): (rs: seq<Record>)
    ensures |rs| == |t|
    ensures forall i :: 0 <= i < |t| ==> rs[i] == t[i].rec
  {
    seq(|t|, i requires 0 <= i < |t| => t[i].rec)
  }

  predicate IsRunning(r: Record) { r.status == Running }

  predicate IsMechanical(r: Record) { r.status == Mechanical }

  predicate IsRace(r: Record) { r.sessionType == Race }

  /** The row belongs to a race session. */
  predicate IsRaceRow(r: Row) { IsRace(r.rec) }

  /** Two tables hold the same input columns in the same order. */
  predicate SameRecords(a: Table, b: Table) {
    |a| == |b| && forall i :: 0 <= i < |a| ==> a[i].rec == b[i].rec
  }

  /** Tables with the same input columns give the same `Recs`, hence the same
      counts over them. */
  lemma SameRecordsRecs(a: Table, b: Table)
    requires SameRecords(a, b)
    ensures Recs(a) == Recs(b)
  {
  }
}
