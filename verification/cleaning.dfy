/** `clean_sessions_records`: the normaliser that turns the raw session-records
    table into the canonical one, modelled at the level of rows, cells and
    column sets.

    A frame is an ordered list of column names and a list of rows; a row maps
    column names to cells. The frame already carries the snake_case column
    names (the fixed renaming map is not modelled). */
module Cleaning {
  import opened Options
  import opened Seqs
  import opened Strings

  /** A cell: pandas' missing value, or an integer, float, text or boolean. */
  datatype Value = Null | Int(i: int) | Real(x: real) | Str(s: string) | Bool(b: bool)

  /** A column name. The columns the normaliser refers to by name are
      constructors; every other column is `Other` with its snake_case name
      (see `Named`). */
  datatype Column =
    | SessionType | Status | IsDeleted | BestSpeed
    | SpeedAvgFormatted | BestSpeedFormatted | DriverOverrideId
    | LapsLed | TimesLed | PositionStart | PositionFinish | PitStops
    | Other(name: string)

  /** The column's name in the frame. */
  function NameOf(c: Column): string {
    match c
    case SessionType => "session_type"
    case Status => "status"
    case IsDeleted => "is_deleted"
    case BestSpeed => "best_speed"
    case SpeedAvgFormatted => "speed_avg_formatted"
    case BestSpeedFormatted => "best_speed_formatted"
    case DriverOverrideId => "driver_override_id"
    case LapsLed => "laps_led"
    case TimesLed => "times_led"
    case PositionStart => "position_start"
    case PositionFinish => "position_finish"
    case PitStops => "pit_stops"
    case Other(n) => n
  }

  /** The column a name denotes. */
  function Named(n: string): (c: Column)
    ensures NameOf(c) == n
  {
    if n == "session_type" then SessionType
    else if n == "status" then Status
    else if n == "is_deleted" then IsDeleted
    else if n == "best_speed" then BestSpeed
    else if n == "speed_avg_formatted" then SpeedAvgFormatted
    else if n == "best_speed_formatted" then BestSpeedFormatted
    else if n == "driver_override_id" then DriverOverrideId
    else if n == "laps_led" then LapsLed
    else if n == "times_led" then TimesLed
    else if n == "position_start" then PositionStart
    else if n == "position_finish" then PositionFinish
    else if n == "pit_stops" then PitStops
    else Other(n)
  }

  /** `Other` holds only names the normaliser does not refer to. */
  predicate Canonical(c: Column) {
    c.Other? ==> Named(c.name) == c
  }

  /** Names and canonical columns correspond one to one. */
  lemma NamedRoundTrip(n: string, c: Column)
    requires Canonical(c)
    ensures Canonical(Named(n))
    ensures Named(NameOf(c)) == c
  {
  }

  type RawRow = map<Column, Value>

  datatype Frame = Frame(columns: seq<Column>, rows: seq<RawRow>)

  /** The exceptions the normaliser raises: a `KeyError` for a column it reads
      but the frame lacks, a `ValueError` for text cast to a number. */
  datatype CleanError = MissingColumn(column: Column) | NotNumeric(column: Column)

  /** The presentation columns `speed_avg_formatted`, `best_speed_formatted`
      and `driver_override_id`, dropped when present. */
  predicate IsUnneeded(c: Column) {
    c.SpeedAvgFormatted? || c.BestSpeedFormatted? || c.DriverOverrideId?
  }

  /** The count columns `laps_led`, `times_led`, `position_start`,
      `position_finish` and `pit_stops`, cast to integers with missing values
      read as 0. */
  predicate IsCount(c: Column) {
    c.LapsLed? || c.TimesLed? || c.PositionStart? || c.PositionFinish? || c.PitStops?
  }

  /** The cell of `r` in column `c`; a column the row lacks reads as missing. */
  function Get(r: RawRow, c: Column): Value {
    if c in r then r[c] else Null
  }

  function ColumnSet(f: Frame): set<Column> {
    set c | c in f.columns
  }

  /** No name occurs twice. */
  ghost predicate Unique(s: seq<Column>) {
    forall c :: multiset(s)[c] <= 1
  }

  /** A pandas frame: column names are unique, each column is held in its
      canonical form (so no two columns share a name), and every row holds
      exactly the frame's columns. */
  ghost predicate WellFormed(f: Frame) {
    && Unique(f.columns)
    && (forall c :: c in f.columns ==> Canonical(c))
    && forall k :: 0 <= k < |f.rows| ==> f.rows[k].Keys == ColumnSet(f)
  }

  /** In a well-formed frame no two columns carry the same pandas name. */
  lemma WellFormedNamesDistinct(f: Frame)
    requires WellFormed(f)
    ensures forall i, j :: 0 <= i < j < |f.columns| ==> NameOf(f.columns[i]) != NameOf(f.columns[j])
  {
    forall i, j | 0 <= i < j < |f.columns|
      ensures NameOf(f.columns[i]) != NameOf(f.columns[j])
    {
      var a, b := f.columns[i], f.columns[j];
      NamedRoundTrip(NameOf(a), a);
      NamedRoundTrip(NameOf(b), b);
      UniqueAt(f.columns, i, j);
    }
  }

  /** Two positions of a sequence without repeats hold different names. */
  lemma UniqueAt(s: seq<Column>, i: int, j: int)
    requires Unique(s) && 0 <= i < j < |s|
    ensures s[i] != s[j]
  {
    var x := s[i];
    assert s[..j + 1] == s[..i] + [x] + s[i + 1..j] + [s[j]];
    assert s == s[..j + 1] + s[j + 1..];
    assert multiset(s) == multiset(s[..j + 1]) + multiset(s[j + 1..]);
    assert multiset(s)[x] <= 1;
  }

  // ---------------------------------------------------------------------
  // The session filter (cleaning.py:72-73)
  // ---------------------------------------------------------------------

  /** The row's `session_type` is exactly `st`; the match is case-sensitive. */
  predicate InSession(r: RawRow, st: string) {
    Get(r, SessionType) == Str(st)
  }

  /** `InSession` as a function value, for counting. */
  function SessionIs(st: string): RawRow -> bool {
    (r: RawRow) => InSession(r, st)
  }

  /** The boolean-mask selection on `session_type`: the rows of type `st`, in
      their order, each as often as in the input. */
  function RowsOfSession(rows: seq<RawRow>, st: string): (r: seq<RawRow>)
    ensures |r| == Count(rows, SessionIs(st))
    ensures forall k :: 0 <= k < |r| ==> InSession(r[k], st)
  {
    Filter(rows, SessionIs(st))
  }

  /** The selection keeps the input's order and holds every row of the
      session as often as the input does, and no other row. */
  lemma RowsOfSessionKeeps(rows: seq<RawRow>, st: string)
    ensures forall x :: multiset(RowsOfSession(rows, st))[x] == if InSession(x, st) then multiset(rows)[x] else 0
    ensures IsSubsequence(RowsOfSession(rows, st), rows)
  {
    FilterKeeps(rows, SessionIs(st));
  }

  /** Keep the rows whose session type is `st`, unless `st` spells "all" in
      any mix of cases, in which case every row is kept. Reading the
      `session_type` column of a frame without one raises. */
  function FilterSessionType(f: Frame, st: string): (r: Result<Frame, CleanError>)
    ensures Lower(st) == "all" ==> r == Ok(f)
    ensures r.Err? <==> Lower(st) != "all" && SessionType !in f.columns
    ensures r.Err? ==> r.error == MissingColumn(SessionType)
    ensures r.Ok? ==> r.value.columns == f.columns
    ensures r.Ok? && Lower(st) != "all" ==> r.value.rows == RowsOfSession(f.rows, st)
    ensures r.Ok? && Lower(st) != "all" ==> forall k :: 0 <= k < |r.value.rows| ==> InSession(r.value.rows[k], st)
  {
    if Lower(st) == "all" then Ok(f)
    else if SessionType !in f.columns then Err(MissingColumn(SessionType))
    else Ok(Frame(f.columns, RowsOfSession(f.rows, st)))
  }

  /** Selecting rows keeps a frame well formed. */
  lemma FilterSessionTypeWellFormed(f: Frame, st: string)
    requires WellFormed(f) && FilterSessionType(f, st).Ok?
    ensures WellFormed(FilterSessionType(f, st).value)
  {
    var g := FilterSessionType(f, st).value;
    RowsOfSessionKeeps(f.rows, st);
    forall k | 0 <= k < |g.rows|
      ensures g.rows[k].Keys == ColumnSet(g)
    {
      assert g.rows[k] in f.rows;
    }
  }
  // ---------------------------------------------------------------------
  // Cell conversions applied to whole columns
  // ---------------------------------------------------------------------

  /** `.str.strip()` on one cell: text loses its surrounding white space and
      any other cell becomes missing. */
  function StripValue(v: Value): (w: Value)
    ensures v.Str? ==> w.Str? && IsStripped(w.s) && Padded(v.s, w.s, LeadingSpace(v.s))
    ensures !v.Str? ==> w == Null
  {
    if v.Str? then Str(Strip(v.s)) else Null
  }

  /** `astype(int)` on a float: truncation toward zero. */
  function Trunc(x: real): (n: int)
    ensures 0.0 <= x ==> n as real <= x < n as real + 1.0
    ensures x < 0.0 ==> n as real - 1.0 < x <= n as real
  {
    if x >= 0.0 then x.Floor else -((-x).Floor)
  }

  /** The number a cell holds, with `True`/`False` as 1 and 0; missing cells
      and text hold none. */
  function NumberOf(v: Value): Option<real> {
    match v
    case Int(i) => Some(i as real)
    case Real(x) => Some(x)
    case Bool(b) => Some(if b then 1.0 else 0.0)
    case _ => None
  }

  /** `fillna(0).astype(int)` on one cell: a missing cell becomes 0, a number
      is truncated to an integer, and text cannot be cast. */
  function IntCell(v: Value): (w: Option<Value>)
    ensures w.None? <==> v.Str?
    ensures v == Null ==> w == Some(Int(0))
    ensures NumberOf(v).Some? ==> w == Some(Int(Trunc(NumberOf(v).value)))
  {
    match v
    case Null => Some(Int(0))
    case Int(_) => Some(v)
    case Real(x) => Some(Int(Trunc(x)))
    case Bool(b) => Some(Int(if b then 1 else 0))
    case Str(_) => None
  }

  /** `astype(float)` on one cell: a missing cell stays missing (NaN), a
      number becomes a float of the same value, and text cannot be cast. */
  function FloatCell(v: Value): (w: Option<Value>)
    ensures w.None? <==> v.Str?
    ensures v == Null ==> w == Some(Null)
    ensures NumberOf(v).Some? ==> w == Some(Real(NumberOf(v).value))
  {
    match v
    case Null => Some(Null)
    case Int(i) => Some(Real(i as real))
    case Real(_) => Some(v)
    case Bool(b) => Some(Real(if b then 1.0 else 0.0))
    case Str(_) => None
  }

  /** The integer cast of a cell that can be cast (text is left as it is,
      the caller having ruled it out). */
  function CastInt(v: Value): Value {
    IntCell(v).GetOr(v)
  }

  /** The float cast of a cell that can be cast. */
  function CastFloat(v: Value): Value {
    FloatCell(v).GetOr(v)
  }

  /** Casting a cast cell again changes nothing. */
  lemma CastIntTwice(v: Value)
    ensures CastInt(CastInt(v)) == CastInt(v)
  {
  }

  /** Neither cast turns a cell into a missing one. */
  lemma CastsKeepPresence(v: Value)
    ensures CastInt(v) != Null
    ensures v != Null ==> CastFloat(v) != Null
  {
  }

  /** The three column-wide conversions of the normaliser. */
  datatype Conversion = StripText | ToInt | ToFloat

  function Convert(op: Conversion, v: Value): Value {
    match op
    case StripText => StripValue(v)
    case ToInt => CastInt(v)
    case ToFloat => CastFloat(v)
  }

  /** The row with the cells of `cols` converted; a column of `cols` the row
      lacks is converted from a missing cell. */
  function ConvertRow(r: RawRow, cols: set<Column>, op: Conversion): RawRow {
    map c | c in r.Keys + cols :: if c in cols then Convert(op, Get(r, c)) else r[c]
  }

  /** Every row converted. */
  function ConvertRows(rows: seq<RawRow>, cols: set<Column>, op: Conversion): (r: seq<RawRow>)
    ensures |r| == |rows|
    ensures forall k :: 0 <= k < |rows| ==> r[k] == ConvertRow(rows[k], cols, op)
  {
    if |rows| == 0 then []
    else ConvertRows(rows[..|rows| - 1], cols, op) + [ConvertRow(rows[|rows| - 1], cols, op)]
  }

  /** `df[cols] = df[cols].<op>`: convert every cell of the columns `cols`. */
  function ConvertColumns(f: Frame, cols: set<Column>, op: Conversion): (r: Frame)
    ensures r.columns == f.columns && |r.rows| == |f.rows|
    ensures forall k, c {:trigger Get(r.rows[k], c)} :: 0 <= k < |f.rows| ==>
      Get(r.rows[k], c) == if c in cols then Convert(op, Get(f.rows[k], c)) else Get(f.rows[k], c)
  {
    Frame(f.columns, ConvertRows(f.rows, cols, op))
  }

  /** Converting columns the frame has keeps it well formed. */
  lemma ConvertColumnsWellFormed(f: Frame, cols: set<Column>, op: Conversion)
    requires WellFormed(f) && cols <= ColumnSet(f)
    ensures WellFormed(ConvertColumns(f, cols, op))
  {
    var r := ConvertColumns(f, cols, op);
    forall k | 0 <= k < |r.rows|
      ensures r.rows[k].Keys == ColumnSet(r)
    {
      assert r.rows[k] == ConvertRow(f.rows[k], cols, op);
    }
  }

  // ---------------------------------------------------------------------
  // Stripping the status text (cleaning.py:76)
  // ---------------------------------------------------------------------

  /** `w` is the trimmed form of `v`: text surrounded by white space alone in
      `v` and not itself starting or ending with white space; a cell that is
      not text is missing afterwards. */
  ghost predicate Trimmed(v: Value, w: Value) {
    if v.Str? then w.Str? && IsStripped(w.s) && exists start :: Padded(v.s, w.s, start)
    else w == Null
  }

  /** Since the stripped text is unique, `Trimmed` pins the cell down. */
  lemma TrimmedIsStripValue(v: Value, w: Value)
    requires Trimmed(v, w)
    ensures w == StripValue(v)
  {
    if v.Str? {
      var start :| Padded(v.s, w.s, start);
      StripUnique(v.s, w.s, start);
    }
  }

  /** Trim the `status` text of every row; nothing else changes. */
  function StripStatus(f: Frame): (r: Result<Frame, CleanError>)
    ensures r.Err? <==> Status !in f.columns
    ensures r.Err? ==> r.error == MissingColumn(Status)
    ensures r.Ok? ==> r.value.columns == f.columns && |r.value.rows| == |f.rows|
    ensures r.Ok? ==> forall k, c {:trigger Get(r.value.rows[k], c)} :: 0 <= k < |f.rows| ==>
      Get(r.value.rows[k], c) == if c == Status then StripValue(Get(f.rows[k], c)) else Get(f.rows[k], c)
    ensures r.Ok? && WellFormed(f) ==> WellFormed(r.value)
  {
    if Status !in f.columns then Err(MissingColumn(Status))
    else
      var g := ConvertColumns(f, {Status}, StripText);
      assert WellFormed(f) ==> WellFormed(g) by {
        if WellFormed(f) {
          ConvertColumnsWellFormed(f, {Status}, StripText);
        }
      }
      Ok(g)
  }

  /** Every status cell afterwards is the trimmed form of the one before. */
  lemma StripStatusTrims(f: Frame, k: int)
    requires StripStatus(f).Ok? && 0 <= k < |f.rows|
    ensures Trimmed(Get(f.rows[k], Status), Get(StripStatus(f).value.rows[k], Status))
  {
    var v := Get(f.rows[k], Status);
    assert Get(StripStatus(f).value.rows[k], Status) == StripValue(v);
    if v.Str? {
      assert Padded(v.s, Strip(v.s), LeadingSpace(v.s));
    }
  }

  lemma StripValueIdempotent(v: Value)
    ensures StripValue(StripValue(v)) == StripValue(v)
  {
    if v.Str? {
      StripIdempotent(v.s);
    }
  }

  /** Stripping the status column twice changes nothing. */
  lemma StripStatusIdempotent(f: Frame)
    requires StripStatus(f).Ok?
    ensures StripStatus(StripStatus(f).value) == StripStatus(f)
  {
    var g := StripStatus(f).value;
    var h := StripStatus(g).value;
    assert g == ConvertColumns(f, {Status}, StripText);
    assert h == ConvertColumns(g, {Status}, StripText);
    forall k | 0 <= k < |g.rows|
      ensures h.rows[k] == g.rows[k]
    {
      StripRowIdempotent(f.rows[k]);
    }
    assert h.rows == g.rows;
  }

  /** Stripping the status of one row twice is stripping it once. */
  lemma StripRowIdempotent(r: RawRow)
    ensures var a := ConvertRow(r, {Status}, StripText);
      ConvertRow(a, {Status}, StripText) == a
  {
    var a := ConvertRow(r, {Status}, StripText);
    StripValueIdempotent(Get(r, Status));
    assert Get(a, Status) == StripValue(Get(r, Status));
  }

  // ---------------------------------------------------------------------
  // Dropping columns (cleaning.py:79-91)
  // ---------------------------------------------------------------------

  /** The column is not one of `d`, as a function value for filtering. */
  function Outside(d: set<Column>): Column -> bool {
    c => c !in d
  }

  /** The names of `cols` outside `d`, in their order. */
  function ColumnsWithout(cols: seq<Column>, d: set<Column>): (r: seq<Column>)
    ensures forall c :: c in r <==> c in cols && c !in d
  {
    Filter(cols, Outside(d))
  }

  /** The remaining names keep their order and their multiplicity. */
  lemma ColumnsWithoutKeeps(cols: seq<Column>, d: set<Column>)
    ensures forall c :: multiset(ColumnsWithout(cols, d))[c] == if c in d then 0 else multiset(cols)[c]
    ensures IsSubsequence(ColumnsWithout(cols, d), cols)
  {
    FilterKeeps(cols, Outside(d));
  }

  /** Dropping every name of `cols` leaves none. */
  lemma ColumnsWithoutAll(cols: seq<Column>, d: set<Column>)
    requires forall c :: c in cols ==> c in d
    ensures ColumnsWithout(cols, d) == []
  {
    CountPositive(cols, Outside(d));
  }

  /** Every row without the columns `d`. */
  function RowsWithout(rows: seq<RawRow>, d: set<Column>): (r: seq<RawRow>)
    ensures |r| == |rows|
    ensures forall k :: 0 <= k < |rows| ==> r[k] == rows[k] - d
  {
    if |rows| == 0 then []
    else RowsWithout(rows[..|rows| - 1], d) + [rows[|rows| - 1] - d]
  }

  /** The frame without the columns `d`, the remaining ones in their order;
      names of `d` the frame lacks are passed over. */
  function DropColumns(f: Frame, d: set<Column>): (r: Frame)
    ensures forall c :: c in r.columns <==> c in f.columns && c !in d
    ensures |r.rows| == |f.rows|
    ensures forall k, c {:trigger Get(r.rows[k], c)} :: 0 <= k < |f.rows| ==>
      Get(r.rows[k], c) == if c in d then Null else Get(f.rows[k], c)
  {
    Frame(ColumnsWithout(f.columns, d), RowsWithout(f.rows, d))
  }

  /** The first name of `d` that the frame lacks. */
  function FirstAbsent(f: Frame, d: seq<Column>): (r: Option<Column>)
    ensures r.None? <==> forall c :: c in d ==> c in f.columns
    ensures r.Some? ==> r.value in d && r.value !in f.columns
  {
    if |d| == 0 then None
    else if d[0] !in f.columns then Some(d[0])
    else FirstAbsent(f, d[1..])
  }

  /** `df.drop(columns=d)`: a name the frame lacks raises a `KeyError`
      (reported here for the first such name); otherwise those columns go
      and nothing else changes. */
  function Drop(f: Frame, d: seq<Column>): (r: Result<Frame, CleanError>)
    ensures r.Err? <==> exists c :: c in d && c !in f.columns
    ensures r.Err? ==> r.error.MissingColumn? && r.error.column in d && r.error.column !in f.columns
    ensures r.Ok? ==> forall c :: c in r.value.columns <==> c in f.columns && c !in d
    ensures r.Ok? ==> |r.value.rows| == |f.rows|
    ensures r.Ok? ==> forall k, c {:trigger Get(r.value.rows[k], c)} :: 0 <= k < |f.rows| ==>
      Get(r.value.rows[k], c) == if c in d then Null else Get(f.rows[k], c)
  {
    match FirstAbsent(f, d)
    case Some(c) => Err(MissingColumn(c))
    case None => Ok(DropColumns(f, set c | c in d))
  }

  /** Dropping columns keeps a frame well formed. */
  lemma DropColumnsWellFormed(f: Frame, d: set<Column>)
    requires WellFormed(f)
    ensures WellFormed(DropColumns(f, d))
  {
    var r := DropColumns(f, d);
    ColumnsWithoutKeeps(f.columns, d);
    forall k | 0 <= k < |r.rows|
      ensures r.rows[k].Keys == ColumnSet(r)
    {
      assert r.rows[k] == f.rows[k] - d;
    }
  }

  /** The presentation columns in the order the normaliser lists them. */
  const UnneededNames: seq<Column> := [SpeedAvgFormatted, BestSpeedFormatted, DriverOverrideId]

  /** The column is one of the frame's, as a function value for filtering. */
  function PresentIn(f: Frame): Column -> bool {
    c => c in f.columns
  }

  /** The presentation columns the frame has. */
  function UnneededIn(f: Frame): set<Column> {
    set c | c in f.columns && IsUnneeded(c)
  }

  /** Drop whichever of the presentation columns the frame has; the ones it
      lacks are skipped rather than raising. */
  function DropUnneeded(f: Frame): (r: Frame)
    ensures forall c :: c in r.columns <==> c in f.columns && !IsUnneeded(c)
    ensures |r.rows| == |f.rows|
    ensures forall k, c {:trigger Get(r.rows[k], c)} :: 0 <= k < |f.rows| && !IsUnneeded(c) ==>
      Get(r.rows[k], c) == Get(f.rows[k], c)
    ensures WellFormed(f) ==> WellFormed(r)
  {
    assert WellFormed(f) ==> WellFormed(DropColumns(f, UnneededIn(f))) by {
      if WellFormed(f) {
        DropColumnsWellFormed(f, UnneededIn(f));
      }
    }
    DropColumns(f, UnneededIn(f))
  }

  /** Line 84 drops only the listed presentation names the frame has, and so
      never raises, where dropping the whole list would raise exactly when one
      of them is absent; `DropUnneeded` is that guarded drop. */
  lemma DropUnneededIsGuardedDrop(f: Frame)
    ensures Drop(f, Filter(UnneededNames, PresentIn(f))) == Ok(DropUnneeded(f))
    ensures Drop(f, UnneededNames).Err? <==> exists c :: IsUnneeded(c) && c !in f.columns
  {
    var d := Filter(UnneededNames, PresentIn(f));
    assert (set c | c in d) == UnneededIn(f);
    assert forall c :: c in UnneededNames <==> IsUnneeded(c);
  }

  /** Every cell of column `c` is missing (vacuously so in a frame without
      rows). */
  predicate AllNull(f: Frame, c: Column) {
    forall k | 0 <= k < |f.rows| :: Get(f.rows[k], c) == Null
  }

  /** The columns of the frame with missing cells only. */
  function EmptyIn(f: Frame): set<Column> {
    set c | c in f.columns && AllNull(f, c)
  }

  /** `dropna(axis=1, how="all")`: drop exactly the columns whose every cell
      is missing. No cell changes, as a dropped column read only missing
      cells anyway. */
  function DropEmptyColumns(f: Frame): (r: Frame)
    ensures forall c :: c in r.columns <==> c in f.columns && !AllNull(f, c)
    ensures |r.rows| == |f.rows|
    ensures forall k, c {:trigger Get(r.rows[k], c)} :: 0 <= k < |f.rows| ==>
      Get(r.rows[k], c) == Get(f.rows[k], c)
    ensures NoEmptyColumns(r)
    ensures WellFormed(f) ==> WellFormed(r)
  {
    assert WellFormed(f) ==> WellFormed(DropColumns(f, EmptyIn(f))) by {
      if WellFormed(f) {
        DropColumnsWellFormed(f, EmptyIn(f));
      }
    }
    DropColumns(f, EmptyIn(f))
  }

  /** A frame without rows loses every column. */
  lemma DropEmptyColumnsOfNoRows(f: Frame)
    requires |f.rows| == 0
    ensures DropEmptyColumns(f).columns == []
  {
    ColumnsWithoutAll(f.columns, EmptyIn(f));
  }

  /** The distinct non-missing cells of column `c`. */
  function NonNullValues(f: Frame, c: Column): set<Value> {
    set k | 0 <= k < |f.rows| && Get(f.rows[k], c) != Null :: Get(f.rows[k], c)
  }

  /** `df[c].nunique()`: the number of distinct non-missing cells. */
  function NUnique(f: Frame, c: Column): (n: nat)
    ensures n == 0 <==> AllNull(f, c)
  {
    assert !AllNull(f, c) ==> NonNullValues(f, c) != {} by {
      if !AllNull(f, c) {
        var k :| 0 <= k < |f.rows| && Get(f.rows[k], c) != Null;
        assert Get(f.rows[k], c) in NonNullValues(f, c);
      }
    }
    |NonNullValues(f, c)|
  }

  /** Column `c` holds the one value `v` and otherwise only missing cells. */
  ghost predicate Constant(f: Frame, c: Column, v: Value) {
    && v != Null
    && (exists k :: 0 <= k < |f.rows| && Get(f.rows[k], c) == v)
    && forall k :: 0 <= k < |f.rows| ==> Get(f.rows[k], c) in {Null, v}
  }

  /** `nunique() == 1` holds exactly when the column is constant apart from
      missing cells, and not all missing. */
  lemma NUniqueOne(f: Frame, c: Column)
    ensures NUnique(f, c) == 1 <==> exists v :: Constant(f, c, v)
  {
    if NUnique(f, c) == 1 {
      var v := NUniqueOneConstant(f, c);
    }
    if v :| Constant(f, c, v) {
      ConstantNUnique(f, c, v);
    }
  }

  /** One distinct value: that value is the constant. */
  lemma NUniqueOneConstant(f: Frame, c: Column) returns (v: Value)
    requires NUnique(f, c) == 1
    ensures Constant(f, c, v)
  {
    var vs := NonNullValues(f, c);
    v :| v in vs;
    assert |vs - {v}| == 0;
    assert vs == {v};
    forall k | 0 <= k < |f.rows|
      ensures Get(f.rows[k], c) in {Null, v}
    {
      if Get(f.rows[k], c) != Null {
        assert Get(f.rows[k], c) in vs;
      }
    }
  }

  /** A constant column has exactly one distinct value. */
  lemma ConstantNUnique(f: Frame, c: Column, v: Value)
    requires Constant(f, c, v)
    ensures NUnique(f, c) == 1
  {
    assert NonNullValues(f, c) == {v};
  }

  /** Drop `is_deleted` when it has exactly one distinct value; reading it
      from a frame without the column raises. */
  function DropIsDeleted(f: Frame): (r: Result<Frame, CleanError>)
    ensures r.Err? <==> IsDeleted !in f.columns
    ensures r.Err? ==> r.error == MissingColumn(IsDeleted)
    ensures r.Ok? ==> forall c :: c != IsDeleted ==> (c in r.value.columns <==> c in f.columns)
    ensures r.Ok? ==> (IsDeleted in r.value.columns <==> NUnique(f, IsDeleted) != 1)
    ensures r.Ok? ==> |r.value.rows| == |f.rows|
    ensures r.Ok? ==> forall k, c {:trigger Get(r.value.rows[k], c)} :: 0 <= k < |f.rows| && c != IsDeleted ==>
      Get(r.value.rows[k], c) == Get(f.rows[k], c)
    ensures r.Ok? && IsDeleted in r.value.columns ==> r.value == f
    ensures r.Ok? ==> IsDeletedInformative(r.value)
    ensures r.Ok? && NoEmptyColumns(f) ==> NoEmptyColumns(r.value)
    ensures r.Ok? && WellFormed(f) ==> WellFormed(r.value)
  {
    if IsDeleted !in f.columns then Err(MissingColumn(IsDeleted))
    else if NUnique(f, IsDeleted) == 1 then
      assert WellFormed(f) ==> WellFormed(DropColumns(f, {IsDeleted})) by {
        if WellFormed(f) {
          DropColumnsWellFormed(f, {IsDeleted});
        }
      }
      Ok(DropColumns(f, {IsDeleted}))
    else Ok(f)
  }

  /** Column `c` holds the same cells, row by row, in `f` and `g`. */
  ghost predicate SameColumn(f: Frame, g: Frame, c: Column) {
    && |f.rows| == |g.rows|
    && forall k :: 0 <= k < |f.rows| ==> Get(f.rows[k], c) == Get(g.rows[k], c)
  }

  /** Two frames whose column `c` holds the same cells agree on whether it
      is all missing and on how many distinct values it holds. */
  lemma SameColumnSame(f: Frame, g: Frame, c: Column)
    requires SameColumn(f, g, c)
    ensures AllNull(f, c) <==> AllNull(g, c)
    ensures NUnique(f, c) == NUnique(g, c)
  {
    assert NonNullValues(f, c) == NonNullValues(g, c);
  }

  // ---------------------------------------------------------------------
  // Casting (cleaning.py:94-106)
  // ---------------------------------------------------------------------

  /** Some cell of column `c` is text. */
  predicate HasText(f: Frame, c: Column) {
    exists k | 0 <= k < |f.rows| :: Get(f.rows[k], c).Str?
  }

  /** The frame has column `c` and some cell of it is text. */
  predicate TextIn(f: Frame, c: Column) {
    c in f.columns && HasText(f, c)
  }

  /** Some count column the frame has holds text. */
  predicate CountText(f: Frame) {
    || TextIn(f, LapsLed)
    || TextIn(f, TimesLed)
    || TextIn(f, PositionStart)
    || TextIn(f, PositionFinish)
    || TextIn(f, PitStops)
  }

  /** The first count column, in the order the normaliser lists them, that
      the frame has and that holds text. */
  function FirstTextCount(f: Frame): (r: Option<Column>)
    ensures r.Some? ==> IsCount(r.value) && TextIn(f, r.value)
    ensures r.None? <==> !CountText(f)
  {
    if TextIn(f, LapsLed) then Some(LapsLed)
    else if TextIn(f, TimesLed) then Some(TimesLed)
    else if TextIn(f, PositionStart) then Some(PositionStart)
    else if TextIn(f, PositionFinish) then Some(PositionFinish)
    else if TextIn(f, PitStops) then Some(PitStops)
    else None
  }

  /** The count columns the frame has. */
  function IntColumnsIn(f: Frame): set<Column> {
    set c | c in f.columns && IsCount(c)
  }

  /** The count columns filled with 0 and cast to integers, for those the
      frame has; the absent ones are skipped, and text raises. */
  function FillIntColumns(f: Frame): (r: Result<Frame, CleanError>)
    ensures r.Err? <==> CountText(f)
    ensures r.Err? ==> r.error.NotNumeric? && IsCount(r.error.column) && TextIn(f, r.error.column)
    ensures r.Ok? ==> r.value.columns == f.columns && |r.value.rows| == |f.rows|
    ensures r.Ok? ==> forall k, c {:trigger Get(r.value.rows[k], c)} :: 0 <= k < |f.rows| ==>
      Get(r.value.rows[k], c) ==
        if IsCount(c) && c in f.columns then CastInt(Get(f.rows[k], c)) else Get(f.rows[k], c)
    ensures r.Ok? ==> CountsAreInts(r.value)
    ensures r.Ok? && WellFormed(f) ==> WellFormed(r.value)
  {
    match FirstTextCount(f)
    case Some(c) => Err(NotNumeric(c))
    case None =>
      assert WellFormed(f) ==> WellFormed(ConvertColumns(f, IntColumnsIn(f), ToInt)) by {
        if WellFormed(f) {
          ConvertColumnsWellFormed(f, IntColumnsIn(f), ToInt);
        }
      }
      Ok(ConvertColumns(f, IntColumnsIn(f), ToInt))
  }

  /** The float cast of the `best_speed` column: raises when it is absent or
      holds text. */
  function CastBestSpeed(f: Frame): (r: Result<Frame, CleanError>)
    ensures r.Err? <==> BestSpeed !in f.columns || HasText(f, BestSpeed)
    ensures r.Err? ==>
      r.error == if BestSpeed !in f.columns then MissingColumn(BestSpeed) else NotNumeric(BestSpeed)
    ensures r.Ok? ==> r.value.columns == f.columns && |r.value.rows| == |f.rows|
    ensures r.Ok? ==> forall k, c {:trigger Get(r.value.rows[k], c)} :: 0 <= k < |f.rows| ==>
      Get(r.value.rows[k], c) ==
        if c == BestSpeed then CastFloat(Get(f.rows[k], c)) else Get(f.rows[k], c)
    ensures r.Ok? ==> SpeedsAreReals(r.value)
    ensures r.Ok? && CountsAreInts(f) ==> CountsAreInts(r.value)
    ensures r.Ok? && WellFormed(f) ==> WellFormed(r.value)
  {
    if BestSpeed !in f.columns then Err(MissingColumn(BestSpeed))
    else if HasText(f, BestSpeed) then Err(NotNumeric(BestSpeed))
    else
      assert WellFormed(f) ==> WellFormed(ConvertColumns(f, {BestSpeed}, ToFloat)) by {
        if WellFormed(f) {
          ConvertColumnsWellFormed(f, {BestSpeed}, ToFloat);
        }
      }
      Ok(ConvertColumns(f, {BestSpeed}, ToFloat))
  }
  // ---------------------------------------------------------------------
  // The whole normaliser (cleaning.py:8-108), in three phases
  // ---------------------------------------------------------------------

  /** A status cell after trimming: missing, or text without surrounding
      white space. */
  predicate StatusClean(v: Value) {
    v == Null || (v.Str? && IsStripped(v.s))
  }

  /** `.str.strip()` always leaves a clean status cell. */
  lemma StripValueClean(v: Value)
    ensures StatusClean(StripValue(v))
  {
  }

  /** Every row has session type `st`. */
  predicate SessionMatches(f: Frame, st: string) {
    forall k :: 0 <= k < |f.rows| ==> InSession(f.rows[k], st)
  }

  /** Every status cell is clean. */
  predicate StatusTrimmed(f: Frame) {
    forall k :: 0 <= k < |f.rows| ==> StatusClean(Get(f.rows[k], Status))
  }

  /** No column reads only missing cells. */
  predicate NoEmptyColumns(f: Frame) {
    forall c :: c in f.columns ==> !AllNull(f, c)
  }

  /** `is_deleted`, if still there, does not hold one single value. */
  predicate IsDeletedInformative(f: Frame) {
    IsDeleted in f.columns ==> NUnique(f, IsDeleted) != 1
  }

  /** Every count column the frame has holds integers only. */
  predicate CountsAreInts(f: Frame) {
    forall k, c {:trigger Get(f.rows[k], c)} :: 0 <= k < |f.rows| && IsCount(c) && c in f.columns ==>
      Get(f.rows[k], c).Int?
  }

  /** Every best speed is a float or missing. */
  predicate SpeedsAreReals(f: Frame) {
    forall k :: 0 <= k < |f.rows| ==> Get(f.rows[k], BestSpeed) == Null || Get(f.rows[k], BestSpeed).Real?
  }

  /** The input rows the session filter keeps: all of them for "all" in any
      mix of cases, else those of type `st`. */
  function SelectedRows(f: Frame, st: string): seq<RawRow> {
    if Lower(st) == "all" then f.rows else RowsOfSession(f.rows, st)
  }

  /** A cell of a selected row after line 76: the status trimmed, any other
      cell as it was. */
  function SelectedCell(r: RawRow, c: Column): Value {
    if c == Status then StripValue(Get(r, c)) else Get(r, c)
  }

  /** Lines 72-76: select the session type, then trim the status text. */
  function SelectRows(f: Frame, st: string): (r: Result<Frame, CleanError>)
    ensures r.Err? <==> (Lower(st) != "all" && SessionType !in f.columns) || Status !in f.columns
    ensures r.Err? ==>
      r.error == if Lower(st) != "all" && SessionType !in f.columns
                 then MissingColumn(SessionType) else MissingColumn(Status)
    ensures r.Ok? ==> r.value.columns == f.columns
    ensures r.Ok? ==> |r.value.rows| == |SelectedRows(f, st)|
    ensures r.Ok? ==> forall k, c {:trigger Get(r.value.rows[k], c)} :: 0 <= k < |r.value.rows| ==>
      Get(r.value.rows[k], c) == SelectedCell(SelectedRows(f, st)[k], c)
    ensures r.Ok? ==> StatusTrimmed(r.value)
    ensures r.Ok? && Lower(st) != "all" ==> SessionMatches(r.value, st)
    ensures r.Ok? && WellFormed(f) ==> WellFormed(r.value)
  {
    var a :- FilterSessionType(f, st);
    assert WellFormed(f) ==> WellFormed(a) by {
      if WellFormed(f) {
        FilterSessionTypeWellFormed(f, st);
      }
    }
    var b :- StripStatus(a);
    assert StatusTrimmed(b) by {
      forall k | 0 <= k < |b.rows|
        ensures StatusClean(Get(b.rows[k], Status))
      {
        StripValueClean(Get(a.rows[k], Status));
      }
    }
    assert Lower(st) != "all" ==> SessionMatches(b, st) by {
      forall k | 0 <= k < |b.rows|
        ensures Lower(st) != "all" ==> InSession(b.rows[k], st)
      {
        assert Get(b.rows[k], SessionType) == Get(a.rows[k], SessionType);
      }
    }
    Ok(b)
  }

  /** Column `c` goes in lines 79-91: it is a presentation column, holds
      missing cells only, or is an `is_deleted` with a single value. */
  predicate Pruned(b: Frame, c: Column) {
    IsUnneeded(c) || AllNull(b, c) || (c == IsDeleted && NUnique(b, IsDeleted) == 1)
  }

  /** The columns of the frame that lines 79-91 drop. */
  function PrunedIn(b: Frame): set<Column> {
    set c | c in b.columns && Pruned(b, c)
  }

  /** Lines 79-91: drop the presentation columns, the columns of missing
      cells only and a constant `is_deleted`, as one drop. The read of
      `is_deleted` raises exactly when the column is absent or holds missing
      cells only, for then `dropna` has already removed it.
      `PruneColumnsStaged` shows this is the source's three steps. */
  function PruneColumns(b: Frame): (r: Result<Frame, CleanError>)
    ensures r.Err? <==> IsDeleted !in b.columns || AllNull(b, IsDeleted)
    ensures r.Err? ==> r.error == MissingColumn(IsDeleted)
    ensures r.Ok? ==> |r.value.rows| == |b.rows|
    ensures r.Ok? ==> forall c :: c in r.value.columns <==> c in b.columns && !Pruned(b, c)
    ensures r.Ok? ==> forall k, c {:trigger Get(r.value.rows[k], c)} :: 0 <= k < |b.rows| ==>
      Get(r.value.rows[k], c) == if c in b.columns && Pruned(b, c) then Null else Get(b.rows[k], c)
    ensures r.Ok? && WellFormed(b) ==> WellFormed(r.value)
  {
    if IsDeleted !in b.columns || AllNull(b, IsDeleted) then Err(MissingColumn(IsDeleted))
    else
      assert WellFormed(b) ==> WellFormed(DropColumns(b, PrunedIn(b))) by {
        if WellFormed(b) {
          DropColumnsWellFormed(b, PrunedIn(b));
        }
      }
      Ok(DropColumns(b, PrunedIn(b)))
  }

  /** Dropping `a` and then `d` drops the same names as dropping both at
      once. */
  lemma ColumnsWithoutTwice(cols: seq<Column>, a: set<Column>, d: set<Column>)
    ensures ColumnsWithout(ColumnsWithout(cols, a), d) == ColumnsWithout(cols, a + d)
  {
    FilterTwice(cols, Outside(a), Outside(d), Outside(a + d));
  }

  /** Two drops in a row are one drop of both sets. */
  lemma DropColumnsTwice(f: Frame, a: set<Column>, d: set<Column>)
    ensures DropColumns(DropColumns(f, a), d) == DropColumns(f, a + d)
  {
    ColumnsWithoutTwice(f.columns, a, d);
    var g := DropColumns(DropColumns(f, a), d);
    var h := DropColumns(f, a + d);
    forall k | 0 <= k < |f.rows|
      ensures g.rows[k] == h.rows[k]
    {
      assert g.rows[k] == (f.rows[k] - a) - d;
    }
  }

  /** The first two steps drop the pruned columns other than
      `is_deleted`. */
  lemma FirstStagesDrop(b: Frame)
    requires IsDeleted in b.columns && !AllNull(b, IsDeleted)
    ensures IsDeleted !in UnneededIn(b) + EmptyIn(DropUnneeded(b))
    ensures forall x :: x != IsDeleted ==> (x in UnneededIn(b) + EmptyIn(DropUnneeded(b)) <==> x in PrunedIn(b))
  {
    DropUnneededKeepsColumn(b, IsDeleted);
    forall x | x != IsDeleted && !IsUnneeded(x)
      ensures x in EmptyIn(DropUnneeded(b)) <==> x in b.columns && AllNull(b, x)
    {
      DropUnneededKeepsColumn(b, x);
    }
  }

  /** Two sets that agree on every element but `y`, where only `p` holds
      `y`: adding `y` to `s` gives `p`. */
  lemma AddOneGives(s: set<Column>, p: set<Column>, y: Column)
    requires y !in s && y in p
    requires forall x :: x != y ==> (x in s <==> x in p)
    ensures s + {y} == p
  {
  }

  /** Two sets that agree on every element but `y`, and both lack `y`, are
      equal. */
  lemma SameApartFrom(s: set<Column>, p: set<Column>, y: Column)
    requires y !in s && y !in p
    requires forall x :: x != y ==> (x in s <==> x in p)
    ensures s == p
  {
  }

  /** With a single-valued `is_deleted`, the three steps drop the pruned
      columns. */
  lemma PrunedWithIsDeleted(b: Frame)
    requires IsDeleted in b.columns && !AllNull(b, IsDeleted) && NUnique(b, IsDeleted) == 1
    ensures UnneededIn(b) + EmptyIn(DropUnneeded(b)) + {IsDeleted} == PrunedIn(b)
  {
    FirstStagesDrop(b);
    assert Pruned(b, IsDeleted);
    AddOneGives(UnneededIn(b) + EmptyIn(DropUnneeded(b)), PrunedIn(b), IsDeleted);
  }

  /** Otherwise the first two steps already drop the pruned columns. */
  lemma PrunedWithoutIsDeleted(b: Frame)
    requires IsDeleted in b.columns && !AllNull(b, IsDeleted) && NUnique(b, IsDeleted) != 1
    ensures UnneededIn(b) + EmptyIn(DropUnneeded(b)) == PrunedIn(b)
  {
    FirstStagesDrop(b);
    assert !Pruned(b, IsDeleted);
    SameApartFrom(UnneededIn(b) + EmptyIn(DropUnneeded(b)), PrunedIn(b), IsDeleted);
  }

  /** Dropping the presentation columns leaves every other column as it
      was. */
  lemma DropUnneededKeepsColumn(b: Frame, x: Column)
    requires !IsUnneeded(x)
    ensures AllNull(DropUnneeded(b), x) <==> AllNull(b, x)
    ensures NUnique(DropUnneeded(b), x) == NUnique(b, x)
  {
    assert SameColumn(b, DropUnneeded(b), x);
    SameColumnSame(b, DropUnneeded(b), x);
  }

  /** The first two steps leave the cells of `is_deleted` as they were. */
  lemma StagesKeepIsDeleted(b: Frame)
    ensures AllNull(DropUnneeded(b), IsDeleted) <==> AllNull(b, IsDeleted)
    ensures NUnique(DropEmptyColumns(DropUnneeded(b)), IsDeleted) == NUnique(b, IsDeleted)
  {
    var c := DropUnneeded(b);
    DropUnneededKeepsColumn(b, IsDeleted);
    assert SameColumn(c, DropEmptyColumns(c), IsDeleted);
    SameColumnSame(c, DropEmptyColumns(c), IsDeleted);
  }

  /** Without an error, the three steps drop exactly the pruned columns. */
  lemma StagedDrop(b: Frame)
    requires IsDeleted in b.columns && !AllNull(b, IsDeleted)
    ensures DropIsDeleted(DropEmptyColumns(DropUnneeded(b))) == Ok(DropColumns(b, PrunedIn(b)))
  {
    var c := DropUnneeded(b);
    StagesKeepIsDeleted(b);
    DropColumnsTwice(b, UnneededIn(b), EmptyIn(c));
    if NUnique(b, IsDeleted) == 1 {
      PrunedWithIsDeleted(b);
      DropColumnsTwice(b, UnneededIn(b) + EmptyIn(c), {IsDeleted});
    } else {
      PrunedWithoutIsDeleted(b);
    }
  }

  /** `PruneColumns` is the source's three steps in order: drop the
      presentation columns that are there, drop the columns of missing cells
      only, then read `is_deleted` and drop it when it holds one value. */
  lemma PruneColumnsStaged(b: Frame)
    ensures PruneColumns(b) == DropIsDeleted(DropEmptyColumns(DropUnneeded(b)))
  {
    if IsDeleted !in b.columns || AllNull(b, IsDeleted) {
      StagesKeepIsDeleted(b);
    } else {
      StagedDrop(b);
    }
  }

  /** No column left after pruning reads only missing cells. */
  lemma PruneColumnsNotEmpty(b: Frame)
    requires PruneColumns(b).Ok?
    ensures NoEmptyColumns(PruneColumns(b).value)
  {
    var out := PruneColumns(b).value;
    forall x | x in out.columns
      ensures !AllNull(out, x)
    {
      var k :| 0 <= k < |b.rows| && Get(b.rows[k], x) != Null;
      assert Get(out.rows[k], x) == Get(b.rows[k], x);
    }
  }

  /** A surviving `is_deleted` does not hold one single value. */
  lemma PruneColumnsIsDeleted(b: Frame)
    requires PruneColumns(b).Ok?
    ensures IsDeletedInformative(PruneColumns(b).value)
  {
    var out := PruneColumns(b).value;
    if IsDeleted in out.columns {
      assert SameColumn(b, out, IsDeleted);
      SameColumnSame(b, out, IsDeleted);
    }
  }

  /** Pruning keeps the session type of every row, as it neither reorders
      nor drops rows. */
  lemma PruneColumnsKeepsSession(b: Frame, st: string)
    requires PruneColumns(b).Ok? && SessionMatches(b, st)
    ensures SessionMatches(PruneColumns(b).value, st)
  {
    var out := PruneColumns(b).value;
    forall k | 0 <= k < |out.rows|
      ensures InSession(out.rows[k], st)
    {
      assert InSession(b.rows[k], st);
    }
  }

  /** Pruning keeps the trimmed status cells. */
  lemma PruneColumnsKeepsStatus(b: Frame)
    requires PruneColumns(b).Ok? && StatusTrimmed(b)
    ensures StatusTrimmed(PruneColumns(b).value)
  {
    var out := PruneColumns(b).value;
    forall k | 0 <= k < |out.rows|
      ensures StatusClean(Get(out.rows[k], Status))
    {
      assert StatusClean(Get(b.rows[k], Status));
    }
  }

  /** Lines 94-106: cast the count columns to integers and the best speed to
      floats. */
  function CastColumns(e: Frame): (r: Result<Frame, CleanError>)
    ensures r.Err? <==> CountText(e) || BestSpeed !in e.columns || HasText(e, BestSpeed)
    ensures r.Ok? ==> r.value.columns == e.columns && |r.value.rows| == |e.rows|
    ensures r.Ok? ==> forall k, c {:trigger Get(r.value.rows[k], c)} :: 0 <= k < |e.rows| ==>
      Get(r.value.rows[k], c) ==
        if IsCount(c) && c in e.columns then CastInt(Get(e.rows[k], c))
        else if c == BestSpeed then CastFloat(Get(e.rows[k], c))
        else Get(e.rows[k], c)
    ensures r.Ok? ==> CountsAreInts(r.value) && SpeedsAreReals(r.value)
    ensures r.Ok? && WellFormed(e) ==> WellFormed(r.value)
  {
    var g :- FillIntColumns(e);
    assert HasText(g, BestSpeed) <==> HasText(e, BestSpeed) by {
      assert forall k :: 0 <= k < |e.rows| ==> Get(g.rows[k], BestSpeed) == Get(e.rows[k], BestSpeed);
    }
    CastBestSpeed(g)
  }

  /** Casting keeps the session type of every row. */
  lemma CastColumnsKeepsSession(e: Frame, st: string)
    requires CastColumns(e).Ok? && SessionMatches(e, st)
    ensures SessionMatches(CastColumns(e).value, st)
  {
    var out := CastColumns(e).value;
    forall k | 0 <= k < |out.rows|
      ensures InSession(out.rows[k], st)
    {
      assert InSession(e.rows[k], st);
    }
  }

  /** Casting keeps the trimmed status cells. */
  lemma CastColumnsKeepsStatus(e: Frame)
    requires CastColumns(e).Ok? && StatusTrimmed(e)
    ensures StatusTrimmed(CastColumns(e).value)
  {
    var out := CastColumns(e).value;
    forall k | 0 <= k < |out.rows|
      ensures StatusClean(Get(out.rows[k], Status))
    {
      assert StatusClean(Get(e.rows[k], Status));
    }
  }

  /** Casting never turns a present cell into a missing one. */
  lemma CastColumnsKeepsPresence(e: Frame, k: int, x: Column)
    requires CastColumns(e).Ok? && 0 <= k < |e.rows| && Get(e.rows[k], x) != Null
    ensures Get(CastColumns(e).value.rows[k], x) != Null
  {
    var g := FillIntColumns(e).value;
    CastsKeepPresence(Get(e.rows[k], x));
    CastsKeepPresence(Get(g.rows[k], x));
  }

  /** Casting keeps every column that holds some value. */
  lemma CastColumnsKeepsNotEmpty(e: Frame)
    requires CastColumns(e).Ok? && NoEmptyColumns(e)
    ensures NoEmptyColumns(CastColumns(e).value)
  {
    var out := CastColumns(e).value;
    forall x | x in out.columns
      ensures !AllNull(out, x)
    {
      var k :| 0 <= k < |e.rows| && Get(e.rows[k], x) != Null;
      CastColumnsKeepsPresence(e, k, x);
    }
  }

  /** Casting leaves `is_deleted` as it was. */
  lemma CastColumnsKeepsIsDeleted(e: Frame)
    requires CastColumns(e).Ok? && IsDeletedInformative(e)
    ensures IsDeletedInformative(CastColumns(e).value)
  {
    var out := CastColumns(e).value;
    assert SameColumn(e, out, IsDeleted);
    SameColumnSame(e, out, IsDeleted);
  }

  /** What the normaliser makes of input cell `v` of a column `c` it keeps:
      the status is trimmed, a count is cast to an integer, the best speed to
      a float, and any other cell is left as it is. */
  function CleanCell(c: Column, v: Value): Value {
    if c == Status then StripValue(v)
    else if IsCount(c) then CastInt(v)
    else if c == BestSpeed then CastFloat(v)
    else v
  }

  /** `clean_sessions_records(df, session_type)`: the steps in source order,
      the first exception ending the run. */
  function CleanSessionsRecords(f: Frame, st: string): (r: Result<Frame, CleanError>)
    ensures Lower(st) != "all" && SessionType !in f.columns ==> r == Err(MissingColumn(SessionType))
    ensures r.Ok? ==> Status in f.columns && IsDeleted in f.columns && BestSpeed in f.columns
  {
    var selected :- SelectRows(f, st);
    var pruned :- PruneColumns(selected);
    CastColumns(pruned)
  }

  /** The intermediate frames of a run that raises nothing. */
  lemma CleanedSteps(f: Frame, st: string) returns (b: Frame, e: Frame)
    requires CleanSessionsRecords(f, st).Ok?
    ensures SelectRows(f, st) == Ok(b)
    ensures PruneColumns(b) == Ok(e)
    ensures CastColumns(e).Ok? && CleanSessionsRecords(f, st) == CastColumns(e)
  {
    b := SelectRows(f, st).value;
    e := PruneColumns(b).value;
  }

  /** Row `k` of a normalised frame comes from the `k`-th row the session
      filter keeps: every cell of a surviving column is that row's cell
      cleaned by `CleanCell`. */
  lemma CleanedRows(f: Frame, st: string)
    requires CleanSessionsRecords(f, st).Ok?
    ensures var out := CleanSessionsRecords(f, st).value;
      && |out.rows| == |SelectedRows(f, st)|
      && forall k, c {:trigger Get(out.rows[k], c)} :: 0 <= k < |out.rows| && c in out.columns ==>
        Get(out.rows[k], c) == CleanCell(c, Get(SelectedRows(f, st)[k], c))
  {
    var b, e := CleanedSteps(f, st);
    var out := CleanSessionsRecords(f, st).value;
    forall k, c | 0 <= k < |out.rows| && c in out.columns
      ensures Get(out.rows[k], c) == CleanCell(c, Get(SelectedRows(f, st)[k], c))
    {
      CleanedCell(f, st, b, e, k, c);
    }
  }

  /** One cell of `CleanedRows`, followed through the three phases. */
  lemma CleanedCell(f: Frame, st: string, b: Frame, e: Frame, k: int, c: Column)
    requires SelectRows(f, st) == Ok(b) && PruneColumns(b) == Ok(e) && CastColumns(e).Ok?
    requires 0 <= k < |e.rows| && c in e.columns
    ensures Get(CastColumns(e).value.rows[k], c) == CleanCell(c, Get(SelectedRows(f, st)[k], c))
  {
    var v := Get(SelectedRows(f, st)[k], c);
    var wb := Get(b.rows[k], c);
    assert wb == if c == Status then StripValue(v) else v;
    assert c in b.columns && !Pruned(b, c);
    assert Get(e.rows[k], c) == wb;
    PhasesClean(c, v, wb, Get(CastColumns(e).value.rows[k], c));
  }

  /** The selection's and the cast's cell formulas compose to `CleanCell`
      for a column that survives pruning. */
  lemma PhasesClean(c: Column, v: Value, wb: Value, w: Value)
    requires wb == if c == Status then StripValue(v) else v
    requires w == if IsCount(c) then CastInt(wb) else if c == BestSpeed then CastFloat(wb) else wb
    ensures w == CleanCell(c, v)
  {
  }

  /** A normalised frame is well formed, has as many rows as the input has
      rows of the session (all rows for "all") and keeps `best_speed`. */
  lemma CleanedShape(f: Frame, st: string)
    requires CleanSessionsRecords(f, st).Ok?
    ensures var out := CleanSessionsRecords(f, st).value;
      && |out.rows| == (if Lower(st) == "all" then |f.rows| else Count(f.rows, SessionIs(st)))
      && BestSpeed in out.columns
      && (WellFormed(f) ==> WellFormed(out))
  {
  }

  /** Every column of a normalised frame comes from the input and is not a
      presentation column. */
  lemma CleanedColumnOrigin(f: Frame, st: string)
    requires CleanSessionsRecords(f, st).Ok?
    ensures forall c :: c in CleanSessionsRecords(f, st).value.columns ==> c in f.columns && !IsUnneeded(c)
    ensures var sel := SelectedRows(f, st);
      forall c :: c in CleanSessionsRecords(f, st).value.columns <==>
        && c in f.columns
        && !IsUnneeded(c)
        && (exists k :: 0 <= k < |sel| && SelectedCell(sel[k], c) != Null)
        && !(c == IsDeleted && NUnique(SelectRows(f, st).value, IsDeleted) == 1)
  {
    var b, e := CleanedSteps(f, st);
    SelectedNull(f, st, b);
    assert forall c :: c in e.columns <==> c in b.columns && !Pruned(b, c);
  }

  /** A column of the selection reads only missing cells exactly when every
      selected row's cell, after the status trim, is missing. */
  lemma SelectedNull(f: Frame, st: string, b: Frame)
    requires SelectRows(f, st) == Ok(b)
    ensures var sel := SelectedRows(f, st);
      forall c :: AllNull(b, c) <==> !exists k :: 0 <= k < |sel| && SelectedCell(sel[k], c) != Null
  {
    var sel := SelectedRows(f, st);
    forall c
      ensures AllNull(b, c) <==> !exists k :: 0 <= k < |sel| && SelectedCell(sel[k], c) != Null
    {
      if !AllNull(b, c) {
        var k :| 0 <= k < |b.rows| && Get(b.rows[k], c) != Null;
        assert SelectedCell(sel[k], c) != Null;
      }
    }
  }

  /** No column of a normalised frame reads only missing cells. */
  lemma CleanedNoEmptyColumns(f: Frame, st: string)
    requires CleanSessionsRecords(f, st).Ok?
    ensures NoEmptyColumns(CleanSessionsRecords(f, st).value)
  {
    var b, e := CleanedSteps(f, st);
    PruneColumnsNotEmpty(b);
    CastColumnsKeepsNotEmpty(e);
  }

  /** A normalised frame keeps `is_deleted` only where it still tells rows
      apart. */
  lemma CleanedIsDeleted(f: Frame, st: string)
    requires CleanSessionsRecords(f, st).Ok?
    ensures IsDeletedInformative(CleanSessionsRecords(f, st).value)
  {
    var b, e := CleanedSteps(f, st);
    PruneColumnsIsDeleted(b);
    CastColumnsKeepsIsDeleted(e);
  }

  /** Every normalised row has the requested session type. */
  lemma CleanedSessionType(f: Frame, st: string)
    requires CleanSessionsRecords(f, st).Ok? && Lower(st) != "all"
    ensures SessionMatches(CleanSessionsRecords(f, st).value, st)
  {
    var b, e := CleanedSteps(f, st);
    PruneColumnsKeepsSession(b, st);
    CastColumnsKeepsSession(e, st);
  }

  /** Every normalised status is the trimmed status of its input row, and so
      missing or trimmed text. */
  lemma CleanedStatus(f: Frame, st: string)
    requires CleanSessionsRecords(f, st).Ok?
    ensures StatusTrimmed(CleanSessionsRecords(f, st).value)
    ensures var out := CleanSessionsRecords(f, st).value;
      forall k :: 0 <= k < |out.rows| ==>
        Get(out.rows[k], Status) == StripValue(Get(SelectedRows(f, st)[k], Status))
  {
    var b, e := CleanedSteps(f, st);
    var out := CleanSessionsRecords(f, st).value;
    forall k | 0 <= k < |out.rows|
      ensures Get(out.rows[k], Status) == StripValue(Get(SelectedRows(f, st)[k], Status))
      ensures StatusClean(Get(out.rows[k], Status))
    {
      CleanedStatusAt(f, st, b, e, k);
      StripValueClean(Get(SelectedRows(f, st)[k], Status));
    }
  }

  /** One row of `CleanedStatus`. This holds even when pruning removed the
      status column, for it goes only when every trimmed status is
      missing. */
  lemma CleanedStatusAt(f: Frame, st: string, b: Frame, e: Frame, k: int)
    requires SelectRows(f, st) == Ok(b) && PruneColumns(b) == Ok(e) && CastColumns(e).Ok?
    requires 0 <= k < |e.rows|
    ensures Get(CastColumns(e).value.rows[k], Status) == StripValue(Get(SelectedRows(f, st)[k], Status))
  {
    if Status in e.columns {
      CleanedCell(f, st, b, e, k, Status);
    } else {
      PrunedStatusNull(b, e, k);
      assert Get(b.rows[k], Status) == StripValue(Get(SelectedRows(f, st)[k], Status));
      assert Get(CastColumns(e).value.rows[k], Status) == Get(e.rows[k], Status);
    }
  }

  /** Pruning removes the status column only when every status reads
      missing. */
  lemma PrunedStatusNull(b: Frame, e: Frame, k: int)
    requires PruneColumns(b) == Ok(e) && Status in b.columns && Status !in e.columns
    requires 0 <= k < |b.rows|
    ensures Get(b.rows[k], Status) == Null && Get(e.rows[k], Status) == Null
  {
    assert Pruned(b, Status);
  }

  /** A normalised frame holds integers in its count columns: each count is
      the integer cast of its input cell, so a missing one is 0. */
  lemma CleanedNumbers(f: Frame, st: string)
    requires CleanSessionsRecords(f, st).Ok?
    ensures CountsAreInts(CleanSessionsRecords(f, st).value)
    ensures var out := CleanSessionsRecords(f, st).value;
      forall k, c :: 0 <= k < |out.rows| && IsCount(c) && c in out.columns ==>
        Get(out.rows[k], c) == CastInt(Get(SelectedRows(f, st)[k], c))
  {
    var b, e := CleanedSteps(f, st);
    CleanedRows(f, st);
  }

  /** A normalised frame holds floats or missing cells as best speeds: each
      is the float cast of its input cell. */
  lemma CleanedSpeeds(f: Frame, st: string)
    requires CleanSessionsRecords(f, st).Ok?
    ensures SpeedsAreReals(CleanSessionsRecords(f, st).value)
    ensures var out := CleanSessionsRecords(f, st).value;
      forall k :: 0 <= k < |out.rows| ==>
        Get(out.rows[k], BestSpeed) == CastFloat(Get(SelectedRows(f, st)[k], BestSpeed))
  {
    var b, e := CleanedSteps(f, st);
    CleanedRows(f, st);
    assert BestSpeed in CleanSessionsRecords(f, st).value.columns;
  }

  /** When no row has the requested session type, every column of the
      selection reads only missing cells, so `dropna` removes them all and
      the read of `is_deleted` raises. */
  lemma NoMatchingRowsRaise(f: Frame, st: string)
    requires Lower(st) != "all" && SessionType in f.columns && Status in f.columns
    requires Count(f.rows, SessionIs(st)) == 0
    ensures CleanSessionsRecords(f, st) == Err(MissingColumn(IsDeleted))
  {
  }
}
