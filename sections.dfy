/**
 * The two year-indexed sections below a labelled header row:
 * `extract_participants_effort` and `extract_weather`. Each reads rows downward
 * from its header until the row whose index cell is empty.
 */
module Sections {
  import opened Strings
  import opened Results
  import opened Cells
  import opened Sheet

  // ---------------------------------------------------------------- reading a block

  /** A successful result with `acc` put in front. */
  function Prepend<R>(acc: seq<R>, r: Result<seq<R>>): Result<seq<R>> {
    match r
    case Err(e) => Err(e)
    case Ok(rest) => Ok(acc + rest)
  }

  /** The records of the rows from the first one down to the row before the first one whose
      index cell (column `col`) is empty; the first row that fails to parse fails the whole
      block. */
  function ReadBlock<R>(rows: seq<Row>, col: nat, parse: Row -> Result<R>): Result<seq<R>>
    decreases |rows|
  {
    if rows == [] || At(rows[0], col).Missing? then Ok([])
    else
      match parse(rows[0])
      case Err(e) => Err(e)
      case Ok(v) => Prepend([v], ReadBlock(rows[1..], col, parse))
  }

  /** The number of rows before the first one whose index cell is empty. */
  function BlockLen(rows: seq<Row>, col: nat): (n: nat)
    ensures n <= |rows|
    ensures forall i :: 0 <= i < n ==> !At(rows[i], col).Missing?
    ensures n == |rows| || At(rows[n], col).Missing?
    decreases |rows|
  {
    if rows == [] || At(rows[0], col).Missing? then 0
    else
      var n := BlockLen(rows[1..], col);
      assert forall i :: 1 <= i <= n ==> rows[i] == rows[1..][i - 1];
      n + 1
  }

  /** `for r in range(start, len(df))`, stopping at an empty index cell and raising on a row
      that does not parse. */
  method ReadBlockLoop<R>(g: Grid, start: nat, col: nat, parse: Row -> Result<R>) returns (r: Result<seq<R>>)
    requires start <= |g|
    ensures r == ReadBlock(g[start..], col, parse)
  {
    var recs: seq<R> := [];
    var i := start;
    PrependNil(ReadBlock(g[start..], col, parse));
    while i < |g|
      invariant start <= i <= |g|
      invariant ReadBlock(g[start..], col, parse) == Prepend(recs, ReadBlock(g[i..], col, parse))
    {
      assert g[i..][0] == g[i] && g[i..][1..] == g[i + 1..];
      if At(g[i], col).Missing? {
        assert recs + [] == recs;
        break;
      }
      var rec := parse(g[i]);
      if rec.Err? {
        return Err(rec.error);
      }
      PrependPrepend(recs, [rec.value], ReadBlock(g[i + 1..], col, parse));
      recs := recs + [rec.value];
      i := i + 1;
    }
    if i == |g| {
      assert g[i..] == [];
      assert recs + [] == recs;
    }
    return Ok(recs);
  }

  lemma PrependNil<R>(r: Result<seq<R>>)
    ensures Prepend([], r) == r
  {
    if r.Ok? {
      assert [] + r.value == r.value;
    }
  }

  lemma PrependPrepend<R>(a: seq<R>, b: seq<R>, r: Result<seq<R>>)
    ensures Prepend(a, Prepend(b, r)) == Prepend(a + b, r)
  {
    if r.Ok? {
      assert a + (b + r.value) == a + b + r.value;
    }
  }

  /** A block that reads is one record per row of the contiguous block below the start, each
      that row's parse. */
  lemma {:induction false} ReadBlockOk<R>(rows: seq<Row>, col: nat, parse: Row -> Result<R>)
    requires ReadBlock(rows, col, parse).Ok?
    ensures var recs := ReadBlock(rows, col, parse).value;
      |recs| == BlockLen(rows, col) && forall i :: 0 <= i < |recs| ==> parse(rows[i]) == Ok(recs[i])
    decreases |rows|
  {
    if rows != [] && !At(rows[0], col).Missing? {
      ReadBlockOk(rows[1..], col, parse);
      var recs := ReadBlock(rows, col, parse).value;
      var tail := ReadBlock(rows[1..], col, parse).value;
      assert recs == [parse(rows[0]).value] + tail;
      forall i | 1 <= i < |recs|
        ensures parse(rows[i]) == Ok(recs[i])
      {
        assert rows[i] == rows[1..][i - 1] && recs[i] == tail[i - 1];
      }
    }
  }

  /** A block fails exactly when a row of the contiguous block fails to parse, and then with
      the error of the first such row. */
  lemma {:induction false} ReadBlockErr<R>(rows: seq<Row>, col: nat, parse: Row -> Result<R>)
    ensures ReadBlock(rows, col, parse).Err? <==> exists i :: 0 <= i < BlockLen(rows, col) && parse(rows[i]).Err?
    ensures ReadBlock(rows, col, parse).Err? ==>
      exists i :: 0 <= i < BlockLen(rows, col) && parse(rows[i]) == Err(ReadBlock(rows, col, parse).error) &&
        forall j :: 0 <= j < i ==> parse(rows[j]).Ok?
    decreases |rows|
  {
    if rows != [] && !At(rows[0], col).Missing? {
      ReadBlockErr(rows[1..], col, parse);
      var n := BlockLen(rows[1..], col);
      assert forall i :: 1 <= i <= n ==> rows[i] == rows[1..][i - 1];
      if parse(rows[0]).Ok? && ReadBlock(rows[1..], col, parse).Err? {
        var i :| 0 <= i < n && parse(rows[1..][i]) == Err(ReadBlock(rows[1..], col, parse).error) &&
          forall j :: 0 <= j < i ==> parse(rows[1..][j]).Ok?;
        assert parse(rows[i + 1]) == Err(ReadBlock(rows, col, parse).error);
        forall j | 0 <= j < i + 1
          ensures parse(rows[j]).Ok?
        {
          if j > 0 {
            assert parse(rows[1..][j - 1]).Ok?;
          }
        }
      }
      if parse(rows[0]).Ok? && ReadBlock(rows[1..], col, parse).Ok? {
        forall i | 0 <= i < BlockLen(rows, col)
          ensures parse(rows[i]).Ok?
        {
          if i > 0 {
            assert parse(rows[1..][i - 1]).Ok?;
          }
        }
      }
    }
  }

  // ---------------------------------------------------------------- cells of a row

  /** `_clean_text(v)` is truthy. */
  predicate Present(c: Cell) {
    CleanText(c) != ""
  }

  /** A successful integer as an optional one. */
  function Lift(r: Result<int>): (o: Result<Option<int>>)
    ensures o.Ok? <==> r.Ok?
    ensures o.Ok? ==> o.value == Some(r.value)
    ensures o.Err? ==> o.error == r.error
  {
    match r
    case Err(e) => Err(e)
    case Ok(n) => Ok(Some(n))
  }

  /** `int(v) if _clean_text(v) else None` */
  function IntIfPresent(c: Cell): (r: Result<Option<int>>)
    ensures r.Err? ==> r.error.NotAnInteger?
  {
    if Present(c) then Lift(IntOf(c)) else Ok(None)
  }

  /** `s[-4:]` */
  function LastFour(s: string): (r: string)
    ensures |r| == if |s| < 4 then |s| else 4
    ensures r == s[|s| - |r|..]
  {
    if |s| < 4 then s else s[|s| - 4..]
  }

  /** `int(str(count_date).strip()[-4:]) if _clean_text(count_date) else None` */
  function YearOfDate(c: Cell): (r: Result<Option<int>>)
    ensures r.Err? ==> r.error.NotAnInteger?
  {
    if Present(c) then Lift(PyIntText(LastFour(Stripped(c)))) else Ok(None)
  }

  // ---------------------------------------------------------------- participants and effort

  /** The columns of the participants/effort header row. */
  datatype PeCols = PeCols(year: nat, countDate: nat, participants: nat, hours: nat, speciesReported: nat)

  /** One row of the participants/effort table. The hours cell, once `float()` accepts it, is
      kept as it stands. */
  datatype PeRecord = PeRecord(countIndex: Option<int>, countDate: string, year: Option<int>,
                               numParticipants: Option<int>, numHours: Option<Cell>,
                               numSpeciesReported: Option<int>)

  /** `col_idx(label)` for each label in turn: the first label the header lacks is the error. */
  function PeColumnsOf(header: Row): (r: Result<PeCols>)
    ensures r.Err? ==> r.error.MissingLabel?
  {
    match ColumnOf(header, "Year")
    case None => Err(MissingLabel("Year"))
    case Some(y) =>
      match ColumnOf(header, "Count Date")
      case None => Err(MissingLabel("Count Date"))
      case Some(d) =>
        match ColumnOf(header, "Num. Participants")
        case None => Err(MissingLabel("Num. Participants"))
        case Some(p) =>
          match ColumnOf(header, "Num. Hours")
          case None => Err(MissingLabel("Num. Hours"))
          case Some(h) =>
            match ColumnOf(header, "Num. Species Reported")
            case None => Err(MissingLabel("Num. Species Reported"))
            case Some(s) => Ok(PeCols(y, d, p, h, s))
  }

  /** `float(v) if _clean_text(v) else None`, keeping the accepted cell as it stands. */
  function FloatIfPresent(c: Cell): (r: Result<Option<Cell>>)
    ensures r.Ok? ==> r.value == if Present(c) then Some(c) else None
    ensures r.Err? <==> Present(c) && c.Text? && !IsFloatText(c.s)
    ensures r.Err? ==> r.error == NotAFloat(c.s)
  {
    if Present(c) then
      match FloatOf(c)
      case Err(e) => Err(e)
      case Ok(v) => Ok(Some(v))
    else Ok(None)
  }

  /** The record of one participants/effort row; its fields are computed, and can fail, in the
      order CountIndex, Year, NumParticipants, NumHours, NumSpeciesReported. A blank index gives
      no count index. */
  function PeRow(row: Row, c: PeCols): Result<PeRecord> {
    var idx := At(row, c.year);
    var date := At(row, c.countDate);
    match (if Stripped(idx) != "" then Lift(IntOf(idx)) else Ok(None))
    case Err(e) => Err(e)
    case Ok(ci) =>
      match YearOfDate(date)
      case Err(e) => Err(e)
      case Ok(y) =>
        match IntIfPresent(At(row, c.participants))
        case Err(e) => Err(e)
        case Ok(np) =>
          match FloatIfPresent(At(row, c.hours))
          case Err(e) => Err(e)
          case Ok(nh) =>
            match IntIfPresent(At(row, c.speciesReported))
            case Err(e) => Err(e)
            case Ok(ns) => Ok(PeRecord(ci, CleanText(date), y, np, nh, ns))
  }

  function PeParser(c: PeCols): Row -> Result<PeRecord> {
    row => PeRow(row, c)
  }

  /** `out[out["CountIndex"].notna()]` */
  function Indexed(recs: seq<PeRecord>): (r: seq<PeRecord>)
    ensures |r| <= |recs|
    ensures forall i :: 0 <= i < |r| ==> r[i].countIndex.Some? && r[i] in recs
    ensures forall i :: 0 <= i < |recs| && recs[i].countIndex.Some? ==> recs[i] in r
  {
    if recs == [] then []
    else
      var p := Indexed(recs[..|recs| - 1]);
      var x := recs[|recs| - 1];
      if x.countIndex.Some? then p + [x] else p
  }

  /** `extract_participants_effort`: the header is the first row with a "Count Date" cell;
      an empty block has no CountIndex column to filter on. */
  function ParticipantsEffortOf(g: Grid): Result<seq<PeRecord>> {
    match RowWithCellOf(g, "Count Date")
    case Err(e) => Err(e)
    case Ok(h) => PeBelow(g, h)
  }

  /** The participants/effort table under header row `h`. */
  function PeBelow(g: Grid, h: nat): Result<seq<PeRecord>>
    requires h < |g|
  {
    match PeColumnsOf(g[h])
    case Err(e) => Err(e)
    case Ok(c) => PeTable(ReadBlock(g[h + 1..], c.year, PeParser(c)))
  }

  /** `pd.DataFrame(rows)` and the CountIndex filter: an empty block has no CountIndex column. */
  function PeTable(block: Result<seq<PeRecord>>): (r: Result<seq<PeRecord>>)
    ensures r.Ok? ==> forall i :: 0 <= i < |r.value| ==> r.value[i].countIndex.Some?
  {
    match block
    case Err(e) => Err(e)
    case Ok(recs) => if recs == [] then Err(NoCountIndexColumn) else Ok(Indexed(recs))
  }

  /** `extract_participants_effort` */
  method ExtractParticipantsEffort(g: Grid) returns (r: Result<seq<PeRecord>>)
    ensures r == ParticipantsEffortOf(g)
  {
    var h := FindRowWithCell(g, "Count Date");
    if h.Err? {
      return Err(h.error);
    }
    r := ReadParticipantsEffort(g, h.value);
  }

  /** The column lookups and the downward read under header row `h`. */
  method ReadParticipantsEffort(g: Grid, h: nat) returns (r: Result<seq<PeRecord>>)
    requires h < |g|
    ensures r == PeBelow(g, h)
  {
    var cols := PeColumnsOf(g[h]);
    if cols.Err? {
      return Err(cols.error);
    }
    var block := ReadBlockLoop(g, h + 1, cols.value.year, PeParser(cols.value));
    return PeTable(block);
  }

  // ---------------------------------------------------------------- weather

  /** The columns of the weather header row; only the year column is required. */
  datatype WeatherCols = WeatherCols(year: nat, low: Option<nat>, high: Option<nat>,
                                     amClouds: Option<nat>, pmClouds: Option<nat>,
                                     amRain: Option<nat>, pmRain: Option<nat>,
                                     amSnow: Option<nat>, pmSnow: Option<nat>)

  /** One row of the weather table. */
  datatype WeatherRecord = WeatherRecord(countIndex: int, lowTempF: Option<real>, highTempF: Option<real>,
                                         amClouds: string, pmClouds: string, amRain: string,
                                         pmRain: string, amSnow: string, pmSnow: string)

  function WeatherColumnsOf(header: Row): (r: Result<WeatherCols>)
    ensures r.Err? ==> r.error == MissingLabel("Year")
  {
    match ColumnOf(header, "Year")
    case None => Err(MissingLabel("Year"))
    case Some(y) =>
      Ok(WeatherCols(y, ColumnOf(header, "Low Temp."), ColumnOf(header, "High Temp."),
                     ColumnOf(header, "AM Clouds"), ColumnOf(header, "PM Clouds"),
                     ColumnOf(header, "AM Rain"), ColumnOf(header, "PM Rain"),
                     ColumnOf(header, "AM Snow"), ColumnOf(header, "PM Snow")))
  }

  /** `_parse_temp_f` of the cell in an optional column; None without the column. */
  function TempAt(row: Row, col: Option<nat>): Option<real> {
    match col
    case None => None
    case Some(j) => ParseTempF(At(row, j))
  }

  /** `_clean_text` of the cell in an optional column; "" without the column. */
  function TextAt(row: Row, col: Option<nat>): string {
    match col
    case None => ""
    case Some(j) => CleanText(At(row, j))
  }

  /** The record of one weather row; only `int()` of the index cell can fail. */
  function WeatherRow(row: Row, c: WeatherCols): Result<WeatherRecord> {
    match IntOf(At(row, c.year))
    case Err(e) => Err(e)
    case Ok(n) =>
      Ok(WeatherRecord(n, TempAt(row, c.low), TempAt(row, c.high),
                       TextAt(row, c.amClouds), TextAt(row, c.pmClouds),
                       TextAt(row, c.amRain), TextAt(row, c.pmRain),
                       TextAt(row, c.amSnow), TextAt(row, c.pmSnow)))
  }

  function WeatherParser(c: WeatherCols): Row -> Result<WeatherRecord> {
    row => WeatherRow(row, c)
  }

  /** `extract_weather`: the header is the first row with a "Low Temp." cell. */
  function WeatherOf(g: Grid): Result<seq<WeatherRecord>> {
    match RowWithCellOf(g, "Low Temp.")
    case Err(e) => Err(e)
    case Ok(h) => WeatherBelow(g, h)
  }

  /** The weather table under header row `h`. */
  function WeatherBelow(g: Grid, h: nat): Result<seq<WeatherRecord>>
    requires h < |g|
  {
    match WeatherColumnsOf(g[h])
    case Err(e) => Err(e)
    case Ok(c) => WeatherTable(ReadBlock(g[h + 1..], c.year, WeatherParser(c)))
  }

  /** `pd.DataFrame(rows)`: an empty block has no CountIndex column. */
  function WeatherTable(block: Result<seq<WeatherRecord>>): (r: Result<seq<WeatherRecord>>)
    ensures r.Ok? ==> |r.value| > 0
  {
    match block
    case Err(e) => Err(e)
    case Ok(recs) => if recs == [] then Err(NoCountIndexColumn) else Ok(recs)
  }

  /** `extract_weather` */
  method ExtractWeather(g: Grid) returns (r: Result<seq<WeatherRecord>>)
    ensures r == WeatherOf(g)
  {
    var h := FindRowWithCell(g, "Low Temp.");
    if h.Err? {
      return Err(h.error);
    }
    r := ReadWeather(g, h.value);
  }

  /** The column lookups and the downward read under header row `h`. */
  method ReadWeather(g: Grid, h: nat) returns (r: Result<seq<WeatherRecord>>)
    requires h < |g|
    ensures r == WeatherBelow(g, h)
  {
    var cols := WeatherColumnsOf(g[h]);
    if cols.Err? {
      return Err(cols.error);
    }
    var block := ReadBlockLoop(g, h + 1, cols.value.year, WeatherParser(cols.value));
    return WeatherTable(block);
  }

  // ---------------------------------------------------------------- properties

  lemma {:induction false} IndexedAppend(a: seq<PeRecord>, b: seq<PeRecord>)
    ensures Indexed(a + b) == Indexed(a) + Indexed(b)
    decreases |b|
  {
    if b == [] {
      assert a + b == a;
    } else {
      var b' := b[..|b| - 1];
      assert (a + b)[..|a + b| - 1] == a + b';
      assert (a + b)[|a + b| - 1] == b[|b| - 1];
      IndexedAppend(a, b');
    }
  }

  /** The filter keeps, in order, exactly the records that have a count index. */
  lemma IndexedSingle(x: PeRecord)
    ensures Indexed([x]) == if x.countIndex.Some? then [x] else []
  {
    assert [x][..0] == [];
  }

  /** The participants/effort columns are found by label, in the order Year, Count Date,
      Num. Participants, Num. Hours, Num. Species Reported; a missing label is an error naming
      the first one missing. */
  lemma PeColumnsSpec(header: Row)
    ensures PeColumnsOf(header).Ok? <==>
      ColumnOf(header, "Year").Some? && ColumnOf(header, "Count Date").Some? &&
      ColumnOf(header, "Num. Participants").Some? && ColumnOf(header, "Num. Hours").Some? &&
      ColumnOf(header, "Num. Species Reported").Some?
    ensures ColumnOf(header, "Year").None? ==> PeColumnsOf(header) == Err(MissingLabel("Year"))
    ensures (ColumnOf(header, "Year").Some? && ColumnOf(header, "Count Date").None?) ==>
      PeColumnsOf(header) == Err(MissingLabel("Count Date"))
    ensures (ColumnOf(header, "Year").Some? && ColumnOf(header, "Count Date").Some? &&
             ColumnOf(header, "Num. Participants").None?) ==>
      PeColumnsOf(header) == Err(MissingLabel("Num. Participants"))
    ensures (ColumnOf(header, "Year").Some? && ColumnOf(header, "Count Date").Some? &&
             ColumnOf(header, "Num. Participants").Some? && ColumnOf(header, "Num. Hours").None?) ==>
      PeColumnsOf(header) == Err(MissingLabel("Num. Hours"))
    ensures (ColumnOf(header, "Year").Some? && ColumnOf(header, "Count Date").Some? &&
             ColumnOf(header, "Num. Participants").Some? && ColumnOf(header, "Num. Hours").Some? &&
             ColumnOf(header, "Num. Species Reported").None?) ==>
      PeColumnsOf(header) == Err(MissingLabel("Num. Species Reported"))
    ensures PeColumnsOf(header).Ok? ==>
      var c := PeColumnsOf(header).value;
      && Stripped(header[c.year]) == "Year" && Stripped(header[c.countDate]) == "Count Date"
      && Stripped(header[c.participants]) == "Num. Participants" && Stripped(header[c.hours]) == "Num. Hours"
      && Stripped(header[c.speciesReported]) == "Num. Species Reported"
  {
    ColumnOfSpec(header, "Year");
    ColumnOfSpec(header, "Count Date");
    ColumnOfSpec(header, "Num. Participants");
    ColumnOfSpec(header, "Num. Hours");
    ColumnOfSpec(header, "Num. Species Reported");
  }

  /** `recs` are the readings, in order, of the rows from `start` down to the row before the
      first one with an empty index cell (or the end of the grid). */
  ghost predicate BlockOf<R>(g: Grid, start: nat, col: nat, parse: Row -> Result<R>, recs: seq<R>) {
    && start + |recs| <= |g|
    && (forall i :: 0 <= i < |recs| ==> !At(g[start + i], col).Missing? && parse(g[start + i]) == Ok(recs[i]))
    && (start + |recs| == |g| || At(g[start + |recs|], col).Missing?)
  }

  lemma BlockRows<R>(g: Grid, start: nat, col: nat, parse: Row -> Result<R>)
    requires start <= |g| && ReadBlock(g[start..], col, parse).Ok?
    ensures BlockOf(g, start, col, parse, ReadBlock(g[start..], col, parse).value)
  {
    var block := g[start..];
    ReadBlockOk(block, col, parse);
    var recs := ReadBlock(block, col, parse).value;
    forall i | 0 <= i <= |recs| && i < |block|
      ensures block[i] == g[start + i]
    {
    }
  }

  /** Every participants/effort record has a count index and is the reading of a row of the
      block below the header; the block's rows with a count index are all kept, in order. */
  lemma ParticipantsEffortRows(g: Grid)
    requires ParticipantsEffortOf(g).Ok?
    ensures var h := RowWithCellOf(g, "Count Date").value;
      var c := PeColumnsOf(g[h]).value;
      exists recs :: |recs| > 0 && ParticipantsEffortOf(g).value == Indexed(recs) &&
        BlockOf(g, h + 1, c.year, PeParser(c), recs)
  {
    var h := RowWithCellOf(g, "Count Date").value;
    var c := PeColumnsOf(g[h]).value;
    BlockRows(g, h + 1, c.year, PeParser(c));
  }

  /** Some row of the block above the first empty index cell has a field that is refused. */
  predicate SomeRowRefused(rows: seq<Row>, c: PeCols) {
    exists i :: 0 <= i < BlockLen(rows, c.year) && PeRefusal(rows[i], c).Some?
  }

  /** Error `e` is the refusal of the first row of the block that has one. */
  predicate FirstRowRefusal(rows: seq<Row>, c: PeCols, e: Error) {
    exists i :: 0 <= i < BlockLen(rows, c.year) && PeRefusal(rows[i], c) == Some(e) &&
      forall j :: 0 <= j < i ==> PeRefusal(rows[j], c).None?
  }

  /** How reading the participants/effort block `rows` with columns `c` ends in `r`: it fails
      exactly when the block is empty (no CountIndex column) or one of its rows has a refused
      field, and then with the refusal of the first such row. */
  predicate PeBlockErrors(rows: seq<Row>, c: PeCols, r: Result<seq<PeRecord>>) {
    && (r.Err? <==> BlockLen(rows, c.year) == 0 || SomeRowRefused(rows, c))
    && (BlockLen(rows, c.year) == 0 ==> r == Err(NoCountIndexColumn))
    && (r.Err? && BlockLen(rows, c.year) > 0 ==> FirstRowRefusal(rows, c, r.error))
  }

  /** Participants/effort fails without a "Count Date" row and with a missing label; otherwise
      it fails exactly when the block below the header is empty (no CountIndex column) or one
      of its rows has a refused field, and then with the refusal of the first such row. */
  lemma ParticipantsEffortErr(g: Grid)
    ensures RowWithCellOf(g, "Count Date").Err? ==> ParticipantsEffortOf(g) == Err(NoRowWithCell("Count Date"))
    ensures RowWithCellOf(g, "Count Date").Ok? ==>
      var h := RowWithCellOf(g, "Count Date").value;
      && (PeColumnsOf(g[h]).Err? ==> ParticipantsEffortOf(g) == Err(PeColumnsOf(g[h]).error))
      && (PeColumnsOf(g[h]).Ok? && BlockLen(g[h + 1..], PeColumnsOf(g[h]).value.year) == 0 ==>
            ParticipantsEffortOf(g) == Err(NoCountIndexColumn))
    ensures RowWithCellOf(g, "Count Date").Ok? && PeColumnsOf(g[RowWithCellOf(g, "Count Date").value]).Ok? ==>
      var h := RowWithCellOf(g, "Count Date").value;
      PeBlockErrors(g[h + 1..], PeColumnsOf(g[h]).value, ParticipantsEffortOf(g))
  {
    if RowWithCellOf(g, "Count Date").Ok? {
      var h := RowWithCellOf(g, "Count Date").value;
      PeBelowErr(g, h);
      if PeColumnsOf(g[h]).Ok? {
        PeBelowBlockErrors(g, h, ParticipantsEffortOf(g));
      }
    }
  }

  lemma PeBelowBlockErrors(g: Grid, h: nat, r: Result<seq<PeRecord>>)
    requires h < |g| && PeColumnsOf(g[h]).Ok? && r == PeBelow(g, h)
    ensures PeBlockErrors(g[h + 1..], PeColumnsOf(g[h]).value, r)
  {
    PeBlockErrorsOf(g[h + 1..], PeColumnsOf(g[h]).value, r);
  }

  /** The errors of reading a participants/effort block. */
  lemma PeBlockErrorsOf(rows: seq<Row>, c: PeCols, r: Result<seq<PeRecord>>)
    requires r == PeTable(ReadBlock(rows, c.year, PeParser(c)))
    ensures PeBlockErrors(rows, c, r)
  {
    var parse := PeParser(c);
    ReadBlockErr(rows, c.year, parse);
    if ReadBlock(rows, c.year, parse).Ok? {
      ReadBlockOk(rows, c.year, parse);
    }
    forall i | 0 <= i < |rows|
      ensures parse(rows[i]).Err? <==> PeRefusal(rows[i], c).Some?
      ensures parse(rows[i]).Err? ==> parse(rows[i]).error == PeRefusal(rows[i], c).value
    {
      PeRowErr(rows[i], c);
    }
  }

  lemma PeBelowErr(g: Grid, h: nat)
    requires h < |g|
    ensures PeColumnsOf(g[h]).Err? ==> PeBelow(g, h) == Err(PeColumnsOf(g[h]).error)
    ensures PeColumnsOf(g[h]).Ok? && BlockLen(g[h + 1..], PeColumnsOf(g[h]).value.year) == 0 ==>
      PeBelow(g, h) == Err(NoCountIndexColumn)
  {
    if PeColumnsOf(g[h]).Ok? {
      var c := PeColumnsOf(g[h]).value;
      var rows := g[h + 1..];
      if BlockLen(rows, c.year) == 0 && ReadBlock(rows, c.year, PeParser(c)).Ok? {
        ReadBlockOk(rows, c.year, PeParser(c));
      }
    }
  }

  /** The hours must be blank or a number `float()` accepts: a row whose hours text it refuses
      fails, and with that refusal unless an earlier field failed first; a record's hours are
      the cell itself when it is not blank. */
  lemma PeRowHours(row: Row, c: PeCols)
    ensures var h := At(row, c.hours);
      Present(h) && h.Text? && !IsFloatText(h.s) ==> PeRow(row, c).Err?
    ensures var h := At(row, c.hours);
      PeRow(row, c).Ok? ==>
        && PeRow(row, c).value.numHours == (if Present(h) then Some(h) else None)
        && (Present(h) ==> !h.Text? || IsFloatText(h.s))
    ensures PeRow(row, c).Err? && PeRow(row, c).error.NotAFloat? ==>
      At(row, c.hours) == Text(PeRow(row, c).error.text)
  {
    var idx := At(row, c.year);
    var first := if Stripped(idx) != "" then Lift(IntOf(idx)) else Ok(None);
    if first.Err? {
      assert PeRow(row, c) == Err(first.error);
    } else if YearOfDate(At(row, c.countDate)).Err? {
      assert PeRow(row, c) == Err(YearOfDate(At(row, c.countDate)).error);
    } else if IntIfPresent(At(row, c.participants)).Err? {
      assert PeRow(row, c) == Err(IntIfPresent(At(row, c.participants)).error);
    } else {
      PeRowTail(row, c, first.value, YearOfDate(At(row, c.countDate)).value, IntIfPresent(At(row, c.participants)).value);
    }
  }

  lemma PeRowTail(row: Row, c: PeCols, ci: Option<int>, y: Option<int>, np: Option<int>)
    requires (if Stripped(At(row, c.year)) != "" then Lift(IntOf(At(row, c.year))) else Ok(None)) == Ok(ci)
    requires YearOfDate(At(row, c.countDate)) == Ok(y)
    requires IntIfPresent(At(row, c.participants)) == Ok(np)
    ensures PeRow(row, c) ==
      match FloatIfPresent(At(row, c.hours))
      case Err(e) => Err(e)
      case Ok(nh) =>
        match IntIfPresent(At(row, c.speciesReported))
        case Err(e) => Err(e)
        case Ok(ns) => Ok(PeRecord(ci, CleanText(At(row, c.countDate)), y, np, nh, ns))
  {
  }

  /** The first field of a participants/effort row that its conversion refuses, in the order
      the record's fields are computed, and that conversion's error: a non-blank index `int()`
      refuses, a present count date whose last four characters `int()` refuses, present
      participants `int()` refuses, a present hours text `float()` refuses, present species
      `int()` refuses. None when every field converts. */
  function PeRefusal(row: Row, c: PeCols): Option<Error> {
    var idx, date := At(row, c.year), At(row, c.countDate);
    var np, nh, ns := At(row, c.participants), At(row, c.hours), At(row, c.speciesReported);
    if Stripped(idx) != "" && IntOf(idx).Err? then Some(IntOf(idx).error)
    else if Present(date) && PyIntText(LastFour(Stripped(date))).Err? then
      Some(PyIntText(LastFour(Stripped(date))).error)
    else if Present(np) && IntOf(np).Err? then Some(IntOf(np).error)
    else if Present(nh) && nh.Text? && !IsFloatText(nh.s) then Some(NotAFloat(nh.s))
    else if Present(ns) && IntOf(ns).Err? then Some(IntOf(ns).error)
    else None
  }

  /** A participants/effort row fails exactly when one of its fields is refused, and then with
      the refusal of the first such field. */
  lemma PeRowErr(row: Row, c: PeCols)
    ensures PeRow(row, c).Err? <==> PeRefusal(row, c).Some?
    ensures PeRow(row, c).Err? ==> PeRow(row, c).error == PeRefusal(row, c).value
  {
    var idx, date, np := At(row, c.year), At(row, c.countDate), At(row, c.participants);
    var first := if Stripped(idx) != "" then Lift(IntOf(idx)) else Ok(None);
    YearOfDateErr(date);
    if first.Err? {
      assert PeRow(row, c) == Err(first.error);
      assert PeRefusal(row, c) == Some(first.error);
    } else if YearOfDate(date).Err? {
      assert PeRow(row, c) == Err(YearOfDate(date).error);
      assert PeRefusal(row, c) == Some(YearOfDate(date).error);
    } else if IntIfPresent(np).Err? {
      assert PeRow(row, c) == Err(IntIfPresent(np).error);
      assert PeRefusal(row, c) == Some(IntIfPresent(np).error);
    } else {
      assert PeRefusal(row, c) == PeTailRefusal(row, c);
      PeRowTail(row, c, first.value, YearOfDate(date).value, IntIfPresent(np).value);
      PeTailErr(row, c, first.value, YearOfDate(date).value, IntIfPresent(np).value, PeRow(row, c));
    }
  }

  /** The refusal of the hours or species field, the fields computed last. */
  function PeTailRefusal(row: Row, c: PeCols): Option<Error> {
    var nh, ns := At(row, c.hours), At(row, c.speciesReported);
    if Present(nh) && nh.Text? && !IsFloatText(nh.s) then Some(NotAFloat(nh.s))
    else if Present(ns) && IntOf(ns).Err? then Some(IntOf(ns).error)
    else None
  }

  lemma PeTailErr(row: Row, c: PeCols, ci: Option<int>, y: Option<int>, np: Option<int>, r: Result<PeRecord>)
    requires r ==
      match FloatIfPresent(At(row, c.hours))
      case Err(e) => Err(e)
      case Ok(nh) =>
        match IntIfPresent(At(row, c.speciesReported))
        case Err(e) => Err(e)
        case Ok(ns) => Ok(PeRecord(ci, CleanText(At(row, c.countDate)), y, np, nh, ns))
    ensures r.Err? <==> PeTailRefusal(row, c).Some?
    ensures r.Err? ==> r.error == PeTailRefusal(row, c).value
  {
  }

  /** The year of a present count date is refused exactly when `int()` refuses the last four
      characters of the stripped date, and with that refusal; a blank date gives no year. */
  lemma YearOfDateErr(c: Cell)
    ensures Present(c) ==> (YearOfDate(c).Err? <==> PyIntText(LastFour(Stripped(c))).Err?)
    ensures Present(c) && YearOfDate(c).Err? ==>
      YearOfDate(c).error == PyIntText(LastFour(Stripped(c))).error == NotAnInteger(LastFour(Stripped(c)))
    ensures !Present(c) ==> YearOfDate(c) == Ok(None)
  {
  }

  /** The year of a participants/effort row is the number in the last four characters of the
      stripped count date, and there is none for a blank date. */
  lemma YearOfDateOf(c: Cell, prefix: string, y: nat)
    requires 1000 <= y <= 9999 && Stripped(c) == prefix + NatToString(y)
    ensures YearOfDate(c) == Ok(Some(y))
  {
    var sy := NatToString(y);
    NatToStringFour(y);
    StrippedMissing();
    assert c != Missing;
    PresentOfStripped(c);
    LastFourOf(prefix, sy);
    PyIntTextNumeral(y, [], []);
    assert [] + IntToString(y) + [] == sy;
  }

  lemma PresentOfStripped(c: Cell)
    requires !c.Missing? && Stripped(c) != ""
    ensures Present(c)
  {
    StrippedBlank(c);
    CleanTextBlank(c);
  }

  lemma LastFourOf(prefix: string, d: string)
    requires |d| == 4
    ensures LastFour(prefix + d) == d
  {
    assert (prefix + d)[|prefix|..] == d;
  }

  lemma YearOfBlankDate(c: Cell)
    requires c.Missing? || AllSpace(CellStr(c))
    ensures YearOfDate(c) == Ok(None)
  {
    if !c.Missing? {
      CleanTextBlank(c);
    }
  }

  /** The weather records are the readings, in order, of the rows of the block below the
      header, one per row. */
  lemma WeatherRows(g: Grid)
    requires WeatherOf(g).Ok?
    ensures var h := RowWithCellOf(g, "Low Temp.").value;
      var c := WeatherColumnsOf(g[h]).value;
      |WeatherOf(g).value| > 0 && BlockOf(g, h + 1, c.year, WeatherParser(c), WeatherOf(g).value)
  {
    var h := RowWithCellOf(g, "Low Temp.").value;
    var c := WeatherColumnsOf(g[h]).value;
    BlockRows(g, h + 1, c.year, WeatherParser(c));
  }

  /** Some row of the block above the first empty index cell has an index `int()` refuses. */
  predicate SomeIndexRefused(rows: seq<Row>, col: nat) {
    exists i :: 0 <= i < BlockLen(rows, col) && IntOf(At(rows[i], col)).Err?
  }

  /** Error `e` is `int()`'s refusal of the first refused index of the block. */
  predicate FirstRefusal(rows: seq<Row>, col: nat, e: Error) {
    exists i :: 0 <= i < BlockLen(rows, col) && IntOf(At(rows[i], col)) == Err(e) &&
      forall j :: 0 <= j < i ==> IntOf(At(rows[j], col)).Ok?
  }

  /** How reading the weather block `rows` by index column `col` ends in `r`: it fails exactly
      when the block is empty (no CountIndex column) or the index cell of one of its rows is
      refused by `int()`, and then with the error of the first such row. */
  predicate BlockErrors(rows: seq<Row>, col: nat, r: Result<seq<WeatherRecord>>) {
    && (r.Err? <==> BlockLen(rows, col) == 0 || SomeIndexRefused(rows, col))
    && (BlockLen(rows, col) == 0 ==> r == Err(NoCountIndexColumn))
    && (r.Err? && BlockLen(rows, col) > 0 ==> FirstRefusal(rows, col, r.error))
  }

  /** Weather fails without a "Low Temp." row and when that row has no "Year" column;
      otherwise it fails exactly when the block below the header is empty (no CountIndex
      column) or the index cell of one of its rows is refused by `int()`, and then with the
      error of the first such row. */
  lemma WeatherErr(g: Grid)
    ensures RowWithCellOf(g, "Low Temp.").Err? ==> WeatherOf(g) == Err(NoRowWithCell("Low Temp."))
    ensures RowWithCellOf(g, "Low Temp.").Ok? && ColumnOf(g[RowWithCellOf(g, "Low Temp.").value], "Year").None? ==>
      WeatherOf(g) == Err(MissingLabel("Year"))
    ensures RowWithCellOf(g, "Low Temp.").Ok? && ColumnOf(g[RowWithCellOf(g, "Low Temp.").value], "Year").Some? ==>
      var h := RowWithCellOf(g, "Low Temp.").value;
      BlockErrors(g[h + 1..], ColumnOf(g[h], "Year").value, WeatherOf(g))
  {
    if RowWithCellOf(g, "Low Temp.").Ok? && ColumnOf(g[RowWithCellOf(g, "Low Temp.").value], "Year").Some? {
      var h := RowWithCellOf(g, "Low Temp.").value;
      WeatherBelowErr(g, h, WeatherOf(g));
    }
  }

  lemma WeatherBelowErr(g: Grid, h: nat, r: Result<seq<WeatherRecord>>)
    requires h < |g| && ColumnOf(g[h], "Year").Some? && r == WeatherBelow(g, h)
    ensures BlockErrors(g[h + 1..], ColumnOf(g[h], "Year").value, r)
  {
    var c := WeatherColumnsOf(g[h]).value;
    WeatherBlockErrors(g[h + 1..], c, r);
  }

  /** The errors of reading a weather block. */
  lemma WeatherBlockErrors(rows: seq<Row>, c: WeatherCols, r: Result<seq<WeatherRecord>>)
    requires r == WeatherTable(ReadBlock(rows, c.year, WeatherParser(c)))
    ensures BlockErrors(rows, c.year, r)
  {
    var parse := WeatherParser(c);
    ReadBlockErr(rows, c.year, parse);
    if ReadBlock(rows, c.year, parse).Ok? {
      ReadBlockOk(rows, c.year, parse);
    }
    forall i | 0 <= i < |rows|
      ensures parse(rows[i]).Err? <==> IntOf(At(rows[i], c.year)).Err?
      ensures parse(rows[i]).Err? ==> parse(rows[i]).error == IntOf(At(rows[i], c.year)).error
    {
    }
  }

  /** A weather record's index is `int()` of the index cell, its temperatures are read from
      their columns, and its texts are the cleaned cells; an absent column gives no temperature
      and an empty text. */
  lemma WeatherRowSpec(row: Row, c: WeatherCols)
    ensures WeatherRow(row, c).Ok? <==> IntOf(At(row, c.year)).Ok?
    ensures WeatherRow(row, c).Ok? ==>
      var w := WeatherRow(row, c).value;
      && w.countIndex == IntOf(At(row, c.year)).value
      && (c.low.None? ==> w.lowTempF.None?) && (c.high.None? ==> w.highTempF.None?)
      && (c.low.Some? ==> w.lowTempF == ParseTempF(At(row, c.low.value)))
      && (c.high.Some? ==> w.highTempF == ParseTempF(At(row, c.high.value)))
      && w.amClouds == (if c.amClouds.Some? then CleanText(At(row, c.amClouds.value)) else "")
      && w.pmClouds == (if c.pmClouds.Some? then CleanText(At(row, c.pmClouds.value)) else "")
      && w.amRain == (if c.amRain.Some? then CleanText(At(row, c.amRain.value)) else "")
      && w.pmRain == (if c.pmRain.Some? then CleanText(At(row, c.pmRain.value)) else "")
      && w.amSnow == (if c.amSnow.Some? then CleanText(At(row, c.amSnow.value)) else "")
      && w.pmSnow == (if c.pmSnow.Some? then CleanText(At(row, c.pmSnow.value)) else "")
      && Trimmed(w.amClouds) && SpacesCollapsed(w.amClouds) && Trimmed(w.pmClouds) && SpacesCollapsed(w.pmClouds)
      && Trimmed(w.amRain) && SpacesCollapsed(w.amRain) && Trimmed(w.pmRain) && SpacesCollapsed(w.pmRain)
      && Trimmed(w.amSnow) && SpacesCollapsed(w.amSnow) && Trimmed(w.pmSnow) && SpacesCollapsed(w.pmSnow)
    ensures WeatherRow(row, c).Err? ==> WeatherRow(row, c).error == IntOf(At(row, c.year)).error
  {
  }
}
