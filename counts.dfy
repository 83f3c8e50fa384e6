/**
 * `extract_counts`: the species-by-year count matrix below the species header,
 * one row per species cell, cut off after the stop species.
 */
module Counts {
  import opened Strings
  import opened Results
  import opened Cells
  import opened Sheet
  import opened Dedup
  import opened Headers
  import opened Select

  /** One output row: the species' common name and its count in each year column. */
  datatype SpeciesRow = SpeciesRow(species: string, counts: seq<int>)

  /** The output table: the year of each count column, then the rows. */
  datatype CountsTable = CountsTable(years: seq<nat>, rows: seq<SpeciesRow>)

  /** `s.split("\n", 1)[0]`: the text before the first newline. */
  function FirstLine(s: string): (r: string)
    ensures |r| <= |s| && r == s[..|r|]
    ensures forall i :: 0 <= i < |r| ==> r[i] != '\n'
    ensures |r| == |s| || s[|r|] == '\n'
  {
    if s == [] || s[0] == '\n' then [] else [s[0]] + FirstLine(s[1..])
  }

  /** The common name of a species cell: the first line of its text, stripped. */
  function SpeciesName(c: Cell): string {
    Strip(FirstLine(CellStr(c)))
  }

  /** The output row of one grid row, or None for a row without a species (an empty species
      cell, or a species text that is blank). */
  function CountRow(row: Row, speciesCol: nat, cols: seq<YearCol>): (r: Option<SpeciesRow>)
    ensures r.Some? ==> |r.value.counts| == |cols|
  {
    var c := At(row, speciesCol);
    if c.Missing? then None
    else
      var name := SpeciesName(c);
      if name == "" then None
      else Some(SpeciesRow(name, seq(|cols|, k requires 0 <= k < |cols| => ParseCount(At(row, cols[k].col)))))
  }

  /** The output rows of a block of grid rows, in order. */
  function CountRows(rows: seq<Row>, speciesCol: nat, cols: seq<YearCol>): seq<SpeciesRow> {
    if rows == [] then []
    else
      var p := CountRows(rows[..|rows| - 1], speciesCol, cols);
      match CountRow(rows[|rows| - 1], speciesCol, cols)
      case None => p
      case Some(sr) => p + [sr]
  }

  /** The species column of the rows. */
  function Names(rs: seq<SpeciesRow>): (r: seq<string>)
    ensures |r| == |rs| && forall i :: 0 <= i < |rs| ==> r[i] == rs[i].species
  {
    seq(|rs|, i requires 0 <= i < |rs| => rs[i].species)
  }

  /** `out.loc[: stop_idx[0]]`: the rows up to and including the first one whose species is
      exactly `stop`, or all rows when there is none. */
  function StopAt(rs: seq<SpeciesRow>, stop: string): seq<SpeciesRow> {
    match IndexOf(Names(rs), stop)
    case None => rs
    case Some(k) => rs[..k + 1]
  }

  /** `extract_counts`: the header position and the year columns, then the rows below the
      header row with a species, cut off after the stop species. */
  function ExtractCounts(g: Grid, stop: string): (r: Result<CountsTable>)
    ensures r.Err? ==> r.error == NoSpeciesHeader || r.error == NoYearColumns
  {
    match HeaderPosOf(g)
    case Err(e) => Err(e)
    case Ok(p) =>
      match YearColumnsOf(g[p.row])
      case Err(e) => Err(e)
      case Ok(cols) => Ok(CountsTable(Years(cols), StopAt(CountRows(g[p.row + 1..], p.col, cols), stop)))
  }

  // ---------------------------------------------------------------- properties

  /** The rows of a block are the rows of its parts, in order; a single grid row gives its
      output row exactly when it has a species. */
  lemma {:induction false} CountRowsAppend(a: seq<Row>, b: seq<Row>, speciesCol: nat, cols: seq<YearCol>)
    ensures CountRows(a + b, speciesCol, cols) == CountRows(a, speciesCol, cols) + CountRows(b, speciesCol, cols)
    decreases |b|
  {
    if b == [] {
      assert a + b == a;
    } else {
      var b' := b[..|b| - 1];
      assert (a + b)[..|a + b| - 1] == a + b';
      assert (a + b)[|a + b| - 1] == b[|b| - 1];
      CountRowsAppend(a, b', speciesCol, cols);
    }
  }

  lemma CountRowsSingle(row: Row, speciesCol: nat, cols: seq<YearCol>)
    ensures CountRows([row], speciesCol, cols) ==
      if CountRow(row, speciesCol, cols).Some? then [CountRow(row, speciesCol, cols).value] else []
  {
    assert [row][..0] == [];
  }

  /** Every output row comes from a grid row of the block that has a species: its name is that
      row's stripped first line, non-empty, and its counts are `_parse_count` of that row's
      cells in the year columns. */
  lemma {:induction false} CountRowsFrom(rows: seq<Row>, speciesCol: nat, cols: seq<YearCol>, i: nat)
    requires i < |CountRows(rows, speciesCol, cols)|
    ensures exists r :: 0 <= r < |rows| && CountRow(rows[r], speciesCol, cols) == Some(CountRows(rows, speciesCol, cols)[i])
  {
    var init := rows[..|rows| - 1];
    var p := CountRows(init, speciesCol, cols);
    if i < |p| {
      CountRowsFrom(init, speciesCol, cols, i);
      var r :| 0 <= r < |init| && CountRow(init[r], speciesCol, cols) == Some(p[i]);
      assert init[r] == rows[r];
    } else {
      assert CountRow(rows[|rows| - 1], speciesCol, cols) == Some(CountRows(rows, speciesCol, cols)[i]);
    }
  }

  /** What a kept row holds. */
  lemma CountRowSpec(row: Row, speciesCol: nat, cols: seq<YearCol>)
    ensures CountRow(row, speciesCol, cols).Some? <==>
      At(row, speciesCol) != Missing && SpeciesName(At(row, speciesCol)) != ""
    ensures CountRow(row, speciesCol, cols).Some? ==>
      var sr := CountRow(row, speciesCol, cols).value;
      && sr.species == SpeciesName(At(row, speciesCol))
      && |sr.counts| == |cols|
      && forall k :: 0 <= k < |cols| ==> sr.counts[k] == ParseCount(At(row, cols[k].col))
  {
  }

  /** A species name is trimmed and holds no newline. */
  lemma SpeciesNameShape(c: Cell)
    ensures var n := SpeciesName(c);
      (n == [] || (!IsSpace(n[0]) && !IsSpace(n[|n| - 1]))) && forall i :: 0 <= i < |n| ==> n[i] != '\n'
  {
    var f := FirstLine(CellStr(c));
    StripEnds(f);
    StripSlice(f);
  }

  /** Stripping keeps a contiguous part of the text. */
  lemma StripSlice(s: string)
    ensures exists i, j :: 0 <= i <= j <= |s| && Strip(s) == s[i..j]
  {
    var l := LStrip(s);
    LStripSplit(s);
    RStripSplit(l);
    var i := |s| - |l|;
    assert Strip(s) == l[..|Strip(s)|];
    assert l[..|Strip(s)|] == s[i..i + |Strip(s)|];
  }

  /** The common name of a cell `common\nscientific` is `common` stripped. */
  lemma SpeciesNameOf(c: Cell, common: string, rest: string)
    requires '\n' !in common
    requires c == Text(common + "\n" + rest)
    ensures SpeciesName(c) == Strip(common)
  {
    FirstLineOf(common, rest);
  }

  lemma {:induction false} FirstLineOf(common: string, rest: string)
    requires '\n' !in common
    ensures FirstLine(common + "\n" + rest) == common
  {
    var s := common + "\n" + rest;
    if common == [] {
      assert s[0] == '\n';
    } else {
      assert s[0] == common[0];
      assert s[1..] == common[1..] + "\n" + rest;
      FirstLineOf(common[1..], rest);
    }
  }

  /** The cut-off keeps a prefix of the rows; when some row has the stop species, the result
      ends with the first such row and no earlier row has it; otherwise every row is kept. */
  lemma StopAtSpec(rs: seq<SpeciesRow>, stop: string)
    ensures var out := StopAt(rs, stop);
      |out| <= |rs| && out == rs[..|out|]
    ensures (exists i :: 0 <= i < |rs| && rs[i].species == stop) ==>
      var out := StopAt(rs, stop);
      && |out| > 0 && out[|out| - 1].species == stop
      && forall i :: 0 <= i < |out| - 1 ==> out[i].species != stop
    ensures (forall i :: 0 <= i < |rs| ==> rs[i].species != stop) ==> StopAt(rs, stop) == rs
  {
    var names := Names(rs);
    match IndexOf(names, stop)
    case None =>
      assert rs[..|rs|] == rs;
      forall i | 0 <= i < |rs|
        ensures rs[i].species != stop
      {
        assert names[i] in names;
      }
    case Some(k) =>
      var out := rs[..k + 1];
      assert out[k].species == names[k];
      forall i | 0 <= i < k
        ensures out[i].species != stop
      {
        assert out[i].species == names[i];
      }
  }

  /** Whether a grid row has a species: its species cell is present and its name not blank. */
  function HasSpecies(speciesCol: nat): Row -> bool {
    (row: Row) => At(row, speciesCol) != Missing && SpeciesName(At(row, speciesCol)) != ""
  }

  /** `rows` are, in order, the readings of the rows of `block` that have a species, up to and
      including the first one whose species is `stop`, or all of them when none is: only the
      last may have the stop species, and they stop short of the last row with a species only
      at one that has it. */
  predicate CutOf(block: seq<Row>, speciesCol: nat, cols: seq<YearCol>, stop: string, rows: seq<SpeciesRow>) {
    var sp := Positions(block, HasSpecies(speciesCol));
    && |rows| <= |sp|
    && (forall k :: 0 <= k < |rows| ==> RowOf(block[sp[k]], speciesCol, cols, rows[k]))
    && (forall k :: 0 <= k < |rows| - 1 ==> rows[k].species != stop)
    && (|rows| == |sp| || (|rows| > 0 && rows[|rows| - 1].species == stop))
  }

  /** `extract_counts` fails exactly when there is no species header or the header row has no
      year cell. Otherwise the count columns are the year columns of the header row, in order,
      and the rows are, in order, the readings of the rows below the header that have a
      species, up to and including the first one whose species is the stop species, or all of
      them when none is. */
  lemma ExtractCountsSpec(g: Grid, stop: string)
    ensures HeaderPosOf(g).Err? ==> ExtractCounts(g, stop) == Err(NoSpeciesHeader)
    ensures HeaderPosOf(g).Ok? && YearColumnsOf(g[HeaderPosOf(g).value.row]).Err? ==>
      ExtractCounts(g, stop) == Err(NoYearColumns)
    ensures HeaderPosOf(g).Ok? && YearColumnsOf(g[HeaderPosOf(g).value.row]).Ok? ==>
      var p := HeaderPosOf(g).value;
      ExtractCounts(g, stop).Ok? &&
      TableBelow(g, p, YearColumnsOf(g[p.row]).value, stop, ExtractCounts(g, stop).value)
  {
    ExtractCountsTable(g, stop);
    if HeaderPosOf(g).Ok? && YearColumnsOf(g[HeaderPosOf(g).value.row]).Ok? {
      ExtractCountsCut(g, stop);
    }
  }

  /** `t` is the table under the header at `p` whose year columns are `cols`: its years are
      theirs, in order, and its rows are the cut-off readings of the rows below the header. */
  predicate TableBelow(g: Grid, p: Pos, cols: seq<YearCol>, stop: string, t: CountsTable) {
    && p.row < |g|
    && t.years == Years(cols)
    && CutOf(g[p.row + 1..], p.col, cols, stop, t.rows)
  }

  /** The success case of `ExtractCountsSpec`. */
  lemma ExtractCountsCut(g: Grid, stop: string)
    requires HeaderPosOf(g).Ok? && YearColumnsOf(g[HeaderPosOf(g).value.row]).Ok?
    ensures var p := HeaderPosOf(g).value;
      ExtractCounts(g, stop).Ok? &&
      TableBelow(g, p, YearColumnsOf(g[p.row]).value, stop, ExtractCounts(g, stop).value)
  {
    ExtractCountsTable(g, stop);
    var p := HeaderPosOf(g).value;
    TableBelowOf(g, p, YearColumnsOf(g[p.row]).value, stop, ExtractCounts(g, stop).value);
  }

  lemma TableBelowOf(g: Grid, p: Pos, cols: seq<YearCol>, stop: string, t: CountsTable)
    requires p.row < |g| && t.years == Years(cols)
    requires t.rows == StopAt(CountRows(g[p.row + 1..], p.col, cols), stop)
    ensures TableBelow(g, p, cols, stop, t)
  {
    RowsCut(g[p.row + 1..], p.col, cols, stop, t.rows);
  }

  /** The cut-off rows of a block, position by position. */
  lemma RowsCut(block: seq<Row>, speciesCol: nat, cols: seq<YearCol>, stop: string, rows: seq<SpeciesRow>)
    requires rows == StopAt(CountRows(block, speciesCol, cols), stop)
    ensures CutOf(block, speciesCol, cols, stop, rows)
  {
    var all := CountRows(block, speciesCol, cols);
    CountRowsAt(block, speciesCol, cols);
    StopAtShape(all, stop);
    CutOfPrefix(block, speciesCol, cols, stop, all, rows);
  }

  /** A prefix of the readings of all rows with a species that ends as the cut does is the cut. */
  lemma CutOfPrefix(block: seq<Row>, speciesCol: nat, cols: seq<YearCol>, stop: string,
                    all: seq<SpeciesRow>, rows: seq<SpeciesRow>)
    requires var sp := Positions(block, HasSpecies(speciesCol));
      |all| == |sp| && forall k :: 0 <= k < |sp| ==> RowOf(block[sp[k]], speciesCol, cols, all[k])
    requires |rows| <= |all| && rows == all[..|rows|]
    requires forall k :: 0 <= k < |rows| - 1 ==> rows[k].species != stop
    requires |rows| == |all| || (|rows| > 0 && rows[|rows| - 1].species == stop)
    ensures CutOf(block, speciesCol, cols, stop, rows)
  {
    assert forall k :: 0 <= k < |rows| ==> rows[k] == all[k];
  }

  /** The table is the year columns and the cut-off rows below the header. */
  lemma ExtractCountsTable(g: Grid, stop: string)
    ensures HeaderPosOf(g).Err? ==> ExtractCounts(g, stop) == Err(NoSpeciesHeader)
    ensures HeaderPosOf(g).Ok? && YearColumnsOf(g[HeaderPosOf(g).value.row]).Err? ==>
      ExtractCounts(g, stop) == Err(NoYearColumns)
    ensures HeaderPosOf(g).Ok? && YearColumnsOf(g[HeaderPosOf(g).value.row]).Ok? ==>
      var p := HeaderPosOf(g).value;
      var cols := YearColumnsOf(g[p.row]).value;
      var t := ExtractCounts(g, stop).value;
      && t.years == Years(cols)
      && t.rows == StopAt(CountRows(g[p.row + 1..], p.col, cols), stop)
  {
    if HeaderPosOf(g).Ok? {
      var p := HeaderPosOf(g).value;
      YearColumnsErrOf(g[p.row]);
    }
  }

  /** The rows of a block are the readings of its rows that have a species, one each, in order. */
  lemma {:induction false} CountRowsAt(block: seq<Row>, speciesCol: nat, cols: seq<YearCol>)
    ensures var sp := Positions(block, HasSpecies(speciesCol));
      var out := CountRows(block, speciesCol, cols);
      |out| == |sp| && forall k :: 0 <= k < |sp| ==> RowOf(block[sp[k]], speciesCol, cols, out[k])
    decreases |block|
  {
    if block != [] {
      var init := block[..|block| - 1];
      var last := block[|block| - 1];
      assert block == init + [last];
      CountRowsAt(init, speciesCol, cols);
      PositionsSnoc(init, last, HasSpecies(speciesCol));
      CountRowSpec(last, speciesCol, cols);
      var sp0 := Positions(init, HasSpecies(speciesCol));
      var sp := Positions(block, HasSpecies(speciesCol));
      var out0 := CountRows(init, speciesCol, cols);
      var out := CountRows(block, speciesCol, cols);
      forall k | 0 <= k < |sp0|
        ensures sp[k] == sp0[k] && out[k] == out0[k] && block[sp[k]] == init[sp0[k]]
      {
      }
      if CountRow(last, speciesCol, cols).Some? {
        CountRowOf(last, speciesCol, cols, CountRow(last, speciesCol, cols).value);
      }
    }
  }

  /** The cut-off keeps a prefix in which only the last row may have the stop species, and it
      stops short of the end only at a row that has it. */
  lemma StopAtShape(rs: seq<SpeciesRow>, stop: string)
    ensures var out := StopAt(rs, stop);
      && |out| <= |rs| && out == rs[..|out|]
      && (forall k :: 0 <= k < |out| - 1 ==> out[k].species != stop)
      && (|out| == |rs| || (|out| > 0 && out[|out| - 1].species == stop))
  {
    StopAtSpec(rs, stop);
    var out := StopAt(rs, stop);
    if !exists i :: 0 <= i < |rs| && rs[i].species == stop {
      assert out == rs;
    }
  }

  lemma YearColumnsErrOf(row: Row)
    ensures YearColumnsOf(row).Err? ==> YearColumnsOf(row).error == NoYearColumns
  {
  }

  /** Output row `sr` is what grid row `row` gives: the species cell is present, the name is
      its stripped first line and non-empty, and there is one count per year column, the
      parsed cell of that column. */
  predicate RowOf(row: Row, speciesCol: nat, cols: seq<YearCol>, sr: SpeciesRow) {
    && At(row, speciesCol) != Missing
    && sr.species == SpeciesName(At(row, speciesCol)) && sr.species != ""
    && |sr.counts| == |cols|
    && forall k :: 0 <= k < |cols| ==> sr.counts[k] == ParseCount(At(row, cols[k].col))
  }

  lemma CountRowOf(row: Row, speciesCol: nat, cols: seq<YearCol>, sr: SpeciesRow)
    requires CountRow(row, speciesCol, cols) == Some(sr)
    ensures RowOf(row, speciesCol, cols, sr)
  {
  }

  lemma CountRowsRowOf(block: seq<Row>, speciesCol: nat, cols: seq<YearCol>, i: nat)
    requires i < |CountRows(block, speciesCol, cols)|
    ensures exists r :: 0 <= r < |block| && RowOf(block[r], speciesCol, cols, CountRows(block, speciesCol, cols)[i])
  {
    CountRowsFrom(block, speciesCol, cols, i);
    var r :| 0 <= r < |block| && CountRow(block[r], speciesCol, cols) == Some(CountRows(block, speciesCol, cols)[i]);
    CountRowOf(block[r], speciesCol, cols, CountRows(block, speciesCol, cols)[i]);
  }

  /** Every row cut from a block starting at `start` comes from a row at or after `start`. */
  lemma RowsBelow(g: Grid, start: nat, speciesCol: nat, cols: seq<YearCol>, stop: string, out: seq<SpeciesRow>, i: nat)
    requires start <= |g| && out == StopAt(CountRows(g[start..], speciesCol, cols), stop) && i < |out|
    ensures exists r :: start <= r < |g| && RowOf(g[r], speciesCol, cols, out[i])
  {
    var block := g[start..];
    var all := CountRows(block, speciesCol, cols);
    StopAtSpec(all, stop);
    assert out[i] == all[i];
    CountRowsRowOf(block, speciesCol, cols, i);
    var r :| 0 <= r < |block| && RowOf(block[r], speciesCol, cols, out[i]);
    assert block[r] == g[start + r];
  }

  /** Every row of the count table comes from a row below the species header, as `RowOf`
      describes. */
  lemma ExtractCountsRows(g: Grid, stop: string, i: nat)
    requires ExtractCounts(g, stop).Ok? && i < |ExtractCounts(g, stop).value.rows|
    ensures var p := HeaderPosOf(g).value;
      var cols := YearColumnsOf(g[p.row]).value;
      exists r :: p.row < r < |g| && RowOf(g[r], p.col, cols, ExtractCounts(g, stop).value.rows[i])
  {
    var p := HeaderPosOf(g).value;
    var cols := YearColumnsOf(g[p.row]).value;
    ExtractCountsTable(g, stop);
    RowsBelow(g, p.row + 1, p.col, cols, stop, ExtractCounts(g, stop).value.rows, i);
  }
}
