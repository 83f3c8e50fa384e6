/**
 * The sheet as read with `header=None`: a grid of cells addressed by row and
 * column, and the scanners that locate the labelled header rows in it.
 */
module Sheet {
  import opened Strings
  import opened Results
  import opened Cells

  type Row = seq<Cell>
  type Grid = seq<Row>

  /** A cell position: row index and column index. */
  datatype Pos = Pos(row: nat, col: nat)

  /** `df.iat[r, j]`: the cell of a row at column `j`; a row holds empty cells past its end. */
  function At(row: Row, j: nat): Cell {
    if j < |row| then row[j] else Missing
  }

  /** `df.iloc[i].astype(str).str.strip().tolist()`: the stripped texts of a row's cells. */
  function StrippedRow(row: Row): (r: seq<string>)
    ensures |r| == |row| && forall j :: 0 <= j < |row| ==> r[j] == Stripped(row[j])
  {
    seq(|row|, j requires 0 <= j < |row| => Stripped(row[j]))
  }

  /** `xs.index(x)`: the first position holding `x`, or None when `x` does not occur. */
  function IndexOf(xs: seq<string>, x: string): (r: Option<nat>)
    ensures r.Some? ==> r.value < |xs| && xs[r.value] == x
    ensures r.Some? ==> forall j :: 0 <= j < r.value ==> xs[j] != x
    ensures r.None? <==> x !in xs
  {
    if xs == [] then None
    else if xs[0] == x then Some(0)
    else Shift(IndexOf(xs[1..], x), 1)
  }

  /** Whether some cell of the row has stripped text `name`: `name in row`. */
  predicate Holds(row: Row, name: string) {
    name in StrippedRow(row)
  }

  /** The column of a row whose stripped text is `name`: `header.index(name)`. */
  function ColumnOf(row: Row, name: string): Option<nat> {
    IndexOf(StrippedRow(row), name)
  }

  /** The first row among whose stripped cell texts `name` occurs. */
  function FirstRowWith(g: Grid, name: string): (r: Option<nat>)
    ensures r.Some? ==> r.value < |g| && Holds(g[r.value], name)
    ensures r.Some? ==> forall i :: 0 <= i < r.value ==> !Holds(g[i], name)
    ensures r.None? ==> forall i :: 0 <= i < |g| ==> !Holds(g[i], name)
  {
    if g == [] then None
    else if Holds(g[0], name) then Some(0)
    else Shift(FirstRowWith(g[1..], name), 1)
  }

  /** `_find_header`: where the first cell (in row-major order) reading exactly "Species" is. */
  function HeaderPosOf(g: Grid): (r: Result<Pos>)
    ensures r.Err? ==> r.error == NoSpeciesHeader
  {
    match FirstRowWith(g, "Species")
    case None => Err(NoSpeciesHeader)
    case Some(i) => Ok(Pos(i, ColumnOf(g[i], "Species").value))
  }

  /** `_find_row_with_cell`: the first row with a cell whose stripped text is `exact` stripped. */
  function RowWithCellOf(g: Grid, exact: string): (r: Result<nat>)
    ensures r.Err? ==> r.error == NoRowWithCell(exact)
  {
    match FirstRowWith(g, Strip(exact))
    case None => Err(NoRowWithCell(exact))
    case Some(i) => Ok(i)
  }

  /** The header position is the first "Species" cell: its row is the first row holding one,
      its column the first such column in that row; and it is absent only when no cell reads
      "Species". */
  lemma HeaderPosSpec(g: Grid)
    ensures HeaderPosOf(g).Ok? ==>
      var p := HeaderPosOf(g).value;
      && p.row < |g| && p.col < |g[p.row]| && Stripped(g[p.row][p.col]) == "Species"
      && (forall i, j :: 0 <= i < p.row && 0 <= j < |g[i]| ==> Stripped(g[i][j]) != "Species")
      && (forall j :: 0 <= j < p.col ==> Stripped(g[p.row][j]) != "Species")
    ensures HeaderPosOf(g).Err? <==>
      forall i, j :: 0 <= i < |g| && 0 <= j < |g[i]| ==> Stripped(g[i][j]) != "Species"
  {
    if HeaderPosOf(g).Err? {
      forall i, j | 0 <= i < |g| && 0 <= j < |g[i]|
        ensures Stripped(g[i][j]) != "Species"
      {
        assert StrippedRow(g[i])[j] == Stripped(g[i][j]);
      }
    } else {
      var p := HeaderPosOf(g).value;
      forall i, j | 0 <= i < p.row && 0 <= j < |g[i]|
        ensures Stripped(g[i][j]) != "Species"
      {
        assert StrippedRow(g[i])[j] == Stripped(g[i][j]);
      }
      assert StrippedRow(g[p.row])[p.col] == "Species";
    }
  }

  /** `header.index(name)`: the column found holds `name` and no earlier column does; there
      is none only when no column holds it. */
  lemma ColumnOfSpec(row: Row, name: string)
    ensures ColumnOf(row, name).Some? ==>
      var j := ColumnOf(row, name).value;
      && j < |row| && Stripped(row[j]) == name
      && forall k :: 0 <= k < j ==> Stripped(row[k]) != name
    ensures ColumnOf(row, name).None? <==> forall k :: 0 <= k < |row| ==> Stripped(row[k]) != name
  {
    var sr := StrippedRow(row);
    if ColumnOf(row, name).None? {
      forall k | 0 <= k < |row|
        ensures Stripped(row[k]) != name
      {
        assert sr[k] == Stripped(row[k]);
      }
    } else {
      var j := ColumnOf(row, name).value;
      forall k | 0 <= k < j
        ensures Stripped(row[k]) != name
      {
        assert sr[k] == Stripped(row[k]);
      }
    }
  }

  /** The row found for a label is the first row having a cell that strips to the stripped
      label, and none is found only when no cell does. */
  lemma RowWithCellSpec(g: Grid, exact: string)
    ensures RowWithCellOf(g, exact).Ok? ==>
      var i := RowWithCellOf(g, exact).value;
      && i < |g| && (exists j :: 0 <= j < |g[i]| && Stripped(g[i][j]) == Strip(exact))
      && forall k, j :: 0 <= k < i && 0 <= j < |g[k]| ==> Stripped(g[k][j]) != Strip(exact)
    ensures RowWithCellOf(g, exact).Err? <==>
      forall k, j :: 0 <= k < |g| && 0 <= j < |g[k]| ==> Stripped(g[k][j]) != Strip(exact)
  {
    var t := Strip(exact);
    forall k | 0 <= k < |g|
      ensures Holds(g[k], t) <==> exists j :: 0 <= j < |g[k]| && Stripped(g[k][j]) == t
    {
      var sr := StrippedRow(g[k]);
      if Holds(g[k], t) {
        var j :| 0 <= j < |sr| && sr[j] == t;
        assert Stripped(g[k][j]) == t;
      }
      if exists j :: 0 <= j < |g[k]| && Stripped(g[k][j]) == t {
        var j :| 0 <= j < |g[k]| && Stripped(g[k][j]) == t;
        assert sr[j] == t;
      }
    }
  }

  /** `_find_header`: scans the rows in order and, in each, the columns in order, and
      returns the first cell whose stripped text is exactly "Species". */
  method FindHeader(g: Grid) returns (r: Result<Pos>)
    ensures r == HeaderPosOf(g)
  {
    var i := 0;
    while i < |g|
      invariant 0 <= i <= |g|
      invariant forall k :: 0 <= k < i ==> !Holds(g[k], "Species")
    {
      var j := FindInRow(StrippedRow(g[i]), "Species");
      if j.Some? {
        FirstRowAt(g, "Species", i);
        return Ok(Pos(i, j.value));
      }
      i := i + 1;
    }
    return Err(NoSpeciesHeader);
  }

  /** The inner scan of `_find_header`: the columns of one row in order. */
  method FindInRow(row: seq<string>, x: string) returns (r: Option<nat>)
    ensures r == IndexOf(row, x)
  {
    var j := 0;
    while j < |row|
      invariant 0 <= j <= |row|
      invariant x !in row[..j]
    {
      if row[j] == x {
        IndexAt(row, x, j);
        return Some(j);
      }
      assert row[..j + 1] == row[..j] + [row[j]];
      j := j + 1;
    }
    assert row[..j] == row;
    return None;
  }

  /** `_find_row_with_cell`: the first row among whose stripped cell texts the stripped
      name occurs. */
  method FindRowWithCell(g: Grid, exact: string) returns (r: Result<nat>)
    ensures r == RowWithCellOf(g, exact)
  {
    var target := Strip(exact);
    var i := 0;
    while i < |g|
      invariant 0 <= i <= |g|
      invariant forall k :: 0 <= k < i ==> !Holds(g[k], target)
    {
      if Holds(g[i], target) {
        FirstRowAt(g, target, i);
        return Ok(i);
      }
      i := i + 1;
    }
    return Err(NoRowWithCell(exact));
  }

  /** A row holding `name` before which none does is the one `FirstRowWith` finds. */
  lemma FirstRowAt(g: Grid, name: string, i: nat)
    requires i < |g| && Holds(g[i], name)
    requires forall k :: 0 <= k < i ==> !Holds(g[k], name)
    ensures FirstRowWith(g, name) == Some(i)
  {
  }

  /** A position holding `x` before which `x` does not occur is the one `IndexOf` finds. */
  lemma IndexAt(xs: seq<string>, x: string, j: nat)
    requires j < |xs| && xs[j] == x && x !in xs[..j]
    ensures IndexOf(xs, x) == Some(j)
  {
  }

  /** An optional position moved `d` places on. */
  function Shift(o: Option<nat>, d: nat): Option<nat> {
    match o
    case None => None
    case Some(k) => Some(k + d)
  }
}
