/**
 * The species header row and its year columns (`YEAR_RE`, `_year_columns`);
 * reading the rich year cells' metadata is in module Metadata.
 */
module Headers {
  import opened Strings
  import opened Results
  import opened Cells
  import opened Sheet
  import opened Dedup

  // ---------------------------------------------------------------- years

  /** The text starts with `19\d{2}` or `20\d{2}`. */
  predicate YearDigitsAt(t: string) {
    |t| >= 4 && ((t[0] == '1' && t[1] == '9') || (t[0] == '2' && t[1] == '0')) &&
    IsDigit(t[2]) && IsDigit(t[3])
  }

  /** `int()` of the four year digits. */
  function YearValue(t: string): (y: nat)
    requires YearDigitsAt(t)
    ensures 1900 <= y <= 2099
  {
    DigitValue(t[0]) * 1000 + DigitValue(t[1]) * 100 + DigitValue(t[2]) * 10 + DigitValue(t[3])
  }

  /** `YEAR_RE.match(s)`, i.e. `\s*(19\d{2}|20\d{2})\b`: the year a cell text starts with,
      after optional whitespace, provided the four digits are not followed by a word character. */
  function YearAtStart(s: string): (r: Option<nat>)
    ensures r.Some? ==> 1900 <= r.value <= 2099
  {
    var t := LStrip(s);
    if YearDigitsAt(t) && (|t| == 4 || !IsWordChar(t[4])) then Some(YearValue(t)) else None
  }

  /** The whole of `s` is whitespace `w`, four year digits `yd` and a `tail` that does not
      continue the word. */
  predicate YearForm(s: string, w: string, yd: string, tail: string) {
    && AllSpace(w) && |yd| == 4 && YearDigitsAt(yd)
    && (tail == [] || !IsWordChar(tail[0]))
    && s == w + yd + tail
  }

  lemma YearAllDigits(yd: string)
    requires |yd| == 4 && YearDigitsAt(yd)
    ensures AllDigits(yd)
  {
    assert forall i :: 0 <= i < 4 ==> IsDigit(yd[i]);
  }

  /** Four year digits start a text with that year, the rest following them. */
  lemma YearPrefixOf(yd: string, v: string)
    requires |yd| == 4 && YearDigitsAt(yd)
    ensures var t := yd + v;
      YearDigitsAt(t) && YearValue(t) == YearValue(yd) && t[4..] == v && IsDigit(t[0])
  {
    var t := yd + v;
    assert t[0] == yd[0] && t[1] == yd[1] && t[2] == yd[2] && t[3] == yd[3];
    assert t[4..] == v;
  }

  lemma YearAtStartOfText(t: string, y: nat)
    requires LStrip(t) == t && YearDigitsAt(t) && YearValue(t) == y
    requires |t| == 4 || !IsWordChar(t[4])
    ensures YearAtStart(t) == Some(y)
  {
  }

  /** A cell text made of whitespace, four year digits and anything that does not continue the
      word is recognised as the year those digits spell. */
  lemma YearAtStartOf(s: string, w: string, yd: string, tail: string)
    requires YearForm(s, w, yd, tail)
    ensures YearAtStart(s) == Some(YearValue(yd))
  {
    var t := yd + tail;
    assert s == w + t;
    YearPrefixOf(yd, tail);
    LStripPastSpace(w, t);
    assert LStrip(t) == t by {
      LStripPastSpace([], t);
      assert [] + t == t;
    }
    YearAtStartOfText(t, YearValue(yd));
    LStripPastSpaceAll(w, t);
  }

  /** Conversely, a text is recognised as a year only when it has that form, and the year is
      the one its four digits spell. */
  lemma YearAtStartShape(s: string)
    requires YearAtStart(s).Some?
    ensures exists w, yd, tail :: YearForm(s, w, yd, tail) && YearValue(yd) == YearAtStart(s).value
  {
    var t := LStrip(s);
    var w := SpaceBefore(s, t);
    var yd := t[..4];
    var tail := t[4..];
    assert t == yd + tail;
    Assoc(w, yd, tail);
    assert yd[0] == t[0] && yd[1] == t[1] && yd[2] == t[2] && yd[3] == t[3];
    assert YearForm(s, w, yd, tail);
  }

  /** A year run into further digits or letters is not a year: the word must end after four digits. */
  lemma YearNeedsBoundary(yd: string, c: char, tail: string)
    requires |yd| == 4 && YearDigitsAt(yd) && IsWordChar(c)
    ensures YearAtStart(yd + [c] + tail) == None
  {
    var t := yd + [c] + tail;
    assert t == yd + ([c] + tail);
    YearPrefixOf(yd, [c] + tail);
    LStripPastSpace([], t);
    assert [] + t == t;
    assert t[4] == c;
  }

  /** A year column of the header row: its column index and the year its cell starts with. */
  datatype YearCol = YearCol(col: nat, year: nat)

  function YearKey(c: YearCol): nat {
    c.year
  }

  /** The years of a list of year columns, in order. */
  function Years(cols: seq<YearCol>): (ys: seq<nat>)
    ensures |ys| == |cols| && forall i :: 0 <= i < |cols| ==> ys[i] == cols[i].year
  {
    seq(|cols|, i requires 0 <= i < |cols| => cols[i].year)
  }

  /** `YEAR_RE.match(str(cell))` for each cell of the header row, in column order. */
  function CellYears(row: Row): (ys: seq<Option<nat>>)
    ensures |ys| == |row|
  {
    seq(|row|, j requires 0 <= j < |row| => YearAtStart(CellStr(row[j])))
  }

  /** The first loop of `_year_columns`: every column whose cell starts with a year, in column
      order, with that year (`ys[j]` is the year cell `j` starts with, if any). */
  function Candidates(ys: seq<Option<nat>>): (r: seq<YearCol>)
    ensures forall i :: 0 <= i < |r| ==> r[i].col < |ys| && ys[r[i].col] == Some(r[i].year)
    ensures forall i, j :: 0 <= i < j < |r| ==> r[i].col < r[j].col
    ensures forall j :: 0 <= j < |ys| && ys[j].Some? ==> YearCol(j, ys[j].value) in r
  {
    if ys == [] then []
    else
      var init := ys[..|ys| - 1];
      var p := Candidates(init);
      assert forall j :: 0 <= j < |init| ==> init[j] == ys[j];
      match ys[|ys| - 1]
      case None => p
      case Some(y) => p + [YearCol(|ys| - 1, y)]
  }

  /** The year columns of a row whose cells start with the years `ys`. */
  function YearColumnsFrom(ys: seq<Option<nat>>): (r: Result<seq<YearCol>>)
    ensures r.Err? ==> r.error == NoYearColumns
  {
    var cands := Candidates(ys);
    if cands == [] then Err(NoYearColumns) else Ok(KeepFirst(cands, YearKey))
  }

  /** `_year_columns`: the year columns with each year's first column only; no year cell at all
      is an error. */
  function YearColumnsOf(row: Row): Result<seq<YearCol>> {
    YearColumnsFrom(CellYears(row))
  }

  /** `_year_columns`: collects the year columns, then keeps the first column of each year. */
  method YearColumns(row: Row) returns (r: Result<seq<YearCol>>)
    ensures r == YearColumnsOf(row)
  {
    ghost var ys := CellYears(row);
    var cols: seq<YearCol> := [];
    var j := 0;
    while j < |row|
      invariant 0 <= j <= |row|
      invariant cols == Candidates(ys[..j])
    {
      assert ys[..j + 1][..j] == ys[..j];
      var m := YearAtStart(CellStr(row[j]));
      assert ys[..j + 1][j] == m;
      if m.Some? {
        cols := cols + [YearCol(j, m.value)];
      }
      j := j + 1;
    }
    assert ys[..j] == ys;
    if cols == [] {
      return Err(NoYearColumns);
    }
    var out := KeepFirstYears(cols);
    return Ok(out);
  }

  /** The second loop of `_year_columns`: a `seen` set of years, and each column appended when
      its year is new. */
  method KeepFirstYears(cols: seq<YearCol>) returns (out: seq<YearCol>)
    ensures out == KeepFirst(cols, YearKey)
  {
    var seen: set<nat> := {};
    out := [];
    var k := 0;
    while k < |cols|
      invariant 0 <= k <= |cols|
      invariant out == KeepFirst(cols[..k], YearKey)
      invariant seen == Keys(cols[..k], YearKey)
    {
      assert cols[..k + 1][..k] == cols[..k] && cols[..k + 1] == cols[..k] + [cols[k]];
      KeysSnoc(cols[..k], cols[k], YearKey);
      var c := cols[k];
      if c.year !in seen {
        out := out + [c];
        seen := seen + {c.year};
      }
      k := k + 1;
    }
    assert cols[..k] == cols;
  }

  /** Each year column found holds a cell that starts with its year. */
  lemma YearColumnsCells(ys: seq<Option<nat>>)
    requires YearColumnsFrom(ys).Ok?
    ensures var cols := YearColumnsFrom(ys).value;
      |cols| > 0 && forall i :: 0 <= i < |cols| ==> cols[i].col < |ys| && ys[cols[i].col] == Some(cols[i].year)
  {
    var cands := Candidates(ys);
    var cols := KeepFirst(cands, YearKey);
    forall i | 0 <= i < |cols|
      ensures cols[i].col < |ys| && ys[cols[i].col] == Some(cols[i].year)
    {
      assert cols[i] in cands;
    }
  }

  /** The year columns found are in increasing column order and their years are distinct. */
  lemma YearColumnsOrdered(ys: seq<Option<nat>>)
    requires YearColumnsFrom(ys).Ok?
    ensures var cols := YearColumnsFrom(ys).value;
      forall i, j :: 0 <= i < j < |cols| ==> cols[i].col < cols[j].col && cols[i].year != cols[j].year
  {
    var cands := Candidates(ys);
    var cols := KeepFirst(cands, YearKey);
    forall i, j | 0 <= i < j < |cols|
      ensures cols[i].col < cols[j].col && cols[i].year != cols[j].year
    {
      KeptInOrder(cands, YearKey, i, j);
      KeptIsFirst(cands, YearKey, i);
      KeptIsFirst(cands, YearKey, j);
      assert YearKey(cols[i]) != YearKey(cols[j]);
    }
  }

  /** Each year column found is the first column of its year. */
  lemma YearColumnsFirst(ys: seq<Option<nat>>)
    requires YearColumnsFrom(ys).Ok?
    ensures var cols := YearColumnsFrom(ys).value;
      forall i, j :: 0 <= i < |cols| && 0 <= j < cols[i].col ==> ys[j] != Some(cols[i].year)
  {
    var cols := KeepFirst(Candidates(ys), YearKey);
    forall i, j | 0 <= i < |cols| && 0 <= j < cols[i].col
      ensures ys[j] != Some(cols[i].year)
    {
      FirstYearColumn(ys, cols, i, j);
    }
  }

  /** Every year some cell starts with is among the years found. */
  lemma YearColumnsComplete(ys: seq<Option<nat>>)
    requires YearColumnsFrom(ys).Ok?
    ensures var cols := YearColumnsFrom(ys).value;
      forall j :: 0 <= j < |ys| && ys[j].Some? ==> ys[j].value in Years(cols)
  {
    var cands := Candidates(ys);
    var cols := KeepFirst(cands, YearKey);
    forall j | 0 <= j < |ys| && ys[j].Some?
      ensures ys[j].value in Years(cols)
    {
      YearFound(ys, j);
    }
  }

  lemma YearFound(ys: seq<Option<nat>>, j: nat)
    requires j < |ys| && ys[j].Some?
    ensures ys[j].value in Years(KeepFirst(Candidates(ys), YearKey))
  {
    var cands := Candidates(ys);
    var cols := KeepFirst(cands, YearKey);
    var y := ys[j].value;
    KeyKept(cands, YearKey, YearCol(j, y));
    var q :| 0 <= q < |cols| && YearKey(cols[q]) == y;
    assert Years(cols)[q] == y;
  }

  /** `_year_columns` fails exactly when no cell of the row starts with a year. */
  lemma YearColumnsErr(ys: seq<Option<nat>>)
    ensures YearColumnsFrom(ys).Err? <==> forall j :: 0 <= j < |ys| ==> ys[j].None?
  {
    var cands := Candidates(ys);
    if cands != [] {
      assert cands[0].col < |ys| && ys[cands[0].col].Some?;
    }
  }

  /** A kept year column is the first column of its year. */
  lemma FirstYearColumn(ys: seq<Option<nat>>, cols: seq<YearCol>, i: nat, j: nat)
    requires cols == KeepFirst(Candidates(ys), YearKey)
    requires i < |cols| && j < cols[i].col
    ensures ys[j] != Some(cols[i].year)
  {
    var cands := Candidates(ys);
    KeepFirstSpec(cands, YearKey);
    assert cols[i] in cands;
    var k := FirstIndexOf(cands, YearKey(cols[i]), YearKey);
  }
}
