/**
 * `extract_year_header_metadata`: the count index, year and count date held
 * in the rich year cells of the species header row.
 */
module Metadata {
  import opened Strings
  import opened Results
  import opened Cells
  import opened Sheet
  import opened Dedup
  import opened Headers

  /** One header cell's metadata: the count index in brackets, the year, and the count date if
      the cell gives one. */
  datatype HeaderMeta = HeaderMeta(countIndex: nat, year: nat, countDate: Option<string>)

  function IndexKey(m: HeaderMeta): nat {
    m.countIndex
  }

  // ---------------------------------------------------------------- count date

  /** `[0-9]{1,2}/` at the start of `u`: the length of the field and its slash. */
  function SlashField(u: string): (r: Option<nat>)
    ensures r.Some? ==> 2 <= r.value <= 3 && r.value <= |u|
  {
    var a := DigitPrefix(u);
    if 1 <= |a| <= 2 && |u| > |a| && u[|a|] == '/' then Some(|a| + 1) else None
  }

  /** `[0-9]{1,2}/[0-9]{1,2}/[0-9]{4}` at the start of `u`: the date text matched. */
  function DateAtStart(u: string): (r: Option<string>)
    ensures r.Some? ==> |r.value| <= |u| && r.value == u[..|r.value|]
  {
    match SlashField(u)
    case None => None
    case Some(n1) =>
      match SlashField(u[n1..])
      case None => None
      case Some(n2) =>
        if |u| >= n1 + n2 + 4 && AllDigits(u[n1 + n2..n1 + n2 + 4]) then Some(u[..n1 + n2 + 4]) else None
  }

  const CountDateLabel: string := "Count Date:"

  /** Whether the text starts with "Count Date:" followed by optional whitespace and a date. */
  function DateHere(s: string): Option<string> {
    if |s| >= |CountDateLabel| && s[..|CountDateLabel|] == CountDateLabel then
      DateAtStart(LStrip(s[|CountDateLabel|..]))
    else None
  }

  /** `re.search(r"Count Date:\s*([0-9]{1,2}/[0-9]{1,2}/[0-9]{4})", s)`: the date of the
      leftmost match, or None when there is none. */
  function FindCountDate(s: string): Option<string>
    decreases |s|
  {
    if DateHere(s).Some? then DateHere(s)
    else if s == [] then None
    else FindCountDate(s[1..])
  }

  // ---------------------------------------------------------------- header cells

  /** `re.match(r"\s*(19\d{2}|20\d{2})\s*\[(\d+)\]", s)` with the count date searched in the
      whole cell: None when the cell does not start with a year and a bracketed index. */
  function ParseHeaderCell(s: string): (r: Option<HeaderMeta>)
    ensures r.Some? ==> 1900 <= r.value.year <= 2099
  {
    var t := LStrip(s);
    if !YearDigitsAt(t) then None
    else
      var u := LStrip(t[4..]);
      if |u| == 0 || u[0] != '[' then None
      else
        var d := DigitPrefix(u[1..]);
        if |d| == 0 || |u| < |d| + 2 || u[|d| + 1] != ']' then None
        else Some(HeaderMeta(DigitsValue(d), YearValue(t), FindCountDate(s)))
  }

  /** `df.iloc[header_row].astype(str).tolist()` */
  function HeaderTexts(row: Row): (r: seq<string>)
    ensures |r| == |row|
  {
    seq(|row|, j requires 0 <= j < |row| => CellStr(row[j]))
  }

  /** The metadata records of the header cells that parse, in column order. */
  function Records(texts: seq<string>): seq<HeaderMeta> {
    if texts == [] then []
    else
      var p := Records(texts[..|texts| - 1]);
      match ParseHeaderCell(texts[|texts| - 1])
      case None => p
      case Some(m) => p + [m]
  }

  /** `extract_year_header_metadata`: the records of the species header row, the first one of
      each count index kept. Without a header row it fails as `_find_header` does; when no
      header cell parses, the empty table has no CountIndex column and de-duplication fails. */
  function HeaderMetadataOf(g: Grid): (r: Result<seq<HeaderMeta>>)
    ensures r.Err? ==> r.error == NoSpeciesHeader || r.error == NoCountIndexColumn
  {
    match HeaderPosOf(g)
    case Err(e) => Err(e)
    case Ok(p) =>
      var recs := Records(HeaderTexts(g[p.row]));
      if recs == [] then Err(NoCountIndexColumn) else Ok(KeepFirst(recs, IndexKey))
  }

  /** `extract_year_header_metadata`: finds the header row, parses its cells in order, then
      drops later records of a count index already seen. */
  method YearHeaderMetadata(g: Grid) returns (r: Result<seq<HeaderMeta>>)
    ensures r == HeaderMetadataOf(g)
  {
    var hp := FindHeader(g);
    if hp.Err? {
      return Err(hp.error);
    }
    var cells := g[hp.value.row];
    ghost var texts := HeaderTexts(cells);
    var rows: seq<HeaderMeta> := [];
    var k := 0;
    while k < |cells|
      invariant 0 <= k <= |cells|
      invariant rows == Records(texts[..k])
    {
      assert texts[..k + 1][..k] == texts[..k];
      var m := ParseHeaderCell(CellStr(cells[k]));
      assert texts[..k + 1][k] == CellStr(cells[k]);
      if m.Some? {
        rows := rows + [m.value];
      }
      k := k + 1;
    }
    assert texts[..k] == texts;
    if rows == [] {
      return Err(NoCountIndexColumn);
    }
    return Ok(KeepFirst(rows, IndexKey));
  }

  // ---------------------------------------------------------------- properties

  /** The records are those of the cells that parse, in column order: `Records` distributes
      over concatenation and keeps a single cell's record exactly when the cell parses. */
  lemma {:induction false} RecordsAppend(a: seq<string>, b: seq<string>)
    ensures Records(a + b) == Records(a) + Records(b)
    decreases |b|
  {
    if b == [] {
      assert a + b == a;
    } else {
      var b' := b[..|b| - 1];
      assert (a + b)[..|a + b| - 1] == a + b';
      assert (a + b)[|a + b| - 1] == b[|b| - 1];
      RecordsAppend(a, b');
    }
  }

  lemma RecordsSingle(s: string)
    ensures Records([s]) == if ParseHeaderCell(s).Some? then [ParseHeaderCell(s).value] else []
  {
    assert [s][..0] == [];
  }

  /** Keeping the first record of each count index leaves one record per count index, each
      the first record of that index, and loses no count index. */
  lemma KeepFirstIndex(recs: seq<HeaderMeta>)
    ensures var ms := KeepFirst(recs, IndexKey);
      && |ms| <= |recs|
      && (forall i, j :: 0 <= i < j < |ms| ==> ms[i].countIndex != ms[j].countIndex)
      && Keys(ms, IndexKey) == Keys(recs, IndexKey)
      && (forall i :: 0 <= i < |ms| ==>
            ms[i].countIndex in Keys(recs, IndexKey) && ms[i] == recs[FirstIndexOf(recs, ms[i].countIndex, IndexKey)])
  {
    var ms := KeepFirst(recs, IndexKey);
    KeepFirstSpec(recs, IndexKey);
    forall i, j | 0 <= i < j < |ms|
      ensures ms[i].countIndex != ms[j].countIndex
    {
      assert IndexKey(ms[i]) != IndexKey(ms[j]);
    }
  }

  /** The metadata table holds one record per count index, each the first record of that index
      in column order, and every count index of a parsed header cell is present. */
  lemma HeaderMetadataSpec(g: Grid)
    requires HeaderMetadataOf(g).Ok?
    ensures var recs := Records(HeaderTexts(g[HeaderPosOf(g).value.row]));
      var ms := HeaderMetadataOf(g).value;
      && |ms| > 0
      && (forall i, j :: 0 <= i < j < |ms| ==> ms[i].countIndex != ms[j].countIndex)
      && Keys(ms, IndexKey) == Keys(recs, IndexKey)
      && (forall i :: 0 <= i < |ms| ==>
            ms[i].countIndex in Keys(recs, IndexKey) && ms[i] == recs[FirstIndexOf(recs, ms[i].countIndex, IndexKey)])
  {
    var recs := Records(HeaderTexts(g[HeaderPosOf(g).value.row]));
    KeepFirstIndex(recs);
    assert IndexKey(recs[0]) in Keys(recs, IndexKey);
  }

  /** The metadata fails without a species header, and exactly when no cell of the header row
      parses as a header cell, with the missing CountIndex column. */
  lemma HeaderMetadataErr(g: Grid)
    ensures HeaderPosOf(g).Err? ==> HeaderMetadataOf(g) == Err(NoSpeciesHeader)
    ensures HeaderPosOf(g).Ok? ==>
      var row := g[HeaderPosOf(g).value.row];
      (HeaderMetadataOf(g).Err? <==> forall j :: 0 <= j < |row| ==> ParseHeaderCell(CellStr(row[j])).None?)
    ensures HeaderPosOf(g).Ok? && HeaderMetadataOf(g).Err? ==> HeaderMetadataOf(g).error == NoCountIndexColumn
  {
    if HeaderPosOf(g).Ok? {
      HeaderRowEmpty(g[HeaderPosOf(g).value.row]);
    }
  }

  lemma HeaderRowEmpty(row: Row)
    ensures Records(HeaderTexts(row)) == [] <==> forall j :: 0 <= j < |row| ==> ParseHeaderCell(CellStr(row[j])).None?
  {
    var ts := HeaderTexts(row);
    RecordsEmpty(ts);
    assert forall j :: 0 <= j < |row| ==> ts[j] == CellStr(row[j]);
  }

  /** No record comes out exactly when no text parses. */
  lemma {:induction false} RecordsEmpty(ts: seq<string>)
    ensures Records(ts) == [] <==> forall j :: 0 <= j < |ts| ==> ParseHeaderCell(ts[j]).None?
    decreases |ts|
  {
    if ts != [] {
      var init := ts[..|ts| - 1];
      RecordsEmpty(init);
      assert forall j :: 0 <= j < |init| ==> init[j] == ts[j];
    }
  }

  // ---------------------------------------------------------------- reading back

  /** The text of a date `a/b/c`. */
  function DateText(a: string, b: string, c: string): string {
    a + "/" + b + "/" + c
  }

  /** Fields the date pattern accepts: one or two digits, one or two digits and four digits,
      leading zeros allowed. */
  predicate DateFields(a: string, b: string, c: string) {
    1 <= |a| <= 2 && 1 <= |b| <= 2 && |c| == 4 && AllDigits(a) && AllDigits(b) && AllDigits(c)
  }

  lemma SlashFieldOf(a: string, rest: string)
    requires 1 <= |a| <= 2 && AllDigits(a)
    ensures SlashField(a + "/" + rest) == Some(|a| + 1)
  {
    var u := a + "/" + rest;
    assert u == a + ("/" + rest);
    DigitPrefixOf(a, "/" + rest);
    assert u[|a|] == '/';
  }

  lemma DateAtStartParts(u: string, n1: nat, n2: nat)
    requires SlashField(u) == Some(n1) && n1 <= |u| && SlashField(u[n1..]) == Some(n2)
    requires |u| >= n1 + n2 + 4 && AllDigits(u[n1 + n2..n1 + n2 + 4])
    ensures DateAtStart(u) == Some(u[..n1 + n2 + 4])
  {
  }

  /** A date `a/b/c` with fields of one or two, one or two and four digits (such as
      "12/05/2024" or "1/5/2024") is read back from the start of a text whatever follows it. */
  lemma DateAtStartOf(a: string, b: string, c: string, tail: string)
    requires DateFields(a, b, c)
    ensures DateAtStart(DateText(a, b, c) + tail) == Some(DateText(a, b, c))
  {
    var u := DateText(a, b, c) + tail;
    var n1 := |a| + 1;
    var n2 := |b| + 1;
    var v := b + "/" + (c + tail);
    assert u == a + "/" + v;
    SlashFieldOf(a, v);
    assert u[n1..] == v;
    SlashFieldOf(b, c + tail);
    assert u[n1 + n2..n1 + n2 + 4] == c;
    DateAtStartParts(u, n1, n2);
    assert u[..n1 + n2 + 4] == DateText(a, b, c);
  }

  lemma DateHereParts(s: string, rest: string)
    requires s == CountDateLabel + rest
    ensures DateHere(s) == DateAtStart(LStrip(rest))
  {
    assert s[..|CountDateLabel|] == CountDateLabel;
    assert s[|CountDateLabel|..] == rest;
  }

  /** Optional whitespace before a date is skipped. */
  lemma LStripBeforeDate(w: string, a: string, b: string, c: string, tail: string)
    requires AllSpace(w) && DateFields(a, b, c)
    ensures LStrip(w + (DateText(a, b, c) + tail)) == DateText(a, b, c) + tail
  {
    var dt := DateText(a, b, c) + tail;
    assert dt[0] == a[0];
    assert IsDigit(dt[0]);
    LStripPastSpace(w, dt);
  }

  /** "Count Date:", optional whitespace and a date are found as that date. */
  lemma DateHereOf(w: string, a: string, b: string, c: string, tail: string)
    requires AllSpace(w) && DateFields(a, b, c)
    ensures DateHere(CountDateLabel + w + DateText(a, b, c) + tail) == Some(DateText(a, b, c))
  {
    var rest := w + (DateText(a, b, c) + tail);
    assert CountDateLabel + w + DateText(a, b, c) + tail == CountDateLabel + rest;
    DateHereParts(CountDateLabel + rest, rest);
    LStripBeforeDate(w, a, b, c, tail);
    DateAtStartOf(a, b, c, tail);
  }

  /** The search skips a prefix in which no match can start (a prefix without the letter 'C'). */
  lemma {:induction false} FindCountDateSkip(p: string, s: string)
    requires forall i :: 0 <= i < |p| ==> p[i] != 'C'
    ensures FindCountDate(p + s) == FindCountDate(s)
    decreases |p|
  {
    if p == [] {
      assert p + s == s;
    } else {
      var ps := p + s;
      assert ps[0] == p[0] && ps[0] != 'C';
      assert DateHere(ps).None? by {
        if |ps| >= |CountDateLabel| {
          assert ps[..|CountDateLabel|][0] != 'C';
        }
      }
      assert ps[1..] == p[1..] + s;
      FindCountDateSkip(p[1..], s);
    }
  }

  /** The whole of `s` is whitespace, four year digits `yd`, whitespace, a bracketed run of
      digits `d` and any `rest`. */
  predicate HeaderCellForm(s: string, w1: string, yd: string, w2: string, d: string, rest: string) {
    && AllSpace(w1) && AllSpace(w2) && |yd| == 4 && YearDigitsAt(yd) && |d| > 0 && AllDigits(d)
    && s == w1 + yd + w2 + "[" + d + "]" + rest
  }

  lemma ParseHeaderCellParts(s: string, t: string, u: string, d: string, y: nat, idx: nat)
    requires t == LStrip(s) && YearDigitsAt(t) && YearValue(t) == y
    requires u == LStrip(t[4..]) && |u| > 0 && u[0] == '['
    requires d == DigitPrefix(u[1..]) && |d| > 0 && |u| >= |d| + 2 && u[|d| + 1] == ']'
    requires DigitsValue(d) == idx
    ensures ParseHeaderCell(s) == Some(HeaderMeta(idx, y, FindCountDate(s)))
  {
  }

  /** Optional whitespace, then a bracketed run of digits. */
  lemma BracketOf(w: string, d: string, rest: string)
    requires AllSpace(w) && |d| > 0 && AllDigits(d)
    ensures var u := "[" + d + "]" + rest;
      && LStrip(w + u) == u && u[0] == '['
      && DigitPrefix(u[1..]) == d && |u| >= |d| + 2 && u[|d| + 1] == ']'
  {
    var u := "[" + d + "]" + rest;
    LStripPastSpace(w, u);
    BracketAt(u, d, rest);
    DigitPrefixOf(d, "]" + rest);
  }

  lemma BracketAt(u: string, si: string, rest: string)
    requires u == "[" + si + "]" + rest
    ensures u[0] == '[' && u[1..] == si + ("]" + rest) && |u| >= |si| + 2 && u[|si| + 1] == ']'
  {
    assert u == ['['] + (si + ("]" + rest));
  }

  /** A header cell of the form whitespace, four year digits, whitespace, a bracketed count
      index (leading zeros allowed, "007" reads as 7) and any text is read as that year and
      index, with the count date of the text after the bracket. */
  lemma ParseHeaderCellOf(s: string, w1: string, yd: string, w2: string, d: string, rest: string)
    requires HeaderCellForm(s, w1, yd, w2, d, rest)
    ensures ParseHeaderCell(s) == Some(HeaderMeta(DigitsValue(d), YearValue(yd), FindCountDate(rest)))
    ensures FindCountDate(s) == FindCountDate(rest)
  {
    var u := "[" + d + "]" + rest;
    var t := yd + (w2 + u);
    assert s == w1 + t;
    YearPrefixOf(yd, w2 + u);
    LStripPastSpace(w1, t);
    BracketOf(w2, d, rest);
    ParseHeaderCellParts(s, t, u, d, YearValue(yd), DigitsValue(d));
    YearAllDigits(yd);
    CellSkip(w1, yd, w2, d, rest);
  }

  /** Conversely, a cell gives a record only when it has that form, and the record holds the
      year its digits spell, the bracketed index and the count date searched in the cell. */
  lemma ParseHeaderCellShape(s: string)
    requires ParseHeaderCell(s).Some?
    ensures exists w1, yd, w2, d, rest ::
      HeaderCellForm(s, w1, yd, w2, d, rest) &&
      ParseHeaderCell(s).value == HeaderMeta(DigitsValue(d), YearValue(yd), FindCountDate(s))
  {
    var t := LStrip(s);
    var u := LStrip(t[4..]);
    var d := DigitPrefix(u[1..]);
    assert ParseHeaderCell(s).value == HeaderMeta(DigitsValue(d), YearValue(t), FindCountDate(s));
    CellPieces(s, t, u, d);
    var w1, yd, w2, rest :| HeaderCellForm(s, w1, yd, w2, d, rest) && YearValue(yd) == YearValue(t);
  }

  lemma CellPieces(s: string, t: string, u: string, d: string)
    requires t == LStrip(s) && YearDigitsAt(t) && u == LStrip(t[4..]) && |u| > 0 && u[0] == '['
    requires d == DigitPrefix(u[1..]) && |d| > 0 && |u| >= |d| + 2 && u[|d| + 1] == ']'
    ensures exists w1, yd, w2, rest :: HeaderCellForm(s, w1, yd, w2, d, rest) && YearValue(yd) == YearValue(t)
  {
    var w1 := SpaceBefore(s, t);
    var yd := YearHead(t);
    var v := t[4..];
    var w2 := SpaceBefore(v, u);
    BracketSplit(u, d);
    var rest := u[|d| + 2..];
    HeaderCellCompose(s, w1, t, yd, v, w2, u, d, rest);
    assert HeaderCellForm(s, w1, yd, w2, d, rest);
  }

  /** The four year digits at the start of a text. */
  lemma YearHead(t: string) returns (yd: string)
    requires YearDigitsAt(t)
    ensures |yd| == 4 && YearDigitsAt(yd) && YearValue(yd) == YearValue(t) && t == yd + t[4..]
  {
    yd := t[..4];
  }

  lemma BracketSplit(u: string, d: string)
    requires |u| >= |d| + 2 && u[0] == '[' && u[1..][..|d|] == d && u[|d| + 1] == ']'
    ensures u == "[" + d + "]" + u[|d| + 2..]
  {
    assert u[1..|d| + 1] == d;
    assert u == [u[0]] + u[1..|d| + 1] + [u[|d| + 1]] + u[|d| + 2..];
  }

  lemma HeaderCellCompose(s: string, w1: string, t: string, yd: string, v: string, w2: string,
                          u: string, d: string, rest: string)
    requires s == w1 + t && t == yd + v && v == w2 + u && u == "[" + d + "]" + rest
    ensures s == w1 + yd + w2 + "[" + d + "]" + rest
  {
    assert w1 + yd + w2 + "[" + d + "]" + rest == w1 + (yd + (w2 + ("[" + d + "]" + rest)));
  }

  /** The search for a count date skips the year and the bracketed index. */
  lemma CellSkip(w1: string, sy: string, w2: string, si: string, rest: string)
    requires AllSpace(w1) && AllSpace(w2) && AllDigits(sy) && AllDigits(si)
    ensures FindCountDate(w1 + sy + w2 + "[" + si + "]" + rest) == FindCountDate(rest)
  {
    var pre := w1 + sy + w2 + "[" + si + "]";
    assert w1 + sy + w2 + "[" + si + "]" + rest == pre + rest;
    forall i | 0 <= i < |pre|
      ensures pre[i] != 'C'
    {
      NoCInNumeralCell(w1, sy, w2, si, i);
    }
    FindCountDateSkip(pre, rest);
  }

  lemma NoCInNumeralCell(w1: string, sy: string, w2: string, si: string, i: nat)
    requires AllSpace(w1) && AllSpace(w2) && AllDigits(sy) && AllDigits(si)
    requires i < |w1 + sy + w2 + "[" + si + "]"|
    ensures (w1 + sy + w2 + "[" + si + "]")[i] != 'C'
  {
    var pre := w1 + sy + w2 + "[" + si + "]";
    if i < |w1| {
      assert pre[i] == w1[i];
    } else if i < |w1| + |sy| {
      assert pre[i] == sy[i - |w1|];
    } else if i < |w1| + |sy| + |w2| {
      assert pre[i] == w2[i - |w1| - |sy|];
    } else if i < |w1| + |sy| + |w2| + 1 {
      assert pre[i] == '[';
    } else if i < |w1| + |sy| + |w2| + 1 + |si| {
      assert pre[i] == si[i - |w1| - |sy| - |w2| - 1];
    } else {
      assert pre[i] == ']';
    }
  }

  /** A count date on the line after the bracket is found. */
  lemma DateOnNextLine(w: string, a: string, b: string, c: string, tail: string)
    requires AllSpace(w) && DateFields(a, b, c)
    ensures FindCountDate("\n" + CountDateLabel + w + DateText(a, b, c) + tail) == Some(DateText(a, b, c))
  {
    var main := CountDateLabel + w + DateText(a, b, c) + tail;
    assert "\n" + CountDateLabel + w + DateText(a, b, c) + tail == "\n" + main;
    FindCountDateSkip("\n", main);
    DateHereOf(w, a, b, c, tail);
  }

  /** The header cell `2024 [125]\nCount Date: 12/15/2024\n# Participants: ...` in its general
      form: year, index and the count date on the next line are all read back. */
  lemma HeaderCellRoundTrip(s: string, w1: string, yd: string, w2: string, d: string, rest: string,
                            w: string, da: string, db: string, dc: string, tail: string)
    requires HeaderCellForm(s, w1, yd, w2, d, rest)
    requires AllSpace(w) && DateFields(da, db, dc)
    requires rest == "\n" + CountDateLabel + w + DateText(da, db, dc) + tail
    ensures ParseHeaderCell(s) == Some(HeaderMeta(DigitsValue(d), YearValue(yd), Some(DateText(da, db, dc))))
  {
    ParseHeaderCellOf(s, w1, yd, w2, d, rest);
    DateOnNextLine(w, da, db, dc, tail);
  }

  /** A plain year cell carries no metadata: the bracketed count index is required. */
  lemma PlainYearHasNoMeta(s: string, w1: string, yd: string, w2: string)
    requires AllSpace(w1) && AllSpace(w2) && |yd| == 4 && YearDigitsAt(yd)
    requires s == w1 + yd + w2
    ensures ParseHeaderCell(s).None?
  {
    var t := yd + w2;
    assert s == w1 + t;
    YearPrefixOf(yd, w2);
    LStripPastSpace(w1, t);
    LStripAllSpace(w2);
  }

  /** The count date found is the date of the leftmost "Count Date:" followed by a date; there
      is none only when no position of the text starts such a match. */
  lemma {:induction false} FindCountDateSpec(s: string)
    ensures FindCountDate(s).Some? ==>
      exists k :: 0 <= k <= |s| && DateHere(s[k..]) == FindCountDate(s) &&
        forall j :: 0 <= j < k ==> DateHere(s[j..]).None?
    ensures FindCountDate(s).None? <==> forall k :: 0 <= k <= |s| ==> DateHere(s[k..]).None?
    decreases |s|
  {
    assert s[0..] == s;
    if DateHere(s).Some? {
    } else if s == [] {
    } else {
      FindCountDateSpec(s[1..]);
      forall k | 1 <= k <= |s|
        ensures s[k..] == s[1..][k - 1..]
      {
      }
      if FindCountDate(s).Some? {
        var k :| 0 <= k <= |s[1..]| && DateHere(s[1..][k..]) == FindCountDate(s[1..]) &&
          forall j :: 0 <= j < k ==> DateHere(s[1..][j..]).None?;
        assert DateHere(s[k + 1..]) == FindCountDate(s);
        forall j | 0 <= j < k + 1
          ensures DateHere(s[j..]).None?
        {
          if j > 0 {
            assert DateHere(s[1..][j - 1..]).None?;
          }
        }
      } else {
        forall k | 0 <= k <= |s|
          ensures DateHere(s[k..]).None?
        {
          if k > 0 {
            assert DateHere(s[1..][k - 1..]).None?;
          }
        }
      }
    }
  }
}
