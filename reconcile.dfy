/**
 * The weather join in `main`: each weather row gets its Year and CountDate from
 * the participants/effort row with the same count index, falling back to the
 * header metadata of that index.
 */
module Reconcile {
  import opened Results
  import opened Cells
  import opened Sheet
  import opened Metadata
  import opened Counts
  import opened Sections
  import opened Select

  /** A weather row after the first (left) merge, with the matched participants/effort row or
      none. */
  datatype PeJoin = PeJoin(weather: WeatherRecord, pe: Option<PeRecord>)

  /** A weather row after both merges: Year and CountDate first, then the weather record
      (whose count index is the row's). */
  datatype JoinedRow = JoinedRow(year: Option<int>, countDate: Option<string>, weather: WeatherRecord)

  /** The participants/effort rows with count index `k`, in order. */
  function PeMatches(pe: seq<PeRecord>, k: int): (r: seq<PeRecord>)
    ensures |r| <= |pe|
    ensures forall i :: 0 <= i < |r| ==> r[i].countIndex == Some(k) && r[i] in pe
    ensures forall i :: 0 <= i < |pe| && pe[i].countIndex == Some(k) ==> pe[i] in r
  {
    if pe == [] then []
    else
      var p := PeMatches(pe[..|pe| - 1], k);
      var x := pe[|pe| - 1];
      if x.countIndex == Some(k) then p + [x] else p
  }

  /** `merge(..., how="left")` for one weather row: one row per match, in the order of the
      participants/effort table, or the row alone when nothing matches. */
  function RowsFor(w: WeatherRecord, pe: seq<PeRecord>): (r: seq<PeJoin>)
    ensures |r| >= 1 && forall i :: 0 <= i < |r| ==> r[i].weather == w
  {
    var ms := PeMatches(pe, w.countIndex);
    if ms == [] then [PeJoin(w, None)]
    else seq(|ms|, j requires 0 <= j < |ms| => PeJoin(w, Some(ms[j])))
  }

  /** `weather.merge(pe[["CountIndex", "Year", "CountDate"]], on="CountIndex", how="left")` */
  function JoinPe(ws: seq<WeatherRecord>, pe: seq<PeRecord>): (r: seq<PeJoin>)
    ensures |r| >= |ws|
  {
    if ws == [] then []
    else JoinPe(ws[..|ws| - 1], pe) + RowsFor(ws[|ws| - 1], pe)
  }

  /** The header-metadata record with count index `k`, if any (the metadata's count indexes
      are distinct, so the left merge matches at most one). */
  function MetaFor(meta: seq<HeaderMeta>, k: int): (r: Option<HeaderMeta>)
    ensures r.Some? ==> r.value in meta && r.value.countIndex == k
    ensures r.None? <==> forall i :: 0 <= i < |meta| ==> meta[i].countIndex != k
  {
    if meta == [] then None
    else if meta[0].countIndex == k then Some(meta[0])
    else MetaFor(meta[1..], k)
  }

  /** The second merge and the two `fillna` calls: Year is the participants/effort year when
      there is one, else the metadata year; CountDate is the participants/effort date when a
      row matched (it is never null there), else the metadata date. */
  function Fill(j: PeJoin, meta: seq<HeaderMeta>): JoinedRow {
    var m := MetaFor(meta, j.weather.countIndex);
    var year :=
      if j.pe.Some? && j.pe.value.year.Some? then j.pe.value.year
      else if m.Some? then Some(m.value.year as int)
      else None;
    var date :=
      if j.pe.Some? then Some(j.pe.value.countDate)
      else if m.Some? then m.value.countDate
      else None;
    JoinedRow(year, date, j.weather)
  }

  /** The weather table after the join block. */
  function ReconcileWeather(ws: seq<WeatherRecord>, pe: seq<PeRecord>, meta: seq<HeaderMeta>): (r: seq<JoinedRow>)
    ensures |r| == |JoinPe(ws, pe)|
  {
    var js := JoinPe(ws, pe);
    seq(|js|, i requires 0 <= i < |js| => Fill(js[i], meta))
  }

  // ---------------------------------------------------------------- properties

  /** No two participants/effort rows share a count index. */
  predicate UniqueIndex(pe: seq<PeRecord>) {
    forall i, j :: 0 <= i < j < |pe| && pe[i].countIndex.Some? ==> pe[i].countIndex != pe[j].countIndex
  }

  /** The participants/effort row for count index `k`: the first match. */
  function PeFor(pe: seq<PeRecord>, k: int): (r: Option<PeRecord>)
    ensures r.Some? ==> r.value in pe && r.value.countIndex == Some(k)
    ensures r.None? <==> forall i :: 0 <= i < |pe| ==> pe[i].countIndex != Some(k)
  {
    var ms := PeMatches(pe, k);
    if ms == [] then None else Some(ms[0])
  }

  /** With distinct count indexes a weather row matches at most one participants/effort row. */
  lemma {:induction false} MatchesUnique(pe: seq<PeRecord>, k: int)
    requires UniqueIndex(pe)
    ensures |PeMatches(pe, k)| <= 1
  {
    if pe != [] {
      var init := pe[..|pe| - 1];
      var x := pe[|pe| - 1];
      assert UniqueIndex(init) by {
        forall i, j | 0 <= i < j < |init| && init[i].countIndex.Some?
          ensures init[i].countIndex != init[j].countIndex
        {
          assert init[i] == pe[i] && init[j] == pe[j];
        }
      }
      MatchesUnique(init, k);
      var p := PeMatches(init, k);
      if x.countIndex == Some(k) {
        forall i | 0 <= i < |init|
          ensures init[i].countIndex != Some(k)
        {
          assert init[i] == pe[i] && pe[|pe| - 1] == x;
        }
        NoMatches(init, k);
      }
    }
  }

  lemma {:induction false} NoMatches(pe: seq<PeRecord>, k: int)
    requires forall i :: 0 <= i < |pe| ==> pe[i].countIndex != Some(k)
    ensures PeMatches(pe, k) == []
  {
    if pe != [] {
      var init := pe[..|pe| - 1];
      assert forall i :: 0 <= i < |init| ==> init[i] == pe[i];
      NoMatches(init, k);
    }
  }

  lemma RowsForUnique(w: WeatherRecord, pe: seq<PeRecord>)
    requires UniqueIndex(pe)
    ensures RowsFor(w, pe) == [PeJoin(w, PeFor(pe, w.countIndex))]
  {
    MatchesUnique(pe, w.countIndex);
  }

  /** With distinct participants/effort count indexes the first merge keeps the weather rows
      and their order, each with its matching participants/effort row or none. */
  lemma {:induction false} JoinPeUnique(ws: seq<WeatherRecord>, pe: seq<PeRecord>)
    requires UniqueIndex(pe)
    ensures |JoinPe(ws, pe)| == |ws|
    ensures forall i :: 0 <= i < |ws| ==> JoinPe(ws, pe)[i] == PeJoin(ws[i], PeFor(pe, ws[i].countIndex))
  {
    if ws != [] {
      var init := ws[..|ws| - 1];
      var last := ws[|ws| - 1];
      JoinPeUnique(init, pe);
      RowsForUnique(last, pe);
      PairedSnoc(ws, pe, JoinPe(init, pe), JoinPe(ws, pe));
    }
  }

  /** One more weather row whose join is its single pairing extends a pairing of the rows
      before it. */
  lemma PairedSnoc(ws: seq<WeatherRecord>, pe: seq<PeRecord>, a: seq<PeJoin>, js: seq<PeJoin>)
    requires ws != [] && |a| == |ws| - 1
    requires forall i :: 0 <= i < |a| ==> a[i] == PeJoin(ws[..|ws| - 1][i], PeFor(pe, ws[..|ws| - 1][i].countIndex))
    requires js == a + [PeJoin(ws[|ws| - 1], PeFor(pe, ws[|ws| - 1].countIndex))]
    ensures |js| == |ws|
    ensures forall i :: 0 <= i < |ws| ==> js[i] == PeJoin(ws[i], PeFor(pe, ws[i].countIndex))
  {
    forall i | 0 <= i < |ws|
      ensures js[i] == PeJoin(ws[i], PeFor(pe, ws[i].countIndex))
    {
      if i < |a| {
        assert js[i] == a[i] && ws[..|ws| - 1][i] == ws[i];
      }
    }
  }

  /** The join keeps the weather rows and their order when the participants/effort count
      indexes are distinct; each row's Year and CountDate follow the fill rules. */
  lemma ReconcileUnique(ws: seq<WeatherRecord>, pe: seq<PeRecord>, meta: seq<HeaderMeta>)
    requires UniqueIndex(pe)
    ensures var out := ReconcileWeather(ws, pe, meta);
      |out| == |ws| &&
      forall i :: 0 <= i < |ws| ==>
        out[i].weather == ws[i] && out[i] == Fill(PeJoin(ws[i], PeFor(pe, ws[i].countIndex)), meta)
  {
    JoinPeUnique(ws, pe);
  }

  /** The fill rules: a non-null participants/effort value wins; otherwise the header metadata
      of the same count index; otherwise the value stays null. */
  lemma FillSpec(w: WeatherRecord, pe: seq<PeRecord>, meta: seq<HeaderMeta>)
    ensures var r := Fill(PeJoin(w, PeFor(pe, w.countIndex)), meta);
      var p := PeFor(pe, w.countIndex);
      var m := MetaFor(meta, w.countIndex);
      && r.weather == w
      && (p.Some? ==> r.countDate == Some(p.value.countDate) && p.value in pe && p.value.countIndex == Some(w.countIndex))
      && (p.Some? && p.value.year.Some? ==> r.year == p.value.year)
      && ((p.None? || p.value.year.None?) && m.Some? ==> r.year == Some(m.value.year as int))
      && (p.None? && m.Some? ==> r.countDate == m.value.countDate && m.value in meta && m.value.countIndex == w.countIndex)
      && ((p.None? || p.value.year.None?) && m.None? ==> r.year.None?)
      && (p.None? && m.None? ==> r.countDate.None?)
  {
  }

  /** A weather row without a participants/effort row takes its year and date from the header
      metadata of its count index: the `2024 [125]` case. */
  lemma FallbackToMeta(w: WeatherRecord, pe: seq<PeRecord>, meta: seq<HeaderMeta>, m: HeaderMeta)
    requires forall i :: 0 <= i < |pe| ==> pe[i].countIndex != Some(w.countIndex)
    requires m in meta && m.countIndex == w.countIndex
    requires forall i, j :: 0 <= i < j < |meta| ==> meta[i].countIndex != meta[j].countIndex
    ensures Fill(PeJoin(w, PeFor(pe, w.countIndex)), meta) == JoinedRow(Some(m.year as int), m.countDate, w)
  {
    MetaForDistinct(meta, m);
  }

  lemma {:induction false} MetaForDistinct(meta: seq<HeaderMeta>, m: HeaderMeta)
    requires m in meta
    requires forall i, j :: 0 <= i < j < |meta| ==> meta[i].countIndex != meta[j].countIndex
    ensures MetaFor(meta, m.countIndex) == Some(m)
  {
    if meta[0] != m {
      var k :| 0 <= k < |meta| && meta[k] == m;
      assert k > 0;
      assert meta[1..][k - 1] == m;
      assert forall i, j :: 0 <= i < j < |meta[1..]| ==> meta[1..][i] == meta[i + 1] && meta[1..][j] == meta[j + 1];
      MetaForDistinct(meta[1..], m);
    }
  }

  /** In general every joined row is a weather row's, and each weather row appears at least
      once; a weather row that shares its count index with several participants/effort rows is
      repeated once per such row. */
  lemma {:induction false} JoinPeFrom(ws: seq<WeatherRecord>, pe: seq<PeRecord>, i: nat)
    requires i < |JoinPe(ws, pe)|
    ensures JoinPe(ws, pe)[i].weather in ws
  {
    var init := ws[..|ws| - 1];
    var a := JoinPe(init, pe);
    var b := RowsFor(ws[|ws| - 1], pe);
    if i < |a| {
      JoinPeFrom(init, pe, i);
      assert JoinPe(ws, pe)[i] == a[i];
      assert a[i].weather in init;
    } else {
      assert JoinPe(ws, pe)[i] == b[i - |a|];
    }
  }

  lemma {:induction false} JoinPeCovers(ws: seq<WeatherRecord>, pe: seq<PeRecord>, k: nat)
    requires k < |ws|
    ensures exists i :: 0 <= i < |JoinPe(ws, pe)| && JoinPe(ws, pe)[i].weather == ws[k]
  {
    var init := ws[..|ws| - 1];
    var a := JoinPe(init, pe);
    var b := RowsFor(ws[|ws| - 1], pe);
    assert JoinPe(ws, pe) == a + b;
    if k == |ws| - 1 {
      assert JoinPe(ws, pe)[|a|] == b[0];
    } else {
      JoinPeCovers(init, pe, k);
      var i :| 0 <= i < |a| && a[i].weather == init[k];
      assert JoinPe(ws, pe)[i] == a[i];
    }
  }

  /** Whether a participants/effort row has count index `k`. */
  function HasIndex(k: int): PeRecord -> bool {
    (x: PeRecord) => x.countIndex == Some(k)
  }

  /** The repeated rows: a weather row gives one joined row per participants/effort row of its
      count index, in the order of that table, or itself alone when there is none. */
  lemma RowsForMatches(w: WeatherRecord, pe: seq<PeRecord>)
    ensures var at := Positions(pe, HasIndex(w.countIndex));
      && (at == [] ==> RowsFor(w, pe) == [PeJoin(w, None)])
      && (at != [] ==>
            |RowsFor(w, pe)| == |at| && forall j :: 0 <= j < |at| ==> RowsFor(w, pe)[j] == PeJoin(w, Some(pe[at[j]])))
  {
    MatchesAt(pe, w.countIndex);
  }

  /** The matches of `k` are the rows at the positions holding `k`, in order. */
  lemma {:induction false} MatchesAt(pe: seq<PeRecord>, k: int)
    ensures var at := Positions(pe, HasIndex(k));
      |PeMatches(pe, k)| == |at| && forall j :: 0 <= j < |at| ==> PeMatches(pe, k)[j] == pe[at[j]]
    decreases |pe|
  {
    if pe != [] {
      var init := pe[..|pe| - 1];
      var x := pe[|pe| - 1];
      assert pe == init + [x];
      MatchesAt(init, k);
      PositionsSnoc(init, x, HasIndex(k));
      var at0 := Positions(init, HasIndex(k));
      assert forall j :: 0 <= j < |at0| ==> init[at0[j]] == pe[at0[j]];
    }
  }

  // ---------------------------------------------------------------- the whole run

  /** The tables `main` derives: the count matrix, participants/effort, and the reconciled
      weather. */
  datatype Tables = Tables(counts: CountsTable, pe: seq<PeRecord>, weather: seq<JoinedRow>)

  /** `main` without its output: counts, then participants/effort, weather and metadata, in
      that order, the first failure ending the run. */
  function Run(g: Grid, stop: string): Result<Tables> {
    match ExtractCounts(g, stop)
    case Err(e) => Err(e)
    case Ok(counts) =>
      match ParticipantsEffortOf(g)
      case Err(e) => Err(e)
      case Ok(pe) =>
        match WeatherOf(g)
        case Err(e) => Err(e)
        case Ok(ws) =>
          match HeaderMetadataOf(g)
          case Err(e) => Err(e)
          case Ok(meta) => Ok(Tables(counts, pe, ReconcileWeather(ws, pe, meta)))
  }

  /** A successful run reconciles every weather row against distinct-index header metadata:
      a weather row without participants/effort gets the metadata year and date of its index. */
  lemma RunFallback(g: Grid, stop: string, i: nat)
    requires Run(g, stop).Ok? && UniqueIndex(Run(g, stop).value.pe)
    requires i < |WeatherOf(g).value|
    ensures var ws := WeatherOf(g).value;
      var meta := HeaderMetadataOf(g).value;
      var out := Run(g, stop).value.weather;
      |out| == |ws| && out[i].weather == ws[i] &&
      (PeFor(Run(g, stop).value.pe, ws[i].countIndex).None? && MetaFor(meta, ws[i].countIndex).Some? ==>
        out[i].year == Some(MetaFor(meta, ws[i].countIndex).value.year as int) &&
        out[i].countDate == MetaFor(meta, ws[i].countIndex).value.countDate)
  {
    var ws := WeatherOf(g).value;
    var pe := Run(g, stop).value.pe;
    var meta := HeaderMetadataOf(g).value;
    ReconcileUnique(ws, pe, meta);
  }
}
