# Historical results by count: a verified model of the sheet extraction

The modelled program reads the "Historical Results by Count" export of a
Christmas Bird Count circle: one spreadsheet, read with `header=None`, that holds
a species-by-year block of counts, a participants/effort table, a weather table
and, in the cells of the species header row, rich per-year header text such as
`2024 [125]\nCount Date: 12/15/2024\n...`. It produces four clean tables:

- species counts per year;
- participants/effort records keyed by count index;
- weather records;
- the header metadata (count index, year, count date).

It then joins the weather table with the participants/effort table and falls back
to the header metadata for the year and count date of each weather row.

This project models that core in Dafny:

- `results.dfy`: `Option`, `Result` and the program's failure conditions. The
  `ValueError`s of `int()` and `float()` on cells, the missing rows, labels and
  columns (`ValueError`, `KeyError`) are error values; the float rounding of
  `int(float(s))` is not modelled (see Left out).
- `strings.dfy`: `str.strip` and `str.isspace`, decimal numerals and `str(int)`.
- `cells.dfy`: a cell is empty, an integer or a text. It also models:
  - `str(cell)`;
  - `_parse_count`, `_clean_text` and `_parse_temp_f`;
  - Python's `int()` and `float()` on a cell.
- `sheet.dfy`: the grid, and the scanners `_find_header` and
  `_find_row_with_cell`. These are methods with loops, proved equal to reference
  functions whose meaning is proved as lemmas.
- `dedup.dfy`: keep-the-first-of-each-key. This is the `seen` loop of
  `_year_columns` and pandas' `drop_duplicates(keep="first")`.
- `headers.dfy`: `YEAR_RE` and `_year_columns`, with both of its loops as methods.
- `metadata.dfy`: `extract_year_header_metadata`. It includes:
  - the two regular expressions, written as recognisers;
  - a round trip of the documented header cell form;
  - the leftmost-match characterisation of the count-date search.
- `counts.dfy`: `extract_counts`. It covers the species name, the per-year counts,
  the blank-species filter and the stop-species cut-off.
- `sections.dfy`: `extract_participants_effort` and `extract_weather`. Both
  share the downward read of a block that stops at the first empty index cell,
  which is written as one loop method.
- `select.dfy`: the positions of a sequence whose elements satisfy a test, used
  to state which rows a result comes from.
- `reconcile.dfy`: the join and fill block of `main`. The pandas left merge is
  modelled in full, so duplicate keys repeat a weather row. With distinct
  participants/effort indexes the join is proved to keep each weather row once,
  in order.

The workbook itself is a parameter: every extraction takes the grid of cells that
`pd.read_excel(..., header=None)` would produce. A row may be shorter than
others; reading past its end gives an empty cell, as pandas pads with NaN.

## Model

| member | source | states |
|---|---|---|
| Cells.ParseCount | extract_historical_results_by_count.py:116-136 | a nonzero count comes only from an integer cell or from a text that strips to an integer numeral or a whole decimal; everything else is 0 |
| Cells.ParseCountNumeral | extract_historical_results_by_count.py:124-132 | an optional minus sign and any run of digits (leading zeros included), padded with any whitespace, is read back as the signed value of the digits |
| Cells.ParseCountWholeDecimal | extract_historical_results_by_count.py:133-134 | any run of digits with an optional minus sign, followed by `.` and one or more zeros and padded with whitespace, is read as the signed value of its integer digits |
| Cells.ParseCountCountWeek | extract_historical_results_by_count.py:127-129 | the count-week marker `cw`, in any case and however padded, counts as 0 |
| Cells.CleanText | extract_historical_results_by_count.py:162-168 | an empty cell gives ""; the result is stripped, has no newline and no run of two whitespace characters |
| Cells.CleanTextKeepsText | extract_historical_results_by_count.py:165-167 | cleaning keeps every non-whitespace character of the cell's text, in order |
| Cells.CleanTextBlank | extract_historical_results_by_count.py:162-168 | a present cell cleans to "" exactly when its text is all whitespace |
| Cells.CleanJoinsWords | extract_historical_results_by_count.py:165-168 | two words with any non-empty whitespace run between them (newlines included) and any whitespace around clean to the first word cleaned, exactly one space, and the second word cleaned |
| Cells.CleanTextIdempotent | extract_historical_results_by_count.py:162-168 | cleaning an already cleaned text changes nothing |
| Cells.ParseTempFReads | extract_historical_results_by_count.py:139-159 | a padded numeral (any integer digits, optional fraction), optional whitespace and a unit word in any case is read as that temperature in Fahrenheit, converted as `v * 9 / 5 + 32` when the unit is Celsius |
| Cells.ParseTempFBareNumber | extract_historical_results_by_count.py:146-153 | any numeral without a unit, however padded, and any integer cell give no temperature |
| Cells.ToFahrenheitIncreasing | extract_historical_results_by_count.py:156-159 | the conversion to Fahrenheit is strictly increasing for either unit, and `(f - 32) * 5 / 9` undoes the Celsius conversion |
| Cells.PyIntTextNumeral | extract_historical_results_by_count.py:298 | `int()` reads a padded signed numeral back as its integer and refuses a blank text |
| Cells.FloatOf | extract_historical_results_by_count.py:251 | `float()` of a cell fails exactly on a text that is not a float literal once stripped, and otherwise keeps the cell |
| Cells.FloatOfNumber | extract_historical_results_by_count.py:251 | every decimal numeral, however padded, is accepted by `float()` |
| Cells.FloatRefusesWord | extract_historical_results_by_count.py:251 | a padded word that does not start with a digit, a sign or a point and is not "inf", "infinity" or "nan" is refused by `float()` |
| Cells.HoursNotANumber | extract_historical_results_by_count.py:251 | the text "n/a hrs" is refused by `float()` |
| Sheet.FindHeader | extract_historical_results_by_count.py:45-52 | the nested row/column scan returns the reference header position, or the missing-header error |
| Sheet.FindInRow | extract_historical_results_by_count.py:49-51 | the column scan of one row returns the first position of the text, or none |
| Sheet.HeaderPosSpec | extract_historical_results_by_count.py:45-52 | the header is the first cell in row-major order whose stripped text is exactly "Species"; the error occurs exactly when no cell reads "Species" |
| Sheet.FindRowWithCell | extract_historical_results_by_count.py:55-61 | the row scan returns the reference row for the stripped label, or the error naming the label |
| Sheet.RowWithCellSpec | extract_historical_results_by_count.py:55-61 | the row found is the first with a cell stripping to the stripped label; the error occurs exactly when no cell does |
| Sheet.ColumnOfSpec | extract_historical_results_by_count.py:225-229 | `header.index(label)` is the first column whose stripped text is the label, and is absent exactly when no column holds it |
| Dedup.KeepFirst | extract_historical_results_by_count.py:72-78 | the kept elements are elements of the input with pairwise distinct keys, and every key of the input is kept |
| Dedup.KeepFirstSpec | extract_historical_results_by_count.py:72-78 | every kept element is the first of its key in the input, and every first-of-its-key element is kept |
| Dedup.KeptInOrder | extract_historical_results_by_count.py:72-78 | kept elements follow the order of their first positions in the input |
| Headers.YearAtStart | extract_historical_results_by_count.py:42 | a year found by `YEAR_RE` lies between 1900 and 2099 |
| Headers.YearAtStartOf | extract_historical_results_by_count.py:42 | whitespace, a year from 1900 to 2099 and anything not continuing the word is recognised as that year |
| Headers.YearAtStartShape | extract_historical_results_by_count.py:42 | every year `YEAR_RE` finds comes from a text of that form: whitespace, the year's four digits, and nothing continuing the word |
| Headers.YearNeedsBoundary | extract_historical_results_by_count.py:42 | a year run into a further word character is not recognised (the `\b`) |
| Headers.YearColumns | extract_historical_results_by_count.py:64-79 | the two loops return the reference year columns of the row, or the no-year-columns error |
| Headers.KeepFirstYears | extract_historical_results_by_count.py:72-78 | the `seen`-set loop keeps exactly the first column of each year |
| Headers.YearColumnsCells | extract_historical_results_by_count.py:66-69 | each year column holds a cell that starts with its year, and there is at least one |
| Headers.YearColumnsOrdered | extract_historical_results_by_count.py:64-79 | year columns are in increasing column order with distinct years |
| Headers.YearColumnsFirst | extract_historical_results_by_count.py:72-78 | no earlier cell of the row starts with a kept column's year |
| Headers.YearColumnsComplete | extract_historical_results_by_count.py:64-79 | every year some cell of the row starts with is among the years found |
| Headers.YearColumnsErr | extract_historical_results_by_count.py:70-71 | the error occurs exactly when no cell of the row starts with a year |
| Metadata.YearHeaderMetadata | extract_historical_results_by_count.py:82-113 | the loop over the header cells returns the reference metadata table or its error |
| Metadata.HeaderMetadataSpec | extract_historical_results_by_count.py:96-112 | the table is non-empty, has pairwise distinct count indexes, covers every index parsed and holds the first record of each index in column order |
| Metadata.HeaderMetadataErr | extract_historical_results_by_count.py:92-112 | without a species header it fails as `_find_header` does; otherwise it fails exactly when no cell of the header row parses as a header cell, and then with the missing CountIndex column error |
| Metadata.DateAtStartOf | extract_historical_results_by_count.py:106 | any month and day of one or two digits and any four-digit year, joined by `/`, are read back as that date from the start of any text |
| Metadata.DateHereOf | extract_historical_results_by_count.py:106 | "Count Date:", any whitespace and such a date match as that date |
| Metadata.FindCountDateSpec | extract_historical_results_by_count.py:106-108 | the date found is that of the leftmost position where the count-date pattern matches; none exactly when no position matches |
| Metadata.ParseHeaderCellOf | extract_historical_results_by_count.py:99-110 | a cell of the form whitespace, year, whitespace, `[digits]` and any text gives that year and the value of the digits, with the count date searched in the text after the bracket |
| Metadata.ParseHeaderCellShape | extract_historical_results_by_count.py:99-110 | every cell that gives a record has that form, and the record holds its year, the value of its bracketed digits and the count date found in the cell |
| Metadata.DateOnNextLine | extract_historical_results_by_count.py:106-108 | a count date on the line after the bracket is found |
| Metadata.HeaderCellRoundTrip | extract_historical_results_by_count.py:89-110 | the documented cell `2024 [125]\nCount Date: 12/15/2024\n...`, in general form, is read back as its year, index and date |
| Metadata.PlainYearHasNoMeta | extract_historical_results_by_count.py:99-101 | a cell holding only a year, without a bracketed index, gives no record |
| Counts.FirstLine | extract_historical_results_by_count.py:187 | the first line is the prefix before the first newline and contains none |
| Counts.SpeciesNameOf | extract_historical_results_by_count.py:186-187 | a cell `common\nscientific` has species name `common` stripped |
| Counts.SpeciesNameShape | extract_historical_results_by_count.py:187 | a species name is stripped and holds no newline |
| Counts.CountRowsFrom | extract_historical_results_by_count.py:183-200 | every output row is the reading of some row of the block below the header |
| Counts.StopAtSpec | extract_historical_results_by_count.py:202-205 | the cut-off keeps a prefix; with the stop species present it ends at its first row inclusive, otherwise it keeps every row |
| Counts.CountRowsAt | extract_historical_results_by_count.py:183-200 | the k-th output row of a block is the reading of the k-th row of the block that has a species, and there is one per such row |
| Counts.ExtractCountsSpec | extract_historical_results_by_count.py:171-210 | errors are the missing header and the missing year columns, in that order; otherwise the years are the header's year columns and the k-th output row is the reading of the k-th row below the header with a species, up to and including the first with the stop species, or all of them |
| Counts.ExtractCountsRows | extract_historical_results_by_count.py:178-200 | every output row comes from a grid row strictly below the header row, as `RowOf` describes |
| Sections.BlockLen | extract_historical_results_by_count.py:239-242 | the block is the longest run of rows whose index cell is present |
| Sections.ReadBlockLoop | extract_historical_results_by_count.py:238-254 | the downward loop returns the reference block reading from the start row |
| Sections.ReadBlockOk | extract_historical_results_by_count.py:238-254 | a successful read has one record per row of the block, each that row's parse |
| Sections.ReadBlockErr | extract_historical_results_by_count.py:238-254 | the read fails exactly when a block row fails to parse, with the first such row's error |
| Sections.PeColumnsSpec | extract_historical_results_by_count.py:223-235 | the columns are found exactly when all five labels are present; each of "Year", "Count Date", "Num. Participants", "Num. Hours" and "Num. Species Reported", when it is the first missing, is the error; each column found holds its label |
| Sections.FloatIfPresent | extract_historical_results_by_count.py:251 | a present hours cell gives `float()` of it, an absent one none; it fails exactly on a present text `float()` refuses |
| Sections.PeRowHours | extract_historical_results_by_count.py:251 | a row whose present hours text `float()` refuses fails to read; a row that reads carries the hours cell when present, which `float()` then accepts |
| Sections.Indexed | extract_historical_results_by_count.py:258 | the filter keeps exactly the records that have a count index |
| Sections.ExtractParticipantsEffort | extract_historical_results_by_count.py:213-259 | the method returns the reference participants/effort table or its error |
| Sections.ReadParticipantsEffort | extract_historical_results_by_count.py:223-258 | the column lookups and the read below a header row return the reference table below that row |
| Sections.ParticipantsEffortRows | extract_historical_results_by_count.py:238-258 | the table is the count-indexed records of the non-empty block below the "Count Date" row, each the reading of its row |
| Sections.ParticipantsEffortErr | extract_historical_results_by_count.py:222-258 | it fails without a "Count Date" row and with a missing label; otherwise it fails exactly when the block below is empty (no CountIndex column) or a row of the block has a refused field, and then with the refusal of the first such row |
| Sections.PeRowErr | extract_historical_results_by_count.py:244-253 | a row fails exactly when a non-blank index, the last four characters of a present count date, present participants or species are refused by `int()`, or present hours by `float()`; the error is the refusal of the first such field in that order |
| Sections.YearOfDateErr | extract_historical_results_by_count.py:249 | a present count date gives an error exactly when `int()` refuses the last four characters of its stripped text, and with that refusal; a blank date gives no year |
| Sections.LastFour | extract_historical_results_by_count.py:249 | `s[-4:]` is the suffix of length min(4, \|s\|) |
| Sections.YearOfDateOf | extract_historical_results_by_count.py:249 | a count date whose stripped text ends in a four-digit year has that year |
| Sections.YearOfBlankDate | extract_historical_results_by_count.py:249 | an empty or blank count date gives no year |
| Sections.ExtractWeather | extract_historical_results_by_count.py:262-315 | the method returns the reference weather table or its error |
| Sections.ReadWeather | extract_historical_results_by_count.py:272-314 | the column lookups and the read below a header row return the reference table below that row |
| Sections.WeatherRows | extract_historical_results_by_count.py:293-314 | the weather records are the readings, in order, of the non-empty block below the "Low Temp." row |
| Sections.WeatherErr | extract_historical_results_by_count.py:271-314 | it fails without a "Low Temp." row and when that row has no "Year" column; otherwise it fails exactly when the block below is empty (no CountIndex column) or `int()` refuses an index cell of the block, and then with the error of the first such row |
| Sections.WeatherColumnsOf | extract_historical_results_by_count.py:274-282 | only a missing "Year" column is an error |
| Sections.WeatherRowSpec | extract_historical_results_by_count.py:295-310 | a row reads exactly when `int()` of its index cell succeeds; temperatures come from their columns, or none; each of the six texts is the cleaned cell of its column, or "" for an absent column, and is stripped with no run of whitespace |
| Reconcile.PeMatches | extract_historical_results_by_count.py:381 | the matches of a count index are exactly the participants/effort rows with that index |
| Reconcile.RowsForMatches | extract_historical_results_by_count.py:381 | a weather row with no match gives one row without participants/effort; otherwise the k-th joined row carries the participants/effort row at the k-th position holding its index |
| Reconcile.MatchesAt | extract_historical_results_by_count.py:381 | the matches of an index are the participants/effort rows at the positions holding it, in order |
| Reconcile.JoinPeFrom | extract_historical_results_by_count.py:381 | every joined row carries a weather row of the input |
| Reconcile.JoinPeCovers | extract_historical_results_by_count.py:381 | every weather row appears in the join at least once |
| Reconcile.MatchesUnique | extract_historical_results_by_count.py:381 | with distinct count indexes, a weather row matches at most one participants/effort row |
| Reconcile.JoinPeUnique | extract_historical_results_by_count.py:381 | with distinct count indexes, the left merge keeps the weather rows in order, each paired with its match or none |
| Reconcile.MetaFor | extract_historical_results_by_count.py:382-389 | the metadata lookup finds a record with the index, and finds none exactly when no record has it |
| Reconcile.MetaForDistinct | extract_historical_results_by_count.py:382-389 | with distinct metadata indexes, the lookup of a record's index finds that record |
| Reconcile.ReconcileUnique | extract_historical_results_by_count.py:377-395 | with distinct participants/effort indexes the output has one row per weather row, in order, each filled by the fill rules |
| Reconcile.FillSpec | extract_historical_results_by_count.py:390-391 | a participants/effort year that is not null wins, else the metadata year; a matched participants/effort date wins, else the metadata date; a year with neither a participants/effort year nor a metadata record stays null, and so does a date with neither a match nor a metadata record |
| Reconcile.FallbackToMeta | extract_historical_results_by_count.py:378-391 | a weather row absent from participants/effort takes the year and date of its metadata record |
| Reconcile.RunFallback | extract_historical_results_by_count.py:356-395 | on a successful run the weather output keeps its rows, and a row without participants/effort gets its metadata year and date |

## Left out

- Reading the workbook (`pd.read_excel`, the engine, the sheet argument) is left out: the grid of cells is a parameter. CSV writing, directory creation, argument parsing and the final messages are also left out (I/O).
- The default counts file name built from the minimum and maximum year is an output path and is left out.
- Floating-point cells are not modelled: a cell is empty, an integer or a text. This leaves out the `round()` branch of `_parse_count`, the float check of `_parse_temp_f` (whose branches both give None), and `pd.isna` on a float.
- The "Num. Hours" field of a participants/effort record is the cell that `float()` accepted, not a binary floating-point number: the check that can raise `ValueError` is modelled, the conversion is not, and the hours value feeds nothing else in the core.
- Cells.IsFloatText does not accept `_` digit separators or non-ASCII digits, which Python's `float()` also accepts.
- Cells.ParseCountWholeDecimal: `int(float(s))` is modelled as exact. Binary floating point rounds integers above 2^53, so for such numerals the source can give a different, rounded count.
- Temperatures are exact reals: the rounding of `float` arithmetic is not modelled.
- Cells.PyIntText accepts ASCII digits only. Python's `int()` also accepts `_` separators and non-ASCII decimal digits.
- `\d` matches ASCII digits and `\b` treats only ASCII letters, digits and `_` as word characters. Python's `str` patterns also count other Unicode digits and letters. The case-insensitive unit match folds ASCII letters only.
- Data-type effects are left out: the float Year column after a merge with nulls, `pd.to_numeric(...).fillna(0).astype(int)` on the count columns (the identity on integers within the int64 range) and the `Int64` casts. They are modelled as `int` and `Option<int>`.
- The int64 width of the count columns is left out: `_parse_count` returns an unbounded Python integer and the model keeps it unbounded, while pandas does not give back a count outside the int64 range (a text cell "99999999999999999999", say) after `to_numeric` and `astype(int)`.
- The two column projections that split participants and effort out of the participants/effort table are plain selections of fields of `PeRecord`, and are left out.
- Reconcile.MetaFor: the second left merge is modelled as a first-match lookup. This is exact because Metadata.HeaderMetadataSpec proves the metadata indexes distinct.
- The `"CountIndex" in ....columns` guards are always true on the success path: an empty table is already an error (`NoCountIndexColumn`, pandas' `KeyError`).
- The column order of the weather output (Year, CountDate, then the weather fields) is the field order of `JoinedRow`. No column list is modelled.
