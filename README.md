# Severe-weather storm database, modelled in Dafny

This project models the data layer of a small severe-weather explorer. It
loads three NOAA event tables (wind, tornado, hail) from CSV files into
SQLite and answers canned queries about them: counts over a date range,
month and year breakdowns, top-N by damage or length, a percentile rank, and
the share of events in a time window. A Streamlit front end keeps query
results in its session state. The model covers:

- **Loading** (`storm_database.py`). The model covers:
  - `convert_to_iso_date` (module `IsoDate`), with Python's `strip`,
    `strptime('%m/%d/%Y')` and the calendar checks of `datetime`;
  - `TABLE_DEFINITIONS`: columns, date indices and INSERT placeholder counts
    (modules `InsertStatements`, `TableDefinitions`);
  - the `StormDatabase` class (module `StormDatabase`), whose `Database`
    class holds the SQLite tables as a map. Its `CreateTable` and
    `LoadCsvIntoTable` methods run the row loop and the date-rewriting loop,
    and are proved against the functions `CreateTableResult` and `Load`.
    SQLite's storage of a bound text under a column's declared type is in
    `Affinity`.
- **Queries** (`wind_sql.py`, `tornado_sql.py`, `hail_sql.py`). Every query
  is a function of the table's rows, in insertion order:
  - `Sql` gives the meaning of the SQL the queries run: value order (NULL,
    then numbers, then BINARY-ordered texts, from `Collation`), WHERE,
    COUNT, `ORDER BY ... DESC LIMIT`, `GROUP BY ... ORDER BY`, CASE, substr
    and strftime;
  - `DateKeys` holds the month and year group keys;
  - `WindSql`, `TornadoSql` and `HailSql` hold one function per query method.
- **Session state** (`ui_helper.py`, `ui_helper_sql.py`). `st.session_state`
  is a class holding a map (module `Session`). `clear_dataset_keys` and
  `set_query_results` are methods that change it in place (modules
  `UiHelper`, `UiHelperSql`).

The date and time parameters of the queries are texts, compared in BINARY
order. The model proves that on the `YYYY-MM-DD` texts the loader stores,
this order is the calendar order (`IsoDate.IsoOrderIsChronological`).

The model follows the code, including where callers may not expect it:
- A negative `LIMIT` returns every row (SQLite), and `LIMIT 0` returns none;
  neither is an error.
- Which of several rows with equal keys `ORDER BY ... LIMIT` keeps is left
  open, not stable.
- A damage cell left blank in the CSV is stored as the text `''`, which
  sorts first under `DESC`, not last.
- A malformed minimum EF rating raises `IndexError` or `ValueError`.
- An empty hail table gives the integer `0`, and the wind and tornado
  percentages give `0.0`.

## Model

| member | source | states |
|---|---|---|
| IsoDate.ConvertToIsoDate | storm_database.py:6-16 | None for a missing or all-blank text; any result is a real calendar date in `YYYY-MM-DD` form, parsed from the stripped input |
| IsoDate.StripSurrounded | storm_database.py:10-13 | `strip` removes exactly the surrounding whitespace |
| IsoDate.ConvertUsDate | storm_database.py:12-14 | a `M/D/YYYY` text (fields as `%m`, `%d`, `%Y` accept them, whitespace around) converts to the ISO text of that date when the date exists |
| IsoDate.ConvertPaddedDate | storm_database.py:12-14 | the zero-padded `MM/DD/YYYY` text of every calendar date converts to that date's `YYYY-MM-DD` text |
| IsoDate.MonthFieldForms | storm_database.py:13 | `%m` accepts a month zero-padded and, below 10, unpadded |
| IsoDate.DayFieldForms | storm_database.py:13 | `%d` accepts a day zero-padded, unpadded or space-padded |
| IsoDate.YearFieldForm | storm_database.py:13 | `%Y` accepts a four-digit year |
| IsoDate.ConvertNonexistentDate | storm_database.py:12-16 | `02/30/2000` parses but is no date: None, no exception |
| IsoDate.ConvertRejectsIsoInput | storm_database.py:12-16 | a date already in ISO form does not match `%m/%d/%Y`: None |
| IsoDate.FormatRoundTrip | storm_database.py:14 | the `YYYY-MM-DD` text of a date reads back as that date; its year and month fields are the padded year and month |
| IsoDate.PaddedValue | storm_database.py:14 | a zero-padded number denotes the number |
| IsoDate.PaddedOrder | storm_database.py:14 | padded numbers of one width sort as texts as they do as numbers |
| IsoDate.IsoOrderIsChronological | wind_sql.py:30-31 | BINARY order of stored ISO dates is chronological order, both directions |
| Collation.TextLtIrreflexive | wind_sql.py:30-31 | no text sorts before itself |
| Collation.TextLtTransitive | wind_sql.py:30-31 | BINARY order is transitive |
| Collation.TextLtTrichotomy | wind_sql.py:30-31 | BINARY order is total |
| Collation.TextLtCommonPrefix | wind_sql.py:30-31 | a common prefix does not change the order |
| Affinity.ApplyAffinity | storm_database.py:223 | NULL exactly for a None cell; a TEXT column never stores a number; a stored text is the bound text |
| Affinity.BlankCellStaysText | storm_database.py:25 | a blank cell in a REAL or INTEGER column is stored as the text `''` |
| Affinity.DigitsBecomeNumber | storm_database.py:25 | a run of digits in a numeric column is stored as its number |
| InsertStatements.CountPlaceholdersIsMultiplicity | storm_database.py:61-68 | the placeholder count is the number of `?` in the text |
| InsertStatements.WindInsertPlaceholders | storm_database.py:61-68 | the wind INSERT supplies 34 placeholders |
| InsertStatements.TornadoInsertPlaceholders | storm_database.py:104-110 | the tornado INSERT supplies 27 placeholders |
| InsertStatements.HailInsertPlaceholders | storm_database.py:143-148 | the hail INSERT supplies 23 placeholders |
| InsertStatements.CorrectedHailInsertPlaceholders | storm_database.py:141-148 | the corrected hail INSERT supplies 24 |
| TableDefinitions.DateColumnNames | storm_database.py:59-60 | the date indices are below the column counts and name DATE (and END_DATE for tornado) |
| TableDefinitions.DefinitionsEntries | storm_database.py:19-151 | the definitions name wind, tornado and hail; the correction changes only hail |
| TableDefinitions.InsertPlaceholdersAsWritten | storm_database.py:141-148 | wind and tornado INSERTs match their tables; hail's supplies 23 for 24 columns |
| TableDefinitions.CorrectedInsertsMatch | storm_database.py:141-148 | with the corrected hail INSERT every INSERT matches its table |
| StormDatabase.CreateTableResult | storm_database.py:170-182 | KeyError exactly for an unknown name; otherwise the named table exists (empty if new) and no other table changes |
| StormDatabase.ConvertDates | storm_database.py:218-219 | only the date cells change, each to its converted value |
| StormDatabase.PrepareRow | storm_database.py:217-221 | a prepared record keeps the record's width |
| StormDatabase.DateLoopPrepares | storm_database.py:217-219 | the date loop over a record's cells converts each date cell exactly once and keeps every other cell |
| StormDatabase.FirstWrongWidth | storm_database.py:210-215 | no error exactly when every record has the width |
| StormDatabase.PrepareRows | storm_database.py:209-221 | succeeds exactly when every record has the table's width, then with one prepared row per record, in order |
| StormDatabase.PrepareRowsFirstWrongWidth | storm_database.py:210-215 | the first record of the wrong width raises, numbered from the row number given |
| StormDatabase.StoreRow | storm_database.py:223 | a stored row has one value per column, no number in a TEXT column, NULL exactly for None cells |
| StormDatabase.ExecuteMany | storm_database.py:223 | succeeds exactly when the table exists and the placeholders match its columns and the rows; then it appends exactly the stored rows, in order, after the old ones and changes nothing else |
| StormDatabase.Load | storm_database.py:184-224 | KeyError for an unknown table, StopIteration for a file without header; on success only the named table grows, by the stored rows of the prepared data records, in file order |
| StormDatabase.LoadRejectsFirstWrongWidth | storm_database.py:210-215 | the first data record of the wrong width raises the ValueError naming the table, its row number (from 2), the path and both widths |
| StormDatabase.LoadAppendsEveryRecord | storm_database.py:209-223 | well-formed records are all appended, in file order, dates converted, under the columns' affinities |
| StormDatabase.LoadPreservesConformance | storm_database.py:223 | a load keeps every row as wide as its table and no number in a TEXT column |
| StormDatabase.HailLoadAlwaysFails | storm_database.py:141-148 | loading hail with the definitions as written always fails, with the values-count error for a file of well-formed rows |
| StormDatabase.CorrectedLoadSucceeds | storm_database.py:141-148 | with the corrected definitions, creating any table and loading well-formed rows into it succeeds |
| StormDatabase.ConvertRecordDates | storm_database.py:218-219 | the date loop yields the prepared record |
| StormDatabase.CollectRows | storm_database.py:209-221 | the row loop yields exactly what `PrepareRows` specifies, including the first width error |
| StormDatabase.Database.constructor | storm_database.py:155-168 | with `recreate` the database starts empty, otherwise it holds the file's tables; the definitions are a parameter (`TableDefinitions.Definitions` as written) |
| StormDatabase.Database.CreateTable | storm_database.py:170-182 | the new tables are `CreateTableResult`'s, or unchanged on the error it reports |
| StormDatabase.Database.LoadCsvIntoTable | storm_database.py:184-224 | the new tables are `Load`'s, or unchanged on the error it reports |
| Sql.LessTransitive | wind_sql.py:53 | SQLite's value order is transitive |
| Sql.LessTrichotomy | wind_sql.py:53 | SQLite's value order is total |
| Sql.CaseValueMatch | tornado_sql.py:61-69 | CASE yields the result of the first WHEN equal to the operand |
| Sql.CaseValueNoMatch | tornado_sql.py:61-69 | CASE without ELSE yields NULL when no WHEN matches |
| Sql.BetweenHolds | wind_sql.py:30-31 | `col >= lo AND col <= hi` holds exactly for a non-NULL cell between the bounds |
| Sql.TextRangeHolds | wind_sql.py:30-31 | with text bounds, the range test holds exactly for a text cell between them |
| Sql.CountWhereCardinality | wind_sql.py:27-32 | COUNT(*) with a WHERE is the number of rows that satisfy it |
| Sql.CountWhereMonotone | wind_sql.py:27-32 | a weaker WHERE never counts fewer rows |
| Sql.CountWhereSplit | tornado_sql.py:58-72 | a WHERE that is the disjoint union of two counts their sum |
| Sql.CountTextRangeWidens | wind_sql.py:30-31 | a wider text range never counts fewer rows |
| Sql.SortDesc | wind_sql.py:53 | the rows in non-increasing key order, a permutation of the input |
| Sql.LimitCount | wind_sql.py:54 | the number of rows `LIMIT` keeps: all for a negative limit, otherwise at most the limit |
| Sql.OrderByDescLimit | tornado_sql.py:126-129 | as many rows as the limit allows, drawn from the table, non-increasing, none left out above one kept |
| Sql.TopWhere | wind_sql.py:49-54 | as many matching rows as the limit allows, drawn from the table, non-increasing, no matching row left out above one kept |
| Sql.GroupByCount | wind_sql.py:86-89 | groups in ascending key order, each key once; a value is a key exactly when some row has it; each counts its rows; counts sum to the row count |
| Sql.OneKeyOneGroup | tornado_sql.py:84-87 | rows sharing one key make a single group counting them all |
| Sql.Ratio100Bounds | wind_sql.py:132 | the percentage lies in 0..100, 100 when all rows qualify, 0 when none do |
| Sql.Ratio100Monotone | wind_sql.py:132 | more qualifying rows never give a smaller percentage |
| DateKeys.StrftimeKeys | wind_sql.py:86 | strftime gives NULL or a month `01`..`12` (year `0001`..`9999`), NULL for both together |
| DateKeys.StrftimeOfStoredDate | wind_sql.py:86 | on a stored date strftime gives that date's padded month and year |
| DateKeys.StoredDateGroups | wind_sql.py:86-89 | a row with a stored date is in the group of its month and of its year |
| DateKeys.SubstrOfStoredDate | tornado_sql.py:84 | on a stored date `substr(DATE,1,2)` is the century digits and `substr(DATE,7,4)` the month's last digit, a dash and the day |
| DateKeys.SubstrMonthIgnoresMonth | tornado_sql.py:84 | dates of one century share one `substr(DATE,1,2)` key whatever their month |
| DateKeys.StoredDateKeysExample | tornado_sql.py:84 | 17 May 2000 gets substr keys `20` and `5-17`, strftime keys `05` and `2000` |
| DateKeys.StrftimeBreakdown | wind_sql.py:86-89 | groups ascending, keys NULL or month (year) keys, each counting its rows, every row's key a group, counts summing to the row count |
| DateKeys.SubstrBreakdown | tornado_sql.py:84-87 | as above with substr keys of at most the substring's length |
| WindSql.CountWindGusts | wind_sql.py:14-34 | the number of rows with a magnitude at least the knots (or a text) and DATE in the range |
| WindSql.CountWindGustsAntitone | wind_sql.py:29 | a higher threshold never counts more |
| WindSql.CountWindGustsWidens | wind_sql.py:30-31 | a wider date range never counts fewer |
| WindSql.BlankMagnitudeAlwaysCounted | wind_sql.py:29 | a blank magnitude in range is counted at every threshold |
| WindSql.GetTopPropertyDamage | wind_sql.py:36-56 | the rows in range, as many as the limit allows, by damage descending; none in range left out above one kept |
| WindSql.BlankDamageComesFirst | wind_sql.py:53 | a blank damage in range puts a blank-damage row first |
| WindSql.TopDamageBounds | wind_sql.py:53 | the first row's damage is at least that of every row in range |
| WindSql.GetPercentileRank | wind_sql.py:58-76 | 0.0 for an empty table, else 100 times the share of rows with a magnitude below the value; within 0..100 |
| WindSql.GetPercentileRankMonotone | wind_sql.py:68-76 | a larger gust never ranks lower |
| WindSql.MonthlyBreakdown | wind_sql.py:78-91 | groups ascending: NULL, then months `01`..`12`, each counting its rows, counts summing to the row count |
| WindSql.YearlyBreakdown | wind_sql.py:93-106 | the same by year `0001`..`9999` |
| WindSql.PercentOfEventsInTimeRange | wind_sql.py:108-132 | 0.0 for an empty table, else 100 times the share of rows whose BEGIN_TIME is in the range; within 0..100 |
| WindSql.PercentOfEventsInTimeRangeWidens | wind_sql.py:124-132 | a wider time range never gives less |
| WindSql.PercentOfEventsAllInRange | wind_sql.py:124-132 | 100 when every BEGIN_TIME is in the range |
| TornadoSql.CountEfTornadoesExact | tornado_sql.py:15-31 | the number of rows whose label equals the rating and whose DATE is in the range |
| TornadoSql.ParseMinRating | tornado_sql.py:43-47 | -1 for EFU in any case, else the digit at index 2; IndexError exactly for texts under 3 characters; ValueError otherwise |
| TornadoSql.ParseDigitRating | tornado_sql.py:47 | a digit in third place is the rating, whatever precedes it |
| TornadoSql.ParseUnknownRating | tornado_sql.py:43-45 | `EFU` in any case reads as -1 |
| TornadoSql.ParseRejectsFujitaLabel | tornado_sql.py:47 | two-character labels such as `F1` raise IndexError |
| TornadoSql.ParseRejectsNonDigit | tornado_sql.py:47 | a non-digit third character raises ValueError |
| TornadoSql.RatingWhens | tornado_sql.py:61-69 | the seven WHENs map `EFU`, `EF0`..`EF5` to -1..5 |
| TornadoSql.EfRatingOf | tornado_sql.py:61-69 | a rating is -1..5 and belongs to its EF label |
| TornadoSql.RatingCaseValue | tornado_sql.py:61-69 | the CASE yields the EF number for exactly the seven labels, NULL otherwise |
| TornadoSql.CountAtLeast | tornado_sql.py:57-75 | the number of rows in range whose label is rated at least the number |
| TornadoSql.CountEfTornadoesAtLeast | tornado_sql.py:33-75 | the parse's exception exactly when the parse fails, otherwise the count at the parsed rating |
| TornadoSql.CountAtLeastAntitone | tornado_sql.py:70 | a higher minimum never counts more |
| TornadoSql.CountAtLeastAboveFive | tornado_sql.py:61-70 | a minimum above 5 counts nothing |
| TornadoSql.CountAtLeastStep | tornado_sql.py:61-70 | at-least-k is exactly-`EFk` plus at-least-k+1 |
| TornadoSql.ExactAtMostAtLeast | tornado_sql.py:15-75 | for each EF label the exact count is at most the at-least count |
| TornadoSql.AtLeastUnknownCountsEveryEfLabel | tornado_sql.py:43-45 | with `EFU` every row in range with one of the seven labels is counted |
| TornadoSql.MonthlyBreakdown | tornado_sql.py:78-89 | `substr(DATE,1,2)` groups ascending, keys of at most 2 characters, counts summing to the row count |
| TornadoSql.YearlyBreakdown | tornado_sql.py:91-102 | `substr(DATE,7,4)` groups, keys of at most 4 characters |
| TornadoSql.BreakdownOfOneStoredDate | tornado_sql.py:84-97 | one tornado of 17 May 2000 is reported under month `20` and year `5-17` |
| TornadoSql.CorrectedMonthlyBreakdown | tornado_sql.py:84 | strftime groups: NULL or months `01`..`12`, each counting its rows |
| TornadoSql.CorrectedYearlyBreakdown | tornado_sql.py:97 | strftime groups by year |
| TornadoSql.CorrectedBreakdownOfOneStoredDate | tornado_sql.py:84-97 | the corrected breakdowns report that tornado under `05` and `2000` |
| TornadoSql.CorrectedMonthlyGroupsByMonth | tornado_sql.py:84 | every stored date is counted under its own month |
| TornadoSql.CorrectedYearlyGroupsByYear | tornado_sql.py:97 | every stored date is counted under its own year |
| TornadoSql.TopPropertyDamage | tornado_sql.py:105-118 | the rows in range, as many as the limit allows, by damage descending; none in range left out above one kept |
| TornadoSql.TopTornadoLength | tornado_sql.py:121-132 | as many rows as the limit allows, by TOR_LENGTH descending; none left out longer than one kept |
| TornadoSql.PercentOfTornadoesBetweenTimes | tornado_sql.py:135-154 | 0.0 for an empty table, else 100 times the share with BEGIN_TIME in range; within 0..100 |
| TornadoSql.PercentBetweenTimesWidens | tornado_sql.py:146-154 | a wider time range never gives less |
| HailSql.CountHailAboveSize | hail_sql.py:6-19 | the number of rows with a size at least the minimum (or a text) and DATE in the range |
| HailSql.CountHailAboveSizeAntitone | hail_sql.py:14 | a larger minimum never counts more |
| HailSql.CountHailAboveSizeWidens | hail_sql.py:15-16 | a wider date range never counts fewer |
| HailSql.BlankSizeAlwaysCounted | hail_sql.py:14 | a blank size in range is counted at every minimum |
| HailSql.MonthlyBreakdown | hail_sql.py:21-31 | `substr(DATE,1,2)` groups ascending, every row's key a group, counts summing to the row count |
| HailSql.YearlyBreakdown | hail_sql.py:33-45 | `substr(DATE,7,4)` groups, likewise |
| HailSql.MonthlyBreakdownMergesMonths | hail_sql.py:26 | two stored dates of one century, whatever their months, make one group counting 2 |
| HailSql.BreakdownOfOneStoredDate | hail_sql.py:26-40 | one hail event of 17 May 2000 is reported under month `20` and year `5-17` |
| HailSql.TopPropertyDamage | hail_sql.py:47-59 | the rows in range, as many as the limit allows, by damage descending; none in range left out above one kept |
| HailSql.PercentOfHailInTimeRange | hail_sql.py:61-77 | the integer 0 exactly for an empty table, else the float 100 times the share with BEGIN_TIME in range, within 0..100 |
| HailSql.PercentInTimeRangeWidens | hail_sql.py:70-77 | a wider time range never gives less |
| Session.WithoutPrefix | ui_helper.py:25-27 | no key left starts with the prefix; every other entry kept; no key added |
| Session.WithoutPrefixIdempotent | ui_helper.py:25-27 | clearing twice equals clearing once |
| Session.WithoutEmptyPrefix | ui_helper.py:25-27 | clearing the empty prefix empties the store |
| Session.WithoutShorterPrefix | ui_helper_sql.py:20-22 | clearing a prefix subsumes clearing any longer prefix that extends it |
| Session.ClearThenSet | ui_helper.py:25-35 | clearing a dataset then storing a result leaves that result as the dataset's only entry, others unchanged |
| UiHelper.ClearDatasetKeys | ui_helper.py:25-27 | the store becomes the old store without the prefixed keys, whatever the snapshot's order |
| UiHelper.SetQueryResults | ui_helper.py:35 | the key now holds the result; nothing else changes |
| UiHelperSql.ClearDatasetKeys | ui_helper_sql.py:20-22 | the store becomes the old store without the prefixed keys |
| UiHelperSql.SetQueryResults | ui_helper_sql.py:29 | the key now holds the result; nothing else changes |

## Left out

- main.py, the Streamlit page that wires the helpers to widgets, is not part of this model.
- `show_and_download_results` in both UI helpers only renders tables, checkboxes and download buttons.
- `execute_query`, `close`, `sqlite3.connect`, `os.remove` and `commit` are database and file plumbing. The database is the map of its tables, and the constructor takes the file's previous contents as a parameter.
- StormDatabase.Database.constructor: it also takes the table definitions as a parameter, where the source reads the module constant `TABLE_DEFINITIONS`. This lets the corrected definitions be used. The source's own behaviour is the constructor called with `TableDefinitions.Definitions`.
- Opening the CSV file and `csv.reader`'s tokenisation are left out. A file is given as its records, already split into fields.
- The CREATE TABLE texts are reduced to each column's name and declared type. The INSERT texts keep only their placeholders and the words around them.
- Python float arithmetic: percentages are exact rational numbers.
- Queries on a table that was never created (SQLite's OperationalError) are left out: each query takes the table's rows.
- Exception messages: `WrongWidth` carries the values the ValueError text is made from, not the text itself.
- Sql.StrftimeValue: only NULL and real `YYYY-MM-DD` calendar dates are read as dates, and every other text gives NULL. Those are the only values the loader stores in DATE. SQLite's other time-value forms (times of day, Julian day numbers, modifiers) are left out.
- Affinity.ApplyAffinity: SQLite's INTEGER and REAL storage classes are both numbers, and overflow to infinity is not modelled. A hexadecimal text such as `0x1A` is not a well-formed number and stays TEXT, as in SQLite. A stored number is the exact decimal the text denotes, not the nearest IEEE double SQLite keeps, so a comparison within one rounding step of a threshold can differ: `49.99999999999999999` rounds to 50.0 in SQLite and passes `>= 50`, but not in the model (this affects WindSql.CountWindGusts and HailSql.CountHailAboveSize).
- IsoDate.ConvertToIsoDate: the date fields accept ASCII digits only. The `\d` of strptime's day and year patterns also matches other Unicode decimal digits, which `int()` converts, so a text such as `01/01/٢٠٠٠` gives `2000-01-01` in Python but None in the model.
- TornadoSql.ParseMinRating: `upper()` and `int()` are modelled on ASCII. A non-ASCII digit that Python's `int` accepts is a ValueError in the model.
- Numeric query parameters (`min_knots`, `min_size`, `gust_knots`) are numbers. A text passed in their place is not modelled.
- UiHelper.ClearDatasetKeys: the snapshot is the set of keys, taken in an unspecified order, rather than the dict's insertion order. The result is proved independent of that order.
- Session.SessionState: the stored DataFrames are opaque values, and widget entries that Streamlit itself keeps are not distinguished from them.

## Findings

| source | as written | input that shows it | evidently intended | confidence | as-written member | corrected member |
|---|---|---|---|---|---|---|
| storm_database.py:143-148 | the hail INSERT has 23 `?` for a table of 24 columns, so SQLite refuses to prepare it and every hail load raises | any hail CSV, e.g. a header and one row of 24 fields | 24 placeholders, one per column | high (not executed) | StormDatabase.HailLoadAlwaysFails | StormDatabase.CorrectedLoadSucceeds |
| tornado_sql.py:84 | `substr(DATE,1,2)` reads the month places of `MM/DD/YYYY`, but DATE is stored as `YYYY-MM-DD`, so the key is the century | a tornado on 05/17/2000 (stored 2000-05-17) is reported under month `20` | `strftime('%m', DATE)`, as wind_sql.py groups | high (not executed) | TornadoSql.BreakdownOfOneStoredDate | TornadoSql.CorrectedMonthlyBreakdown |
| tornado_sql.py:97 | `substr(DATE,7,4)` on a stored ISO date is the month's last digit, a dash and the day | the same tornado is reported under year `5-17` | `strftime('%Y', DATE)` | high (not executed) | TornadoSql.BreakdownOfOneStoredDate | TornadoSql.CorrectedYearlyBreakdown |
| hail_sql.py:26 | the same `substr(DATE,1,2)` month key: all events of one century share one group | hail on 05/17/2000 and 07/04/2000 are one group `20` counting 2 | `strftime('%m', DATE)` | high (not executed) | HailSql.MonthlyBreakdownMergesMonths | DateKeys.StrftimeBreakdown |
| hail_sql.py:40 | the same `substr(DATE,7,4)` year key | hail on 05/17/2000 is reported under year `5-17` | `strftime('%Y', DATE)` | high (not executed) | HailSql.BreakdownOfOneStoredDate | DateKeys.StrftimeBreakdown |
