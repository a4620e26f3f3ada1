/**
 * `StormDatabase` of storm_database.py: creating a table from its definition
 * and loading a CSV file into it.
 *
 * The database is the map from table name to table that SQLite holds; the
 * CSV file is given already split into records (`csv.reader`'s output), the
 * first of which is the header. A load looks the table up in the
 * definitions, checks every data row's width, rewrites its date cells to ISO
 * dates, and only after the last row hands all rows to `executemany`, so a
 * load either appends every data row or changes nothing.
 */
module StormDatabase {
  import opened Wrappers
  import opened Sql
  import opened Affinity
  import opened IsoDate
  import opened InsertStatements
  import opened TableDefinitions

  /** A cell handed to `executemany`: the CSV text, or None for a date that did not convert. */
  type Cell = Option<string>

  /** A table: its declared columns and its stored rows, in insertion order. */
  datatype Table = Table(columns: seq<ColumnDecl>, rows: seq<Row>)

  /** The exceptions a load can raise. */
  datatype LoadError =
    | UnknownTable(tableName: string)               // KeyError from TABLE_DEFINITIONS
    | MissingHeader(csvPath: string)                // StopIteration from next(reader)
    | WrongWidth(tableName: string, rowNum: nat, csvPath: string,
                 actual: nat, expected: nat, row: seq<string>)   // ValueError
    | NoSuchTable(tableName: string)                // OperationalError when preparing the INSERT
    | ValuesCount(tableName: string, columns: nat, values: nat) // OperationalError: columns vs values
    | BindingCount(uses: nat, supplied: nat)        // ProgrammingError: placeholders vs row width

  /**
   * What every SQLite table satisfies: each row has one value per column,
   * and a TEXT column never stores a number.
   */
  predicate Conforms(t: Table) {
    forall r: Row :: r in t.rows ==>
      |r| == |t.columns|
      && forall j :: 0 <= j < |r| && t.columns[j].affinity == TextAffinity ==> !r[j].Num?
  }

  predicate AllConform(tables: map<string, Table>) {
    forall name :: name in tables ==> Conforms(tables[name])
  }

  /**
   * `create_table`: a KeyError for a name without a definition; otherwise
   * CREATE TABLE IF NOT EXISTS adds an empty table with the declared columns,
   * or leaves an existing table alone.
   */
  function CreateTableResult(defs: map<string, TableDef>, tables: map<string, Table>, tableName: string)
    : (r: Result<map<string, Table>, LoadError>)
    ensures r.Failure? <==> tableName !in defs
    ensures r.Failure? ==> r.error == UnknownTable(tableName)
    ensures r.Success? ==> r.value.Keys == tables.Keys + {tableName}
    ensures r.Success? ==> forall name :: name in tables ==> r.value[name] == tables[name]
    ensures r.Success? && tableName !in tables ==> r.value[tableName] == Table(defs[tableName].columns, [])
  {
    if tableName !in defs then Failure(UnknownTable(tableName))
    else if tableName in tables then Success(tables)
    else Success(tables[tableName := Table(defs[tableName].columns, [])])
  }

  /** The cells of a CSV record, as the Python list `row` holds them before any rewriting. */
  function Cells(record: seq<string>): (r: seq<Cell>)
    ensures |r| == |record|
    ensures forall j :: 0 <= j < |r| ==> r[j] == Some(record[j])
  {
    seq(|record|, j requires 0 <= j < |record| => Some(record[j]))
  }

  /** `for dc in date_columns: row[dc] = convert_to_iso_date(row[dc])`, in list order. */
  function ConvertDates(row: seq<Cell>, dateColumns: seq<nat>): (r: seq<Cell>)
    requires forall k :: 0 <= k < |dateColumns| ==> dateColumns[k] < |row|
    ensures |r| == |row|
    ensures forall j :: 0 <= j < |row| && j !in dateColumns ==> r[j] == row[j]
    decreases |dateColumns|
  {
    if dateColumns == [] then row
    else
      var dc := dateColumns[0];
      assert forall k :: 0 <= k < |dateColumns[1..]| ==> dateColumns[1..][k] == dateColumns[k + 1];
      ConvertDates(row[dc := ConvertToIsoDate(row[dc])], dateColumns[1..])
  }

  /**
   * With distinct date columns, each date cell ends up as the conversion of
   * its original text.
   */
  lemma {:induction false} ConvertDatesRewrites(row: seq<Cell>, dateColumns: seq<nat>)
    requires forall k :: 0 <= k < |dateColumns| ==> dateColumns[k] < |row|
    requires forall k, l :: 0 <= k < l < |dateColumns| ==> dateColumns[k] != dateColumns[l]
    ensures forall k :: 0 <= k < |dateColumns| ==>
              ConvertDates(row, dateColumns)[dateColumns[k]] == ConvertToIsoDate(row[dateColumns[k]])
    decreases |dateColumns|
  {
    if dateColumns != [] {
      var dc := dateColumns[0];
      var rest := dateColumns[1..];
      var row' := row[dc := ConvertToIsoDate(row[dc])];
      assert forall k :: 0 <= k < |rest| ==> rest[k] == dateColumns[k + 1];
      ConvertDatesRewrites(row', rest);
      assert dc !in rest by {
        forall k | 0 <= k < |rest| ensures rest[k] != dc { assert dateColumns[k + 1] != dateColumns[0]; }
      }
      assert ConvertDates(row, dateColumns) == ConvertDates(row', rest);
    }
  }

  /**
   * A width-checked CSV record with its date cells converted: each cell
   * named in `date_columns` becomes the conversion of its text, every other
   * cell keeps its text.
   */
  function PrepareRow(def: TableDef, record: seq<string>): (r: seq<Cell>)
    requires DateColumnsWellPlaced(def) && |record| == def.numColumns
    ensures |r| == def.numColumns
  {
    seq(|record|, j requires 0 <= j < |record| =>
      if j in def.dateColumns then ConvertToIsoDate(Some(record[j])) else Some(record[j]))
  }

  /**
   * The date loop over a record's cells converts each date cell exactly once
   * (the date columns are distinct) and leaves the others alone: it prepares
   * the record.
   */
  lemma DateLoopPrepares(def: TableDef, record: seq<string>)
    requires DateColumnsWellPlaced(def) && |record| == def.numColumns
    ensures ConvertDates(Cells(record), def.dateColumns) == PrepareRow(def, record)
  {
    var looped := ConvertDates(Cells(record), def.dateColumns);
    ConvertDatesRewrites(Cells(record), def.dateColumns);
    forall j | 0 <= j < |record| && j in def.dateColumns
      ensures looped[j] == ConvertToIsoDate(Some(record[j]))
    {
      var k :| 0 <= k < |def.dateColumns| && def.dateColumns[k] == j;
    }
  }

  /**
   * The width check of the row loop over the data records, the first
   * numbered `rowNum`: the ValueError for the first record whose width is
   * not `width`, or None when every record has it.
   */
  function FirstWrongWidth(tableName: string, csvPath: string, width: nat, records: seq<seq<string>>, rowNum: nat)
    : (r: Option<LoadError>)
    ensures r.None? <==> forall m :: 0 <= m < |records| ==> |records[m]| == width
    decreases |records|
  {
    if records == [] then None
    else if |records[0]| != width then Some(WrongWidth(tableName, rowNum, csvPath, |records[0]|, width, records[0]))
    else
      assert forall m :: 0 <= m < |records[1..]| ==> records[1..][m] == records[m + 1];
      FirstWrongWidth(tableName, csvPath, width, records[1..], rowNum + 1)
  }

  /** Every record of the table's width, prepared, in order. */
  function PrepareAll(def: TableDef, records: seq<seq<string>>): (r: seq<seq<Cell>>)
    requires DateColumnsWellPlaced(def)
    requires forall m :: 0 <= m < |records| ==> |records[m]| == def.numColumns
    ensures |r| == |records|
    ensures forall m :: 0 <= m < |r| ==> |r[m]| == def.numColumns
  {
    seq(|records|, m requires 0 <= m < |records| => PrepareRow(def, records[m]))
  }

  /**
   * The row loop of `load_csv_into_table` over the data records, the first
   * numbered `rowNum`: the first record of the wrong width raises, and
   * otherwise every record is prepared, in order. Preparing a record never
   * raises, so checking every width before preparing any record gives the
   * loop's outcome.
   */
  function PrepareRows(tableName: string, csvPath: string, def: TableDef, records: seq<seq<string>>, rowNum: nat)
    : (r: Result<seq<seq<Cell>>, LoadError>)
    requires DateColumnsWellPlaced(def)
    ensures r.Success? <==> forall m :: 0 <= m < |records| ==> |records[m]| == def.numColumns
    ensures r.Success? ==>
              |r.value| == |records|
              && forall m :: 0 <= m < |records| ==>
                   |records[m]| == def.numColumns && r.value[m] == PrepareRow(def, records[m])
  {
    match FirstWrongWidth(tableName, csvPath, def.numColumns, records, rowNum)
    case Some(e) => Failure(e)
    case None => Success(PrepareAll(def, records))
  }

  /** The first record of the wrong width is the one the row loop reports, numbered from `rowNum`. */
  lemma PrepareRowsFirstWrongWidth(tableName: string, csvPath: string, def: TableDef,
                                   records: seq<seq<string>>, rowNum: nat, m: nat)
    requires DateColumnsWellPlaced(def)
    requires m < |records| && |records[m]| != def.numColumns
    requires forall p :: 0 <= p < m ==> |records[p]| == def.numColumns
    ensures PrepareRows(tableName, csvPath, def, records, rowNum)
         == Failure(WrongWidth(tableName, rowNum + m, csvPath, |records[m]|, def.numColumns, records[m]))
  {
    FirstWrongWidthAt(tableName, csvPath, def.numColumns, records, rowNum, m);
  }

  lemma {:induction false} FirstWrongWidthAt(tableName: string, csvPath: string, width: nat,
                                             records: seq<seq<string>>, rowNum: nat, m: nat)
    requires m < |records| && |records[m]| != width
    requires forall p :: 0 <= p < m ==> |records[p]| == width
    ensures FirstWrongWidth(tableName, csvPath, width, records, rowNum)
         == Some(WrongWidth(tableName, rowNum + m, csvPath, |records[m]|, width, records[m]))
    decreases m
  {
    if m > 0 {
      assert records[1..][m - 1] == records[m];
      TailWidths(records, m, width);
      FirstWrongWidthAt(tableName, csvPath, width, records[1..], rowNum + 1, m - 1);
    }
  }

  lemma TailWidths(records: seq<seq<string>>, m: nat, width: nat)
    requires 0 < m <= |records|
    requires forall p :: 0 <= p < m ==> |records[p]| == width
    ensures forall p :: 0 <= p < m - 1 ==> |records[1..][p]| == width
  {
    forall p | 0 <= p < m - 1 ensures |records[1..][p]| == width {
      assert records[1..][p] == records[p + 1];
    }
  }

  /** The values SQLite stores for one bound row, column by column. */
  function StoreRow(columns: seq<ColumnDecl>, cells: seq<Cell>): (r: Row)
    requires |cells| == |columns|
    ensures |r| == |columns|
    ensures forall j :: 0 <= j < |r| && columns[j].affinity == TextAffinity ==> !r[j].Num?
    ensures forall j :: 0 <= j < |r| ==> (r[j] == Null <==> cells[j].None?)
  {
    seq(|cells|, j requires 0 <= j < |cells| => ApplyAffinity(columns[j].affinity, cells[j]))
  }

  function StoreRows(columns: seq<ColumnDecl>, rows: seq<seq<Cell>>): (r: seq<Row>)
    requires forall m :: 0 <= m < |rows| ==> |rows[m]| == |columns|
    ensures |r| == |rows|
    ensures forall m :: 0 <= m < |r| ==> r[m] == StoreRow(columns, rows[m])
  {
    seq(|rows|, m requires 0 <= m < |rows| => StoreRow(columns, rows[m]))
  }

  /**
   * `executemany(insert_sql, to_insert)`: preparing the INSERT fails for a
   * missing table or a placeholder count other than the table's column
   * count; binding fails for rows whose width is not the placeholder count;
   * otherwise every row is appended.
   */
  function ExecuteMany(tables: map<string, Table>, tableName: string, insertSql: string,
                       width: nat, toInsert: seq<seq<Cell>>)
    : (r: Result<map<string, Table>, LoadError>)
    requires forall m :: 0 <= m < |toInsert| ==> |toInsert[m]| == width
    ensures r.Success? <==>
              tableName in tables && CountPlaceholders(insertSql) == |tables[tableName].columns|
              && (toInsert == [] || width == CountPlaceholders(insertSql))
    ensures r.Success? ==>
              r.value.Keys == tables.Keys
              && (forall name :: name in tables && name != tableName ==> r.value[name] == tables[name])
              && r.value[tableName].columns == tables[tableName].columns
              && |r.value[tableName].rows| == |tables[tableName].rows| + |toInsert|
              && r.value[tableName].rows[..|tables[tableName].rows|] == tables[tableName].rows
              && r.value[tableName].rows[|tables[tableName].rows|..] == StoreRows(tables[tableName].columns, toInsert)
  {
    if tableName !in tables then Failure(NoSuchTable(tableName))
    else
      var t := tables[tableName];
      var n := CountPlaceholders(insertSql);
      if n != |t.columns| then Failure(ValuesCount(tableName, |t.columns|, n))
      else if toInsert != [] && width != n then Failure(BindingCount(n, width))
      else
        var rows := t.rows + StoreRows(t.columns, toInsert);
        assert rows[..|t.rows|] == t.rows;
        assert rows[|t.rows|..] == StoreRows(t.columns, toInsert);
        Success(tables[tableName := Table(t.columns, rows)])
  }

  /**
   * `load_csv_into_table(csv_path, table_name)` on the records of the file:
   * the table's definition, then the header, then the row loop, then
   * `executemany`.
   */
  function Load(defs: map<string, TableDef>, tables: map<string, Table>, csvPath: string,
                csvRows: seq<seq<string>>, tableName: string)
    : (r: Result<map<string, Table>, LoadError>)
    requires WellFormedDefinitions(defs)
    ensures tableName !in defs ==> r == Failure(UnknownTable(tableName))
    ensures tableName in defs && csvRows == [] ==> r == Failure(MissingHeader(csvPath))
    ensures r.Success? ==>
              r.value.Keys == tables.Keys && tableName in tables
              && (forall name :: name in tables && name != tableName ==> r.value[name] == tables[name])
              && r.value[tableName].columns == tables[tableName].columns
              && CountPlaceholders(defs[tableName].insertSql) == |tables[tableName].columns|
              && |r.value[tableName].rows| == |tables[tableName].rows| + |csvRows| - 1
              && r.value[tableName].rows[..|tables[tableName].rows|] == tables[tableName].rows
    ensures r.Success? ==>
              tableName in defs && csvRows != [] && PrepareRows(tableName, csvPath, defs[tableName], csvRows[1..], 2).Success?
              && (csvRows == [csvRows[0]] || defs[tableName].numColumns == |tables[tableName].columns|)
              && r.value[tableName].rows[|tables[tableName].rows|..]
                 == StoreRows(tables[tableName].columns, PrepareRows(tableName, csvPath, defs[tableName], csvRows[1..], 2).value)
  {
    if tableName !in defs then Failure(UnknownTable(tableName))
    else if csvRows == [] then Failure(MissingHeader(csvPath))
    else
      var def := defs[tableName];
      match PrepareRows(tableName, csvPath, def, csvRows[1..], 2)
      case Failure(e) => Failure(e)
      case Success(toInsert) => ExecuteMany(tables, tableName, def.insertSql, def.numColumns, toInsert)
  }

  /**
   * A data record of the wrong width, the first such, makes the load raise
   * the ValueError that names the table, the record's row number (the first
   * data row is 2), the path, and both widths; nothing is stored.
   */
  lemma LoadRejectsFirstWrongWidth(defs: map<string, TableDef>, tables: map<string, Table>, csvPath: string,
                                   csvRows: seq<seq<string>>, tableName: string, k: nat)
    requires WellFormedDefinitions(defs) && tableName in defs
    requires 1 <= k < |csvRows| && |csvRows[k]| != defs[tableName].numColumns
    requires forall p :: 1 <= p < k ==> |csvRows[p]| == defs[tableName].numColumns
    ensures Load(defs, tables, csvPath, csvRows, tableName)
         == Failure(WrongWidth(tableName, k + 1, csvPath, |csvRows[k]|, defs[tableName].numColumns, csvRows[k]))
  {
    var records := csvRows[1..];
    assert records[k - 1] == csvRows[k];
    forall p | 0 <= p < k - 1 ensures |records[p]| == defs[tableName].numColumns {
      assert records[p] == csvRows[p + 1];
    }
    PrepareRowsFirstWrongWidth(tableName, csvPath, defs[tableName], records, 2, k - 1);
    LoadPassesRowFailure(defs, tables, csvPath, csvRows, tableName);
  }

  /** A failure of the row loop is the failure of the load. */
  lemma LoadPassesRowFailure(defs: map<string, TableDef>, tables: map<string, Table>, csvPath: string,
                             csvRows: seq<seq<string>>, tableName: string)
    requires WellFormedDefinitions(defs) && tableName in defs && csvRows != []
    requires PrepareRows(tableName, csvPath, defs[tableName], csvRows[1..], 2).Failure?
    ensures Load(defs, tables, csvPath, csvRows, tableName)
         == Failure(PrepareRows(tableName, csvPath, defs[tableName], csvRows[1..], 2).error)
  {
  }

  /**
   * When every data record has the table's width and the INSERT matches the
   * existing table, the load appends one row per data record, in file order:
   * each record with its date cells converted, stored under the columns'
   * affinities. Nothing else changes.
   */
  lemma LoadAppendsEveryRecord(defs: map<string, TableDef>, tables: map<string, Table>, csvPath: string,
                               csvRows: seq<seq<string>>, tableName: string)
    requires WellFormedDefinitions(defs) && tableName in defs && tableName in tables
    requires csvRows != []
    requires forall p :: 1 <= p < |csvRows| ==> |csvRows[p]| == defs[tableName].numColumns
    requires CountPlaceholders(defs[tableName].insertSql) == |tables[tableName].columns| == defs[tableName].numColumns
    ensures Load(defs, tables, csvPath, csvRows, tableName).Success?
    ensures var t := tables[tableName];
            var t' := Load(defs, tables, csvPath, csvRows, tableName).value[tableName];
            |t'.rows| == |t.rows| + |csvRows| - 1
            && t'.rows[..|t.rows|] == t.rows
            && forall m :: 1 <= m < |csvRows| ==>
                 t'.rows[|t.rows| + m - 1] == StoreRow(t.columns, PrepareRow(defs[tableName], csvRows[m]))
  {
    var def := defs[tableName];
    var records := csvRows[1..];
    assert forall p :: 0 <= p < |records| ==> records[p] == csvRows[p + 1];
    var r := PrepareRows(tableName, csvPath, def, records, 2);
    var t := tables[tableName];
    var t' := Load(defs, tables, csvPath, csvRows, tableName).value[tableName];
    assert t'.rows == t.rows + StoreRows(t.columns, r.value);
    forall m | 1 <= m < |csvRows|
      ensures t'.rows[|t.rows| + m - 1] == StoreRow(t.columns, PrepareRow(def, csvRows[m]))
    {
      assert records[m - 1] == csvRows[m];
      assert r.value[m - 1] == PrepareRow(def, records[m - 1]);
    }
  }

  /** A load keeps every table conforming: it stores rows of the table's width, TEXT columns holding no number. */
  lemma LoadPreservesConformance(defs: map<string, TableDef>, tables: map<string, Table>, csvPath: string,
                                 csvRows: seq<seq<string>>, tableName: string)
    requires WellFormedDefinitions(defs) && AllConform(tables)
    ensures Load(defs, tables, csvPath, csvRows, tableName).Success? ==>
              AllConform(Load(defs, tables, csvPath, csvRows, tableName).value)
  {
    var r := Load(defs, tables, csvPath, csvRows, tableName);
    if r.Success? {
      var def := defs[tableName];
      var toInsert := PrepareRows(tableName, csvPath, def, csvRows[1..], 2).value;
      var t := tables[tableName];
      var added := StoreRows(t.columns, toInsert);
      assert r.value == tables[tableName := Table(t.columns, t.rows + added)];
      StoredRowsConform(t, added);
    }
  }

  /** Rows as wide as the table with no number in a TEXT column keep it conforming. */
  lemma StoredRowsConform(t: Table, added: seq<Row>)
    requires Conforms(t)
    requires forall m :: 0 <= m < |added| ==>
               |added[m]| == |t.columns|
               && forall j :: 0 <= j < |added[m]| && t.columns[j].affinity == TextAffinity ==> !added[m][j].Num?
    ensures Conforms(Table(t.columns, t.rows + added))
  {
    forall row: Row | row in t.rows + added
      ensures |row| == |t.columns|
      ensures forall j :: 0 <= j < |row| && t.columns[j].affinity == TextAffinity ==> !row[j].Num?
    {
      if row !in t.rows {
        var m :| 0 <= m < |added| && added[m] == row;
      }
    }
  }

  /**
   * As written, loading hail always fails: into a hail table created from its
   * definition (or none at all), the 23-placeholder INSERT cannot be
   * prepared, so even a file of well-formed rows raises.
   */
  lemma HailLoadAlwaysFails(tables: map<string, Table>, csvPath: string, csvRows: seq<seq<string>>)
    requires "hail" !in tables || tables["hail"].columns == HailColumns
    ensures Load(Definitions, tables, csvPath, csvRows, "hail").Failure?
    ensures "hail" in tables && csvRows != [] && (forall p :: 1 <= p < |csvRows| ==> |csvRows[p]| == 24) ==>
              Load(Definitions, tables, csvPath, csvRows, "hail") == Failure(ValuesCount("hail", 24, 23))
  {
    DefinitionsAsWritten();
    InsertPlaceholdersAsWritten();
    if "hail" in tables && csvRows != [] && (forall p :: 1 <= p < |csvRows| ==> |csvRows[p]| == 24) {
      HailRowsFit(csvPath, csvRows);
    }
  }

  lemma HailRowsFit(csvPath: string, csvRows: seq<seq<string>>)
    requires csvRows != [] && forall p :: 1 <= p < |csvRows| ==> |csvRows[p]| == 24
    ensures DateColumnsWellPlaced(HailDef) && HailDef.numColumns == 24
    ensures PrepareRows("hail", csvPath, HailDef, csvRows[1..], 2).Success?
  {
    HailWellPlaced();
    assert forall p :: 0 <= p < |csvRows[1..]| ==> csvRows[1..][p] == csvRows[p + 1];
  }

  /**
   * With the corrected definitions, creating a table in a database that does
   * not have it yet and loading a file of well-formed rows into it succeeds,
   * for every table, hail included.
   */
  lemma CorrectedLoadSucceeds(tables: map<string, Table>, csvPath: string, csvRows: seq<seq<string>>, tableName: string)
    requires tableName in CorrectedDefinitions && tableName !in tables
    requires csvRows != []
    requires forall p :: 1 <= p < |csvRows| ==> |csvRows[p]| == CorrectedDefinitions[tableName].numColumns
    ensures CreateTableResult(CorrectedDefinitions, tables, tableName).Success?
    ensures Load(CorrectedDefinitions, CreateTableResult(CorrectedDefinitions, tables, tableName).value,
                 csvPath, csvRows, tableName).Success?
  {
    CorrectedInsertsMatch();
    var created := CreateTableResult(CorrectedDefinitions, tables, tableName).value;
    LoadAppendsEveryRecord(CorrectedDefinitions, created, csvPath, csvRows, tableName);
  }

  /**
   * The inner loop of `load_csv_into_table`: the record's cells, with each
   * date cell rewritten in place, in the order of `date_columns`.
   */
  method ConvertRecordDates(def: TableDef, record: seq<string>) returns (row: seq<Cell>)
    requires DateColumnsWellPlaced(def) && |record| == def.numColumns
    ensures row == PrepareRow(def, record)
  {
    var dateColumns := def.dateColumns;
    row := Cells(record);
    var d := 0;
    while d < |dateColumns|
      invariant 0 <= d <= |dateColumns|
      invariant |row| == def.numColumns
      invariant ConvertDates(row, dateColumns[d..]) == ConvertDates(Cells(record), dateColumns)
    {
      var dc := dateColumns[d];
      assert dateColumns[d..][1..] == dateColumns[d + 1..];
      row := row[dc := ConvertToIsoDate(row[dc])];
      d := d + 1;
    }
    DateLoopPrepares(def, record);
  }

  /**
   * The `with open(...)` block of `load_csv_into_table` after the header:
   * each data record, numbered from 2, is width-checked (the first bad one
   * raises) and has its date cells rewritten, then is appended to the
   * collected rows.
   */
  method CollectRows(tableName: string, csvPath: string, def: TableDef, records: seq<seq<string>>)
    returns (result: Result<seq<seq<Cell>>, LoadError>)
    requires DateColumnsWellPlaced(def)
    ensures result == PrepareRows(tableName, csvPath, def, records, 2)
  {
    var numCols := def.numColumns;
    var toInsert: seq<seq<Cell>> := [];
    var k := 0;
    while k < |records|
      invariant 0 <= k <= |records|
      invariant forall p :: 0 <= p < k ==> |records[p]| == numCols
      invariant toInsert == PrepareAll(def, records[..k])
    {
      var rowNum := 2 + k;
      if |records[k]| != numCols {
        PrepareRowsFirstWrongWidth(tableName, csvPath, def, records, 2, k);
        return Failure(WrongWidth(tableName, rowNum, csvPath, |records[k]|, numCols, records[k]));
      }
      var row := ConvertRecordDates(def, records[k]);
      PrepareAllSnoc(def, records, k);
      toInsert := toInsert + [row];
      k := k + 1;
    }
    assert records[..k] == records;
    return Success(toInsert);
  }

  /** Preparing one more record appends its prepared row. */
  lemma PrepareAllSnoc(def: TableDef, records: seq<seq<string>>, k: nat)
    requires DateColumnsWellPlaced(def)
    requires k < |records| && forall p :: 0 <= p <= k ==> |records[p]| == def.numColumns
    ensures PrepareAll(def, records[..k + 1]) == PrepareAll(def, records[..k]) + [PrepareRow(def, records[k])]
  {
    var before, after := records[..k], records[..k + 1];
    assert forall p :: 0 <= p < k ==> after[p] == before[p];
    assert after[k] == records[k];
  }

  /** The SQLite database of a `StormDatabase`: its tables by name. */
  class Database {
    const dbPath: string
    const defs: map<string, TableDef>
    var tables: map<string, Table>

    ghost predicate Valid()
      reads this
    {
      WellFormedDefinitions(defs) && AllConform(tables)
    }

    /**
     * Opens the database at `dbPath`. With `recreate` the existing file is
     * removed first, so the database starts empty; otherwise it holds what
     * the file `onDisk` held (no tables for a missing file).
     */
    constructor(dbPath: string, recreate: bool, onDisk: map<string, Table>, defs: map<string, TableDef>)
      requires WellFormedDefinitions(defs) && AllConform(onDisk)
      ensures Valid()
      ensures this.dbPath == dbPath && this.defs == defs
      ensures tables == (if recreate then map[] else onDisk)
    {
      this.dbPath := dbPath;
      this.defs := defs;
      tables := if recreate then map[] else onDisk;
    }

    /** `create_table(table_name)`. */
    method CreateTable(tableName: string) returns (outcome: Outcome<LoadError>)
      requires Valid()
      modifies this
      ensures Valid()
      ensures match CreateTableResult(defs, old(tables), tableName)
              case Success(t) => outcome == Pass && tables == t
              case Failure(e) => outcome == Fail(e) && tables == old(tables)
    {
      if tableName !in defs {
        return Fail(UnknownTable(tableName));
      }
      if tableName !in tables {
        tables := tables[tableName := Table(defs[tableName].columns, [])];
      }
      return Pass;
    }

    /**
     * `load_csv_into_table(csv_path, table_name)`, the file given as its
     * records. Each data row is width-checked and has its date cells
     * rewritten in place before it is collected; the collected rows are
     * inserted only after the loop.
     */
    method LoadCsvIntoTable(csvPath: string, csvRows: seq<seq<string>>, tableName: string)
      returns (outcome: Outcome<LoadError>)
      requires Valid()
      modifies this
      ensures Valid()
      ensures match Load(defs, old(tables), csvPath, csvRows, tableName)
              case Success(t) => outcome == Pass && tables == t
              case Failure(e) => outcome == Fail(e) && tables == old(tables)
    {
      LoadPreservesConformance(defs, tables, csvPath, csvRows, tableName);
      if tableName !in defs {
        return Fail(UnknownTable(tableName));
      }
      var def := defs[tableName];
      var numCols := def.numColumns;
      var insertSql := def.insertSql;
      if csvRows == [] {
        return Fail(MissingHeader(csvPath));
      }
      var records := csvRows[1..];

      var collected := CollectRows(tableName, csvPath, def, records);
      if collected.Failure? {
        return Fail(collected.error);
      }
      var toInsert := collected.value;

      if tableName !in tables {
        return Fail(NoSuchTable(tableName));
      }
      var table := tables[tableName];
      var placeholders := CountPlaceholders(insertSql);
      if placeholders != |table.columns| {
        return Fail(ValuesCount(tableName, |table.columns|, placeholders));
      }
      if toInsert != [] && numCols != placeholders {
        return Fail(BindingCount(placeholders, numCols));
      }
      tables := tables[tableName := Table(table.columns, table.rows + StoreRows(table.columns, toInsert))];
      return Pass;
    }
  }
}
