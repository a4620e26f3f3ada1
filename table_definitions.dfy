/**
 * The `insert_sql` texts of storm_database.py, kept without their layout
 * whitespace, and the number of `?` placeholders each supplies.
 */
module InsertStatements {

  /** One line of ten placeholders, as the INSERT texts are laid out. */
  const TenPlaceholders: string := "?,?,?,?,?,?,?,?,?,?,"

  const InsertInto: string := "INSERT INTO "
  const ValuesOpen: string := " VALUES ("

  const WindInsert: string :=
    InsertInto + "wind" + ValuesOpen + TenPlaceholders + TenPlaceholders + TenPlaceholders + "?,?,?,?" + ")"

  const TornadoInsert: string :=
    InsertInto + "tornado" + ValuesOpen + TenPlaceholders + TenPlaceholders + "?,?,?,?,?,?,?" + ")"

  const HailInsert: string :=
    InsertInto + "hail" + ValuesOpen + TenPlaceholders + TenPlaceholders + "?,?,?" + ")"

  /** The INSERT the hail table needs: one placeholder per declared column. */
  const CorrectedHailInsert: string :=
    InsertInto + "hail" + ValuesOpen + TenPlaceholders + TenPlaceholders + "?,?,?,?" + ")"

  /** The number of `?` placeholders in an SQL text. */
  function CountPlaceholders(sql: string): (n: nat)
    ensures n <= |sql|
  {
    if sql == [] then 0 else CountPlaceholders(sql[..|sql| - 1]) + (if sql[|sql| - 1] == '?' then 1 else 0)
  }

  /** The placeholder count is the multiplicity of `?` in the text. */
  lemma {:induction false} CountPlaceholdersIsMultiplicity(sql: string)
    ensures CountPlaceholders(sql) == multiset(sql)['?']
  {
    if sql != [] {
      CountPlaceholdersIsMultiplicity(sql[..|sql| - 1]);
      assert sql == sql[..|sql| - 1] + [sql[|sql| - 1]];
    }
  }

  lemma TenPlaceholdersCount()
    ensures multiset(TenPlaceholders)['?'] == 10
  {
  }

  /** The keywords and table names around the placeholders hold none. */
  lemma InsertIntoCount()
    ensures multiset(InsertInto)['?'] == 0
  {
    assert '?' !in "INSERT";
    assert InsertInto == "INSERT" + " INTO ";
  }

  lemma ValuesOpenCount()
    ensures multiset(ValuesOpen)['?'] == 0
  {
    assert '?' !in ValuesOpen;
  }

  lemma TableNamesCount()
    ensures multiset("wind")['?'] == 0 && multiset("tornado")['?'] == 0
    ensures multiset("hail")['?'] == 0
  {
    assert '?' !in "tornado";
  }

  lemma KeywordsHaveNoPlaceholder()
    ensures multiset(InsertInto)['?'] == 0 && multiset(ValuesOpen)['?'] == 0
    ensures multiset("wind")['?'] == 0 && multiset("tornado")['?'] == 0
    ensures multiset("hail")['?'] == 0
  {
    InsertIntoCount();
    ValuesOpenCount();
    TableNamesCount();
  }

  /** The wind INSERT supplies 34 placeholders. */
  lemma WindInsertPlaceholders()
    ensures CountPlaceholders(WindInsert) == 34
  {
    KeywordsHaveNoPlaceholder();
    TenPlaceholdersCount();
    CountPlaceholdersIsMultiplicity(WindInsert);
  }

  /** The tornado INSERT supplies 27 placeholders. */
  lemma TornadoInsertPlaceholders()
    ensures CountPlaceholders(TornadoInsert) == 27
  {
    KeywordsHaveNoPlaceholder();
    TenPlaceholdersCount();
    CountPlaceholdersIsMultiplicity(TornadoInsert);
  }

  /** The hail INSERT supplies 23 placeholders. */
  lemma HailInsertPlaceholders()
    ensures CountPlaceholders(HailInsert) == 23
  {
    KeywordsHaveNoPlaceholder();
    TenPlaceholdersCount();
    CountPlaceholdersIsMultiplicity(HailInsert);
  }

  /** The corrected hail INSERT supplies 24 placeholders. */
  lemma CorrectedHailInsertPlaceholders()
    ensures CountPlaceholders(CorrectedHailInsert) == 24
  {
    KeywordsHaveNoPlaceholder();
    TenPlaceholdersCount();
    CountPlaceholdersIsMultiplicity(CorrectedHailInsert);
  }

}

/**
 * `TABLE_DEFINITIONS` of storm_database.py: for each table, the columns its
 * CREATE TABLE declares, the column count rows must have, the indices of the
 * date columns the loader rewrites, and the INSERT statement it runs.
 *
 * The INSERT texts are kept without the layout whitespace of the source; only
 * their placeholders matter. The hail INSERT has 23 placeholders for a table
 * of 24 columns, which SQLite refuses to prepare; `CorrectedDefinitions`
 * gives it the 24 the table needs.
 */
module TableDefinitions {
  import opened Affinity
  import opened InsertStatements

  datatype ColumnDecl = ColumnDecl(name: string, affinity: ColumnAffinity)

  datatype TableDef = TableDef(
    columns: seq<ColumnDecl>,   // create_sql
    numColumns: nat,            // num_columns
    dateColumns: seq<nat>,      // date_columns
    insertSql: string)          // insert_sql

  function T(name: string): ColumnDecl { ColumnDecl(name, TextAffinity) }
  function R(name: string): ColumnDecl { ColumnDecl(name, RealAffinity) }
  function I(name: string): ColumnDecl { ColumnDecl(name, IntegerAffinity) }

  const WindColumns: seq<ColumnDecl> := [
    T("DATE"), T("CountyName"), R("MAGNITUDE (Knots)"), R("Converted to MPH"),
    T("BEGIN_LOCATION"), T("BEGIN_TIME"), I("DEATHS_DIRECT"), I("INJURIES_DIRECT"),
    R("DAMAGE_PROPERTY_NUM"), R("DAMAGE_CROPS_NUM"), T("CZ_TIMEZONE"), T("MAGNITUDE_TYPE"),
    T("EPISODE_ID"), T("CZ_TYPE"), T("CZ_FIPS"), T("WFO"), I("INJURIES_INDIRECT"),
    I("DEATHS_INDIRECT"), T("SOURCE"), T("FLOOD_CAUSE"), R("TOR_LENGTH"), R("TOR_WIDTH"),
    R("BEGIN_RANGE"), T("BEGIN_AZIMUTH"), R("END_RANGE"), T("END_AZIMUTH"),
    T("END_LOCATION"), T("END_TIME"), R("BEGIN_LAT"), R("BEGIN_LON"), R("END_LAT"),
    R("END_LON"), T("EVENT_NARRATIVE"), T("EPISODE_NARRATIVE")]

  const TornadoColumns: seq<ColumnDecl> := [
    T("DATE"), T("CountyName"), T("TOR_F_SCALE"), R("BEGIN_LAT"), R("BEGIN_LON"),
    R("END_LAT"), R("END_LON"), T("BEGIN_TIME"), I("DEATHS_DIRECT"), I("INJURIES_DIRECT"),
    R("DAMAGE_PROPERTY_NUM"), R("DAMAGE_CROPS_NUM"), T("CZ_TIMEZONE"), T("SOURCE"),
    R("TOR_LENGTH"), R("TOR_WIDTH"), I("BEGIN_RANGE"), T("BEGIN_AZIMUTH"), I("END_RANGE"),
    T("END_AZIMUTH"), T("BEGIN_LOCATION"), T("END_LOCATION"), T("END_DATE"), T("END_TIME"),
    T("EVENT_NARRATIVE"), T("EPISODE_NARRATIVE"), I("ABSOLUTE_ROWNUMBER")]

  const HailColumns: seq<ColumnDecl> := [
    T("DATE"), T("CountyName"), R("HAIL SIZE (INCHES)"), T("BEGIN_LOCATION"), T("BEGIN_TIME"),
    I("INJURIES_DIRECT"), R("DAMAGE_PROPERTY_NUM"), R("DAMAGE_CROPS_NUM"), T("CZ_TIMEZONE"),
    T("MAGNITUDE_TYPE"), T("CZ_FIPS"), T("WFO"), T("SOURCE"), T("FLOOD_CAUSE"), R("TOR_LENGTH"),
    R("TOR_WIDTH"), R("BEGIN_RANGE"), T("BEGIN_AZIMUTH"), R("END_RANGE"), T("END_AZIMUTH"),
    T("END_LOCATION"), T("END_TIME"), R("BEGIN_LAT"), R("BEGIN_LON")]

  const WindDef: TableDef := TableDef(WindColumns, 34, [0], WindInsert)
  const TornadoDef: TableDef := TableDef(TornadoColumns, 27, [0, 22], TornadoInsert)
  const HailDef: TableDef := TableDef(HailColumns, 24, [0], HailInsert)

  /** Definition maps whose every table is well placed. */
  type WellFormedDefs = defs: map<string, TableDef> | WellFormedDefinitions(defs) witness map[]

  /**
   * TABLE_DEFINITIONS, keyed by table name. In every definition, as written
   * and corrected, `num_columns` is the declared column count and the date
   * columns are distinct TEXT columns below it.
   */
  const Definitions: WellFormedDefs :=
    (WindWellPlaced(); TornadoWellPlaced(); HailWellPlaced();
     map["wind" := WindDef, "tornado" := TornadoDef, "hail" := HailDef])

  /** TABLE_DEFINITIONS with the hail INSERT given its missing placeholder. */
  const CorrectedDefinitions: WellFormedDefs :=
    (HailWellPlaced(); Definitions["hail" := HailDef.(insertSql := CorrectedHailInsert)])

  const CorrectedHailDef: TableDef := HailDef.(insertSql := CorrectedHailInsert)

  /**
   * `num_columns` is the declared column count, and the date columns are
   * distinct indices below it that name TEXT columns.
   */
  predicate DateColumnsWellPlaced(def: TableDef) {
    def.numColumns == |def.columns|
    && (forall k :: 0 <= k < |def.dateColumns| ==>
          def.dateColumns[k] < def.numColumns && def.columns[def.dateColumns[k]].affinity == TextAffinity)
    && (forall k, l :: 0 <= k < l < |def.dateColumns| ==> def.dateColumns[k] != def.dateColumns[l])
  }

  /** Every table of a definitions map is well placed. */
  predicate WellFormedDefinitions(defs: map<string, TableDef>) {
    forall name :: name in defs ==> DateColumnsWellPlaced(defs[name])
  }

  /** The INSERT binds one value per declared column. */
  predicate InsertMatchesTable(def: TableDef) {
    CountPlaceholders(def.insertSql) == |def.columns|
  }

  /** The date columns are DATE for wind and hail, and DATE and END_DATE for tornado. */
  lemma DateColumnNames()
    ensures forall k :: 0 <= k < |WindDef.dateColumns| ==> WindDef.dateColumns[k] < |WindColumns|
    ensures forall k :: 0 <= k < |HailDef.dateColumns| ==> HailDef.dateColumns[k] < |HailColumns|
    ensures forall k :: 0 <= k < |TornadoDef.dateColumns| ==> TornadoDef.dateColumns[k] < |TornadoColumns|
    ensures WindColumns[WindDef.dateColumns[0]].name == "DATE" && |WindDef.dateColumns| == 1
    ensures HailColumns[HailDef.dateColumns[0]].name == "DATE" && |HailDef.dateColumns| == 1
    ensures TornadoColumns[TornadoDef.dateColumns[0]].name == "DATE" && |TornadoDef.dateColumns| == 2
    ensures TornadoColumns[TornadoDef.dateColumns[1]].name == "END_DATE"
  {
    assert |WindColumns| == 34 && |TornadoColumns| == 27 && |HailColumns| == 24;
  }

  lemma WindWellPlaced()
    ensures DateColumnsWellPlaced(WindDef)
  {
    assert |WindColumns| == 34;
  }

  lemma TornadoWellPlaced()
    ensures DateColumnsWellPlaced(TornadoDef)
  {
    assert |TornadoColumns| == 27;
  }

  lemma HailWellPlaced()
    ensures DateColumnsWellPlaced(HailDef) && DateColumnsWellPlaced(CorrectedHailDef)
  {
    assert |HailColumns| == 24;
  }

  lemma WindInsertMatches()
    ensures InsertMatchesTable(WindDef)
  {
    WindInsertPlaceholders();
    assert |WindColumns| == 34;
  }

  lemma TornadoInsertMatches()
    ensures InsertMatchesTable(TornadoDef)
  {
    TornadoInsertPlaceholders();
    assert |TornadoColumns| == 27;
  }

  lemma CorrectedHailDefMatches()
    ensures InsertMatchesTable(CorrectedHailDef)
  {
    CorrectedHailInsertPlaceholders();
    assert |HailColumns| == 24;
  }

  /** The three table names are distinct texts. */
  lemma TableNamesDistinct()
    ensures "wind" != "tornado" && "wind" != "hail" && "tornado" != "hail"
  {
    assert "wind"[0] != "tornado"[0] && "wind"[0] != "hail"[0] && "tornado"[0] != "hail"[0];
  }

  /** TABLE_DEFINITIONS names the three tables; the correction changes only the hail entry. */
  lemma DefinitionsEntries()
    ensures Definitions.Keys == CorrectedDefinitions.Keys == {"wind", "tornado", "hail"}
    ensures Definitions["wind"] == CorrectedDefinitions["wind"] == WindDef
    ensures Definitions["tornado"] == CorrectedDefinitions["tornado"] == TornadoDef
    ensures Definitions["hail"] == HailDef && CorrectedDefinitions["hail"] == CorrectedHailDef
  {
    DefinitionsAsWritten();
  }

  lemma DefinitionsAsWritten()
    ensures Definitions.Keys == {"wind", "tornado", "hail"}
    ensures Definitions["wind"] == WindDef && Definitions["tornado"] == TornadoDef && Definitions["hail"] == HailDef
  {
    TableNamesDistinct();
  }

  /**
   * The wind and tornado INSERTs have one placeholder per column; the hail
   * INSERT has 23 for 24 columns.
   */
  lemma InsertPlaceholdersAsWritten()
    ensures InsertMatchesTable(WindDef) && CountPlaceholders(WindDef.insertSql) == WindDef.numColumns
    ensures InsertMatchesTable(TornadoDef) && CountPlaceholders(TornadoDef.insertSql) == TornadoDef.numColumns
    ensures !InsertMatchesTable(HailDef)
    ensures CountPlaceholders(HailDef.insertSql) == 23 && HailDef.numColumns == |HailDef.columns| == 24
  {
    WindInsertMatches();
    TornadoInsertMatches();
    HailInsertPlaceholders();
    assert |WindColumns| == 34 && |TornadoColumns| == 27 && |HailColumns| == 24;
  }

  /** With the corrected hail INSERT every table's INSERT matches its columns. */
  lemma CorrectedInsertsMatch()
    ensures forall name :: name in CorrectedDefinitions ==> InsertMatchesTable(CorrectedDefinitions[name])
  {
    DefinitionsEntries();
    WindInsertMatches();
    TornadoInsertMatches();
    CorrectedHailDefMatches();
  }
}
