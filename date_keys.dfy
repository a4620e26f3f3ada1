/**
 * The group keys the month and year breakdowns compute from the DATE cell,
 * the first column of all three tables.
 *
 * wind_sql.py groups by `strftime('%m', DATE)` and `strftime('%Y', DATE)`;
 * tornado_sql.py and hail_sql.py group by `substr(DATE, 1, 2)` and
 * `substr(DATE, 7, 4)`, the month and year places of an `MM/DD/YYYY` text.
 * The loader stores DATE as `YYYY-MM-DD` (or NULL), so there the substrings
 * are the century digits of the year and a month digit with the day.
 */
module DateKeys {
  import opened Sql
  import opened IsoDate

  /** DATE is column 0 of the wind, tornado and hail tables. */
  const DateCol: nat := 0

  const StrftimeMonth: Expr := Strftime(Month, Column(DateCol))
  const StrftimeYear: Expr := Strftime(Year, Column(DateCol))
  const SubstrMonth: Expr := Substr(Column(DateCol), 1, 2)
  const SubstrYear: Expr := Substr(Column(DateCol), 7, 4)

  /** `01` .. `12`, as strftime('%m') writes a month. */
  predicate IsMonthKey(s: string) {
    |s| == 2 && AllDigits(s) && 1 <= DecimalValue(s) <= 12
  }

  /** `0001` .. `9999`, as strftime('%Y') writes a year. */
  predicate IsYearKey(s: string) {
    |s| == 4 && AllDigits(s) && 1 <= DecimalValue(s) <= 9999
  }

  /**
   * strftime gives NULL or a month (year) key, and it gives NULL for the
   * month exactly when it gives NULL for the year: when the cell is not an
   * ISO date.
   */
  lemma StrftimeKeys(v: Value)
    ensures StrftimeValue(Month, v) == Null || (StrftimeValue(Month, v).Text? && IsMonthKey(StrftimeValue(Month, v).s))
    ensures StrftimeValue(Year, v) == Null || (StrftimeValue(Year, v).Text? && IsYearKey(StrftimeValue(Year, v).s))
    ensures StrftimeValue(Month, v) == Null <==> StrftimeValue(Year, v) == Null
  {
  }

  /** On a date the loader stored, strftime reads back that date's month and year. */
  lemma StrftimeOfStoredDate(d: Date)
    requires ValidDate(d)
    ensures StrftimeValue(Month, Text(Format(d))) == Text(Padded(d.month, 2))
    ensures StrftimeValue(Year, Text(Format(d))) == Text(Padded(d.year, 4))
    ensures DecimalValue(Padded(d.month, 2)) == d.month && DecimalValue(Padded(d.year, 4)) == d.year
  {
    FormatRoundTrip(d);
    assert Pow10(4) == 10000 && Pow10(2) == 100;
    PaddedValue(d.month, 2);
    PaddedValue(d.year, 4);
  }

  /** The keys of a row whose DATE is a stored date. */
  lemma StoredDateKeys(row: Row, d: Date)
    requires Cell(row, DateCol) == Text(Format(d))
    ensures ValidDate(d) ==> Eval(row, StrftimeMonth) == Text(Padded(d.month, 2))
    ensures ValidDate(d) ==> Eval(row, StrftimeYear) == Text(Padded(d.year, 4))
    ensures Eval(row, SubstrMonth) == Text(Padded(d.year, 4)[..2])
    ensures Eval(row, SubstrYear) == Text([Padded(d.month, 2)[1]] + "-" + Padded(d.day, 2))
  {
    if ValidDate(d) {
      StrftimeOfStoredDate(d);
    }
    SubstrOfStoredDate(d);
  }

  /** A row whose DATE is a stored calendar date is in the strftime group of that date's month and of its year. */
  lemma StoredDateGroups(rows: seq<Row>, j: nat, d: Date)
    requires j < |rows| && ValidDate(d) && Cell(rows[j], DateCol) == Text(Format(d))
    ensures StrftimeValue(Month, Cell(rows[j], DateCol)) == Text(Padded(d.month, 2))
    ensures StrftimeValue(Year, Cell(rows[j], DateCol)) == Text(Padded(d.year, 4))
    ensures j in RowsWithKey(rows, StrftimeMonth, Text(Padded(d.month, 2)))
    ensures j in RowsWithKey(rows, StrftimeYear, Text(Padded(d.year, 4)))
  {
    StoredDateKeys(rows[j], d);
    InOwnKeyGroup(rows, StrftimeMonth, j);
    InOwnKeyGroup(rows, StrftimeYear, j);
  }

  /**
   * On a date the loader stored, `substr(DATE, 1, 2)` is the first two
   * digits of the year and `substr(DATE, 7, 4)` the second digit of the
   * month, a dash and the day.
   */
  lemma SubstrOfStoredDate(d: Date)
    ensures SubstrValue(Text(Format(d)), 1, 2) == Text(Padded(d.year, 4)[..2])
    ensures SubstrValue(Text(Format(d)), 7, 4) == Text([Padded(d.month, 2)[1]] + "-" + Padded(d.day, 2))
  {
    FormatPieces(d);
    var f := Format(d);
    assert f[..2] == f[..4][..2];
    assert f[6..10] == [f[5..7][1]] + [f[7]] + f[8..];
  }

  /** Every stored date of one century falls in the same `substr(DATE, 1, 2)` group, whatever its month. */
  lemma SubstrMonthIgnoresMonth(d1: Date, d2: Date)
    requires d1.year / 100 == d2.year / 100
    ensures SubstrValue(Text(Format(d1)), 1, 2) == SubstrValue(Text(Format(d2)), 1, 2)
  {
    SubstrOfStoredDate(d1);
    SubstrOfStoredDate(d2);
    PaddedPrefix(d1.year);
    PaddedPrefix(d2.year);
  }

  /** The first two of four digits are the hundreds. */
  lemma PaddedPrefix(y: nat)
    ensures Padded(y, 4)[..2] == Padded(y / 100, 2)
  {
    assert Padded(y, 4) == Padded(y / 100, 2) + [DigitChar(y / 10 % 10)] + [DigitChar(y % 10)] by {
      assert y / 10 / 10 == y / 100;
    }
  }

  lemma PaddedExample()
    ensures Padded(2000, 4) == "2000" && Padded(5, 2) == "05" && Padded(17, 2) == "17"
  {
    assert Padded(2, 1) == "2";
    assert Padded(20, 2) == "20";
    assert Padded(200, 3) == "200";
    assert Padded(0, 1) == "0";
    assert Padded(1, 1) == "1";
  }

  /** 17 May 2000 is stored as 2000-05-17: substr keys it as month "20" and year "5-17"; strftime as "05" and "2000". */
  lemma StoredDateKeysExample()
    ensures Format(Date(2000, 5, 17)) == "2000-05-17"
    ensures SubstrValue(Text(Format(Date(2000, 5, 17))), 1, 2) == Text("20")
    ensures SubstrValue(Text(Format(Date(2000, 5, 17))), 7, 4) == Text("5-17")
    ensures StrftimeValue(Month, Text(Format(Date(2000, 5, 17)))) == Text("05")
    ensures StrftimeValue(Year, Text(Format(Date(2000, 5, 17)))) == Text("2000")
  {
    var d := Date(2000, 5, 17);
    PaddedExample();
    assert ValidDate(d);
    StrftimeOfStoredDate(d);
    SubstrOfStoredDate(d);
    assert "2000"[..2] == "20";
    assert ['5'] + "-" + "17" == "5-17";
  }

  /** The month key for Month, the year key for Year. */
  predicate IsDateKey(part: DatePart, s: string) {
    if part == Month then IsMonthKey(s) else IsYearKey(s)
  }

  lemma EvalStrftimeKey(row: Row, part: DatePart)
    ensures Eval(row, Strftime(part, Column(DateCol))) == StrftimeValue(part, Cell(row, DateCol))
  {
  }

  /** Each strftime group key is NULL or a month (year) key. */
  lemma StrftimeGroupKeys(rows: seq<Row>, part: DatePart)
    ensures forall i :: 0 <= i < |GroupByCount(rows, Strftime(part, Column(DateCol)))| ==>
              var k := GroupByCount(rows, Strftime(part, Column(DateCol)))[i].0;
              k == Null || (k.Text? && IsDateKey(part, k.s))
  {
    var key := Strftime(part, Column(DateCol));
    forall i | 0 <= i < |GroupByCount(rows, key)|
      ensures var k := GroupByCount(rows, key)[i].0; k == Null || (k.Text? && IsDateKey(part, k.s))
    {
      GroupKeyOccurs(rows, key, i);
      var j :| 0 <= j < |rows| && Eval(rows[j], key) == GroupByCount(rows, key)[i].0;
      EvalStrftimeKey(rows[j], part);
      StrftimeKeys(Cell(rows[j], DateCol));
    }
  }

  /** Each row's strftime key is a group key. */
  lemma StrftimeRowsGrouped(rows: seq<Row>, part: DatePart)
    ensures forall j :: 0 <= j < |rows| ==>
              exists i :: 0 <= i < |GroupByCount(rows, Strftime(part, Column(DateCol)))|
                          && GroupByCount(rows, Strftime(part, Column(DateCol)))[i].0 == StrftimeValue(part, Cell(rows[j], DateCol))
  {
    var key := Strftime(part, Column(DateCol));
    var groups := GroupByCount(rows, key);
    forall j | 0 <= j < |rows|
      ensures exists i :: 0 <= i < |groups| && groups[i].0 == StrftimeValue(part, Cell(rows[j], DateCol))
    {
      RowKeyHasGroup(rows, key, j);
      var i :| 0 <= i < |groups| && groups[i].0 == Eval(rows[j], key);
      EvalStrftimeKey(rows[j], part);
      assert groups[i].0 == StrftimeValue(part, Cell(rows[j], DateCol));
    }
  }

  /**
   * `SELECT strftime(part, DATE) AS k, COUNT(*) FROM t GROUP BY k ORDER BY k`:
   * groups in ascending key order, the NULL group (dates that are not ISO
   * dates) first; every other key is a month (year) key; each group counts
   * the rows with its key, at least one; the counts sum to the row count.
   */
  function StrftimeBreakdown(rows: seq<Row>, part: DatePart): (groups: seq<(Value, nat)>)
    ensures StrictlyAscending(groups)
    ensures forall i :: 0 <= i < |groups| ==>
              groups[i].0 == Null || (groups[i].0.Text? && IsDateKey(part, groups[i].0.s))
    ensures forall i :: 0 <= i < |groups| ==>
              groups[i].1 >= 1 && groups[i].1 == |RowsWithKey(rows, Strftime(part, Column(DateCol)), groups[i].0)|
    ensures forall j :: 0 <= j < |rows| ==>
              exists i :: 0 <= i < |groups| && groups[i].0 == StrftimeValue(part, Cell(rows[j], DateCol))
    ensures SumCounts(groups) == |rows|
  {
    StrftimeGroupKeys(rows, part);
    StrftimeRowsGrouped(rows, part);
    GroupByCount(rows, Strftime(part, Column(DateCol)))
  }

  lemma EvalSubstrKey(row: Row, start: Position, length: nat)
    ensures Eval(row, Substr(Column(DateCol), start, length)) == SubstrValue(Cell(row, DateCol), start, length)
  {
  }

  /** Each substr group key is NULL or a text of at most `length` characters. */
  lemma SubstrGroupKeys(rows: seq<Row>, start: Position, length: nat)
    ensures forall i :: 0 <= i < |GroupByCount(rows, Substr(Column(DateCol), start, length))| ==>
              var k := GroupByCount(rows, Substr(Column(DateCol), start, length))[i].0;
              k == Null || (k.Text? && |k.s| <= length)
  {
    var key := Substr(Column(DateCol), start, length);
    forall i | 0 <= i < |GroupByCount(rows, key)|
      ensures var k := GroupByCount(rows, key)[i].0; k == Null || (k.Text? && |k.s| <= length)
    {
      GroupKeyOccurs(rows, key, i);
      var j :| 0 <= j < |rows| && Eval(rows[j], key) == GroupByCount(rows, key)[i].0;
      EvalSubstrKey(rows[j], start, length);
    }
  }

  /** Each row's substr key is a group key. */
  lemma SubstrRowsGrouped(rows: seq<Row>, start: Position, length: nat)
    ensures forall j :: 0 <= j < |rows| ==>
              exists i :: 0 <= i < |GroupByCount(rows, Substr(Column(DateCol), start, length))|
                          && GroupByCount(rows, Substr(Column(DateCol), start, length))[i].0
                             == SubstrValue(Cell(rows[j], DateCol), start, length)
  {
    var key := Substr(Column(DateCol), start, length);
    var groups := GroupByCount(rows, key);
    forall j | 0 <= j < |rows|
      ensures exists i :: 0 <= i < |groups| && groups[i].0 == SubstrValue(Cell(rows[j], DateCol), start, length)
    {
      RowKeyHasGroup(rows, key, j);
      var i :| 0 <= i < |groups| && groups[i].0 == Eval(rows[j], key);
      EvalSubstrKey(rows[j], start, length);
      assert groups[i].0 == SubstrValue(Cell(rows[j], DateCol), start, length);
    }
  }

  /**
   * `SELECT substr(DATE, start, length) AS k, COUNT(*) FROM t GROUP BY k
   * ORDER BY k`: groups in ascending key order, the NULL group (NULL dates)
   * first; every other key is a text of at most `length` characters; each
   * group counts the rows with its key, at least one; the counts sum to the
   * row count.
   */
  function SubstrBreakdown(rows: seq<Row>, start: Position, length: nat): (groups: seq<(Value, nat)>)
    ensures StrictlyAscending(groups)
    ensures forall i :: 0 <= i < |groups| ==>
              groups[i].0 == Null || (groups[i].0.Text? && |groups[i].0.s| <= length)
    ensures forall i :: 0 <= i < |groups| ==>
              groups[i].1 >= 1 && groups[i].1 == |RowsWithKey(rows, Substr(Column(DateCol), start, length), groups[i].0)|
    ensures forall j :: 0 <= j < |rows| ==>
              exists i :: 0 <= i < |groups| && groups[i].0 == SubstrValue(Cell(rows[j], DateCol), start, length)
    ensures SumCounts(groups) == |rows|
  {
    SubstrGroupKeys(rows, start, length);
    SubstrRowsGrouped(rows, start, length);
    GroupByCount(rows, Substr(Column(DateCol), start, length))
  }
}
