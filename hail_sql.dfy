/**
 * `HailSQL` of hail_sql.py: the read-only queries on the `hail` table, each
 * given the table's rows in insertion order.
 *
 * Hail sizes are numbers of inches; a size cell the CSV left blank is
 * stored as the text '' and passes every `>= ?` threshold. The month and
 * year breakdowns read the `MM/DD/YYYY` places of DATE, as tornado_sql.py
 * does, although the loader stores `YYYY-MM-DD`.
 */
module HailSql {
  import opened Wrappers
  import opened Collation
  import opened Sql
  import opened IsoDate
  import opened Affinity
  import opened TableDefinitions
  import opened DateKeys

  /** Column positions in the hail table; DATE is DateKeys.DateCol. */
  const SizeCol: nat := 2
  const BeginTimeCol: nat := 4
  const DamageCol: nat := 6

  /** The columns the WHERE clauses test. */
  lemma FilterColumns()
    ensures |HailColumns| == 24
    ensures HailColumns[DateCol] == ColumnDecl("DATE", TextAffinity)
    ensures HailColumns[SizeCol] == ColumnDecl("HAIL SIZE (INCHES)", RealAffinity)
  {
  }

  /** The columns the damage and time reports read. */
  lemma ReportColumns()
    ensures |HailColumns| == 24
    ensures HailColumns[BeginTimeCol] == ColumnDecl("BEGIN_TIME", TextAffinity)
    ensures HailColumns[DamageCol] == ColumnDecl("DAMAGE_PROPERTY_NUM", RealAffinity)
  {
  }

  // ---------------------------------------------------------------------------
  // count_hail_above_size
  // ---------------------------------------------------------------------------

  /** `[HAIL SIZE (INCHES)] >= ? AND DATE >= ? AND DATE <= ?` */
  function SizeFilter(minSize: real, startDate: string, endDate: string): Cond {
    And(Compare(Ge, Column(SizeCol), Param(Num(minSize))), Between(DateCol, Text(startDate), Text(endDate)))
  }

  /**
   * A row count_hail_above_size counts: a size that is a number of at least
   * `minSize` inches or a text, and a DATE text inside the range.
   */
  predicate IsCountedHail(row: Row, minSize: real, startDate: string, endDate: string) {
    var s := Cell(row, SizeCol);
    (s.Text? || (s.Num? && s.n >= minSize)) && InTextRange(Cell(row, DateCol), startDate, endDate)
  }

  lemma SizeFilterHolds(row: Row, minSize: real, startDate: string, endDate: string)
    ensures Holds(row, SizeFilter(minSize, startDate, endDate)) <==> IsCountedHail(row, minSize, startDate, endDate)
  {
    TextRangeHolds(row, DateCol, startDate, endDate);
  }

  lemma SizeCount(rows: seq<Row>, minSize: real, startDate: string, endDate: string)
    ensures CountWhere(rows, SizeFilter(minSize, startDate, endDate))
            == |set i: nat | i < |rows| && IsCountedHail(rows[i], minSize, startDate, endDate)|
  {
    var c := SizeFilter(minSize, startDate, endDate);
    CountWhereCardinality(rows, c);
    forall i: nat | i < |rows| ensures Holds(rows[i], c) <==> IsCountedHail(rows[i], minSize, startDate, endDate) {
      SizeFilterHolds(rows[i], minSize, startDate, endDate);
    }
    assert Matching(rows, c) == set i: nat | i < |rows| && IsCountedHail(rows[i], minSize, startDate, endDate);
  }

  /** `count_hail_above_size(min_size, start_date, end_date)`: the number of rows it counts. */
  function CountHailAboveSize(rows: seq<Row>, minSize: real, startDate: string, endDate: string): (n: nat)
    ensures n == |set i: nat | i < |rows| && IsCountedHail(rows[i], minSize, startDate, endDate)|
  {
    SizeCount(rows, minSize, startDate, endDate);
    CountWhere(rows, SizeFilter(minSize, startDate, endDate))
  }

  /** A larger minimum size never counts more hail events. */
  lemma CountHailAboveSizeAntitone(rows: seq<Row>, minSize: real, minSize': real, startDate: string, endDate: string)
    requires minSize <= minSize'
    ensures CountHailAboveSize(rows, minSize', startDate, endDate) <= CountHailAboveSize(rows, minSize, startDate, endDate)
  {
    var c' := SizeFilter(minSize', startDate, endDate);
    var c := SizeFilter(minSize, startDate, endDate);
    forall i | 0 <= i < |rows| && Holds(rows[i], c') ensures Holds(rows[i], c) {
      SizeFilterHolds(rows[i], minSize', startDate, endDate);
      SizeFilterHolds(rows[i], minSize, startDate, endDate);
    }
    CountWhereMonotone(rows, c', c);
  }

  /** Widening the date range never counts fewer hail events. */
  lemma CountHailAboveSizeWidens(rows: seq<Row>, minSize: real, startDate: string, endDate: string,
                                 startDate': string, endDate': string)
    requires TextLe(startDate', startDate) && TextLe(endDate, endDate')
    ensures CountHailAboveSize(rows, minSize, startDate, endDate) <= CountHailAboveSize(rows, minSize, startDate', endDate')
  {
    var c := SizeFilter(minSize, startDate, endDate);
    var c' := SizeFilter(minSize, startDate', endDate');
    forall i | 0 <= i < |rows| && Holds(rows[i], c) ensures Holds(rows[i], c') {
      SizeFilterHolds(rows[i], minSize, startDate, endDate);
      SizeFilterHolds(rows[i], minSize, startDate', endDate');
      TextRangeWidens(Cell(rows[i], DateCol), startDate, endDate, startDate', endDate');
    }
    CountWhereMonotone(rows, c, c');
  }

  /** A size the CSV left blank is stored as '' and is counted at every minimum size. */
  lemma BlankSizeAlwaysCounted(row: Row, minSize: real, startDate: string, endDate: string)
    requires Cell(row, SizeCol) == ApplyAffinity(RealAffinity, Some(""))
    requires InTextRange(Cell(row, DateCol), startDate, endDate)
    ensures IsCountedHail(row, minSize, startDate, endDate)
    ensures Holds(row, SizeFilter(minSize, startDate, endDate))
  {
    BlankCellStaysText(RealAffinity);
    SizeFilterHolds(row, minSize, startDate, endDate);
  }

  // ---------------------------------------------------------------------------
  // monthly_breakdown, yearly_breakdown
  // ---------------------------------------------------------------------------

  /**
   * `monthly_breakdown()` as written: groups by `substr(DATE, 1, 2)`, in
   * ascending order, NULL first; each key has at most two characters and
   * the counts sum to the row count.
   */
  function MonthlyBreakdown(rows: seq<Row>): (groups: seq<(Value, nat)>)
    ensures StrictlyAscending(groups)
    ensures forall i :: 0 <= i < |groups| ==> groups[i].0 == Null || (groups[i].0.Text? && |groups[i].0.s| <= 2)
    ensures forall i :: 0 <= i < |groups| ==> 1 <= groups[i].1 == |RowsWithKey(rows, SubstrMonth, groups[i].0)|
    ensures forall j :: 0 <= j < |rows| ==>
              exists i :: 0 <= i < |groups| && groups[i].0 == SubstrValue(Cell(rows[j], DateCol), 1, 2)
    ensures SumCounts(groups) == |rows|
  {
    SubstrBreakdown(rows, 1, 2)
  }

  /** `yearly_breakdown()` as written: groups by `substr(DATE, 7, 4)`. */
  function YearlyBreakdown(rows: seq<Row>): (groups: seq<(Value, nat)>)
    ensures StrictlyAscending(groups)
    ensures forall i :: 0 <= i < |groups| ==> groups[i].0 == Null || (groups[i].0.Text? && |groups[i].0.s| <= 4)
    ensures forall i :: 0 <= i < |groups| ==> 1 <= groups[i].1 == |RowsWithKey(rows, SubstrYear, groups[i].0)|
    ensures forall j :: 0 <= j < |rows| ==>
              exists i :: 0 <= i < |groups| && groups[i].0 == SubstrValue(Cell(rows[j], DateCol), 7, 4)
    ensures SumCounts(groups) == |rows|
  {
    SubstrBreakdown(rows, 7, 4)
  }

  /**
   * Two hail events of different months in one century share one
   * "month" group: a table of a May and a July 2000 event reports a single
   * group "20" counting both.
   */
  lemma MonthlyBreakdownMergesMonths(row1: Row, row2: Row, d1: Date, d2: Date)
    requires Cell(row1, DateCol) == Text(Format(d1)) && Cell(row2, DateCol) == Text(Format(d2))
    requires d1.year / 100 == d2.year / 100
    ensures |MonthlyBreakdown([row1, row2])| == 1
    ensures MonthlyBreakdown([row1, row2])[0] == (Text(Padded(d1.year, 4)[..2]), 2)
  {
    SubstrMonthIgnoresMonth(d1, d2);
    SubstrOfStoredDate(d1);
    EvalSubstrKey(row1, 1, 2);
    EvalSubstrKey(row2, 1, 2);
    OneKeyOneGroup([row1, row2], SubstrMonth, Text(Padded(d1.year, 4)[..2]));
  }

  /** A table holding one hail event of 17 May 2000 is reported under month "20" and year "5-17". */
  lemma BreakdownOfOneStoredDate(row: Row)
    requires Cell(row, DateCol) == Text(Format(Date(2000, 5, 17)))
    ensures MonthlyBreakdown([row]) == [(Text("20"), 1)]
    ensures YearlyBreakdown([row]) == [(Text("5-17"), 1)]
  {
    StoredDateKeysExample();
    EvalSubstrKey(row, 1, 2);
    EvalSubstrKey(row, 7, 4);
    OneKeyOneGroup([row], SubstrMonth, Eval(row, SubstrMonth));
    OneKeyOneGroup([row], SubstrYear, Eval(row, SubstrYear));
  }

  // ---------------------------------------------------------------------------
  // top_property_damage
  // ---------------------------------------------------------------------------

  /**
   * `top_property_damage(start_date, end_date, limit)`: as many rows with
   * DATE in the range as the limit allows, by DAMAGE_PROPERTY_NUM from the
   * highest down; no row in the range left out has a higher damage than a
   * row returned.
   */
  function TopPropertyDamage(rows: seq<Row>, startDate: string, endDate: string, limit: int): (r: seq<Row>)
    ensures |r| == LimitCount(|set i: nat | i < |rows| && InTextRange(Cell(rows[i], DateCol), startDate, endDate)|, limit)
    ensures forall i :: 0 <= i < |r| ==> InTextRange(Cell(r[i], DateCol), startDate, endDate)
    ensures multiset(r) <= multiset(rows)
    ensures forall i, j :: 0 <= i < j < |r| ==> LessEq(Cell(r[j], DamageCol), Cell(r[i], DamageCol))
    ensures forall x, y :: x in multiset(rows) - multiset(r) && InTextRange(Cell(x, DateCol), startDate, endDate) && y in r
                           ==> LessEq(Cell(x, DamageCol), Cell(y, DamageCol))
  {
    TopInTextRange(rows, DateCol, startDate, endDate, DamageCol, limit)
  }

  // ---------------------------------------------------------------------------
  // percent_of_hail_in_time_range
  // ---------------------------------------------------------------------------

  /** The two kinds of number percent_of_hail_in_time_range returns. */
  datatype Number = Int(i: int) | Float(r: real)

  /**
   * `percent_of_hail_in_time_range(start_time, end_time)`: the integer 0 on
   * an empty table, otherwise the float share of all rows whose BEGIN_TIME
   * text lies in the range, times 100.
   */
  function PercentOfHailInTimeRange(rows: seq<Row>, startTime: string, endTime: string): (p: Number)
    ensures rows == [] <==> p == Int(0)
    ensures rows != [] ==>
              p == Float(Ratio100(|set i: nat | i < |rows| && InTextRange(Cell(rows[i], BeginTimeCol), startTime, endTime)|, |rows|))
    ensures p.Float? ==> 0.0 <= p.r <= 100.0
  {
    var total := |rows|;
    if total == 0 then Int(0)
    else
      var inRange := CountWhere(rows, Between(BeginTimeCol, Text(startTime), Text(endTime)));
      CountTextRange(rows, BeginTimeCol, startTime, endTime);
      Ratio100Bounds(inRange, total);
      Float(Ratio100(inRange, total))
  }

  /** A wider time range never gives a smaller percentage. */
  lemma PercentInTimeRangeWidens(rows: seq<Row>, startTime: string, endTime: string,
                                 startTime': string, endTime': string)
    requires rows != []
    requires TextLe(startTime', startTime) && TextLe(endTime, endTime')
    ensures PercentOfHailInTimeRange(rows, startTime, endTime).r
            <= PercentOfHailInTimeRange(rows, startTime', endTime').r
  {
    CountTextRangeWidens(rows, BeginTimeCol, startTime, endTime, startTime', endTime');
    Ratio100Monotone(CountWhere(rows, Between(BeginTimeCol, Text(startTime), Text(endTime))),
                     CountWhere(rows, Between(BeginTimeCol, Text(startTime'), Text(endTime'))), |rows|);
  }
}
