/**
 * `WindSQL` of wind_sql.py: the read-only queries on the `wind` table, each
 * given the table's rows in insertion order.
 *
 * Date and time parameters are texts, compared with the stored DATE and
 * BEGIN_TIME texts in BINARY order; knots are numbers. A magnitude or damage
 * cell the CSV left blank is stored as the text '' (REAL affinity keeps a
 * text that is not a number), and SQLite sorts every text above every
 * number.
 */
module WindSql {
  import opened Wrappers
  import opened Collation
  import opened Sql
  import opened Affinity
  import opened TableDefinitions
  import opened DateKeys

  /** Column positions in the wind table; DATE is DateKeys.DateCol. */
  const MagnitudeCol: nat := 2
  const BeginTimeCol: nat := 5
  const DamageCol: nat := 8

  /** The columns the WHERE clauses test. */
  lemma FilterColumns()
    ensures |WindColumns| == 34
    ensures WindColumns[DateCol] == ColumnDecl("DATE", TextAffinity)
    ensures WindColumns[MagnitudeCol] == ColumnDecl("MAGNITUDE (Knots)", RealAffinity)
  {
  }

  /** The columns the damage and time reports read. */
  lemma ReportColumns()
    ensures |WindColumns| == 34
    ensures WindColumns[BeginTimeCol] == ColumnDecl("BEGIN_TIME", TextAffinity)
    ensures WindColumns[DamageCol] == ColumnDecl("DAMAGE_PROPERTY_NUM", RealAffinity)
  {
  }

  // ---------------------------------------------------------------------------
  // count_wind_gusts
  // ---------------------------------------------------------------------------

  /** `[MAGNITUDE (Knots)] >= ? AND DATE >= ? AND DATE <= ?` */
  function GustFilter(minKnots: real, startDate: string, endDate: string): Cond {
    And(Compare(Ge, Column(MagnitudeCol), Param(Num(minKnots))), Between(DateCol, Text(startDate), Text(endDate)))
  }

  /**
   * A row count_wind_gusts counts: a magnitude that is a number of at least
   * `minKnots` or a text (which sorts above every number), and a DATE text
   * inside the range. A NULL date (one the loader could not convert) is
   * never inside it.
   */
  predicate IsCountedGust(row: Row, minKnots: real, startDate: string, endDate: string) {
    var m := Cell(row, MagnitudeCol);
    (m.Text? || (m.Num? && m.n >= minKnots)) && InTextRange(Cell(row, DateCol), startDate, endDate)
  }

  lemma GustFilterHolds(row: Row, minKnots: real, startDate: string, endDate: string)
    ensures Holds(row, GustFilter(minKnots, startDate, endDate)) <==> IsCountedGust(row, minKnots, startDate, endDate)
  {
    TextRangeHolds(row, DateCol, startDate, endDate);
  }

  lemma GustCount(rows: seq<Row>, minKnots: real, startDate: string, endDate: string)
    ensures CountWhere(rows, GustFilter(minKnots, startDate, endDate))
            == |set i: nat | i < |rows| && IsCountedGust(rows[i], minKnots, startDate, endDate)|
  {
    var c := GustFilter(minKnots, startDate, endDate);
    CountWhereCardinality(rows, c);
    forall i: nat | i < |rows| ensures Holds(rows[i], c) <==> IsCountedGust(rows[i], minKnots, startDate, endDate) {
      GustFilterHolds(rows[i], minKnots, startDate, endDate);
    }
    assert Matching(rows, c) == set i: nat | i < |rows| && IsCountedGust(rows[i], minKnots, startDate, endDate);
  }

  /** `count_wind_gusts(min_knots, start_date, end_date)`: the number of rows it counts. */
  function CountWindGusts(rows: seq<Row>, minKnots: real, startDate: string, endDate: string): (n: nat)
    ensures n == |set i: nat | i < |rows| && IsCountedGust(rows[i], minKnots, startDate, endDate)|
  {
    GustCount(rows, minKnots, startDate, endDate);
    CountWhere(rows, GustFilter(minKnots, startDate, endDate))
  }

  /** Raising the threshold never counts more gusts. */
  lemma CountWindGustsAntitone(rows: seq<Row>, minKnots: real, minKnots': real, startDate: string, endDate: string)
    requires minKnots <= minKnots'
    ensures CountWindGusts(rows, minKnots', startDate, endDate) <= CountWindGusts(rows, minKnots, startDate, endDate)
  {
    var c' := GustFilter(minKnots', startDate, endDate);
    var c := GustFilter(minKnots, startDate, endDate);
    forall i | 0 <= i < |rows| && Holds(rows[i], c') ensures Holds(rows[i], c) {
      GustFilterHolds(rows[i], minKnots', startDate, endDate);
      GustFilterHolds(rows[i], minKnots, startDate, endDate);
    }
    CountWhereMonotone(rows, c', c);
  }

  /** Widening the date range never counts fewer gusts. */
  lemma CountWindGustsWidens(rows: seq<Row>, minKnots: real, startDate: string, endDate: string,
                             startDate': string, endDate': string)
    requires TextLe(startDate', startDate) && TextLe(endDate, endDate')
    ensures CountWindGusts(rows, minKnots, startDate, endDate) <= CountWindGusts(rows, minKnots, startDate', endDate')
  {
    var c := GustFilter(minKnots, startDate, endDate);
    var c' := GustFilter(minKnots, startDate', endDate');
    forall i | 0 <= i < |rows| && Holds(rows[i], c) ensures Holds(rows[i], c') {
      GustFilterHolds(rows[i], minKnots, startDate, endDate);
      GustFilterHolds(rows[i], minKnots, startDate', endDate');
      TextRangeWidens(Cell(rows[i], DateCol), startDate, endDate, startDate', endDate');
    }
    CountWhereMonotone(rows, c, c');
  }

  /**
   * A magnitude the CSV left blank is stored as '' and passes `>= ?` for any
   * number of knots: such a row in the date range is counted at every
   * threshold.
   */
  lemma BlankMagnitudeAlwaysCounted(row: Row, minKnots: real, startDate: string, endDate: string)
    requires Cell(row, MagnitudeCol) == ApplyAffinity(RealAffinity, Some(""))
    requires InTextRange(Cell(row, DateCol), startDate, endDate)
    ensures IsCountedGust(row, minKnots, startDate, endDate)
    ensures Holds(row, GustFilter(minKnots, startDate, endDate))
  {
    BlankCellStaysText(RealAffinity);
    GustFilterHolds(row, minKnots, startDate, endDate);
  }

  // ---------------------------------------------------------------------------
  // get_top_property_damage
  // ---------------------------------------------------------------------------

  /**
   * `get_top_property_damage(start_date, end_date, limit)`: as many rows
   * with DATE in the range as the limit allows, taken from the table,
   * ordered by DAMAGE_PROPERTY_NUM from the highest down, and no row in the
   * range left out has a higher damage than a row returned.
   */
  function GetTopPropertyDamage(rows: seq<Row>, startDate: string, endDate: string, limit: int): (r: seq<Row>)
    ensures |r| == LimitCount(|set i: nat | i < |rows| && InTextRange(Cell(rows[i], DateCol), startDate, endDate)|, limit)
    ensures forall i :: 0 <= i < |r| ==> InTextRange(Cell(r[i], DateCol), startDate, endDate)
    ensures multiset(r) <= multiset(rows)
    ensures forall i, j :: 0 <= i < j < |r| ==> LessEq(Cell(r[j], DamageCol), Cell(r[i], DamageCol))
    ensures forall x, y :: x in multiset(rows) - multiset(r) && InTextRange(Cell(x, DateCol), startDate, endDate) && y in r
                           ==> LessEq(Cell(x, DamageCol), Cell(y, DamageCol))
  {
    TopInTextRange(rows, DateCol, startDate, endDate, DamageCol, limit)
  }

  /**
   * A blank damage ('' in a REAL column) sorts above every amount: when a
   * row in the range has one, the first row returned has one too.
   */
  lemma BlankDamageComesFirst(rows: seq<Row>, startDate: string, endDate: string, limit: int, k: nat)
    requires k < |rows| && InTextRange(Cell(rows[k], DateCol), startDate, endDate)
    requires Cell(rows[k], DamageCol) == ApplyAffinity(RealAffinity, Some(""))
    requires limit != 0
    ensures GetTopPropertyDamage(rows, startDate, endDate, limit) != []
    ensures Cell(GetTopPropertyDamage(rows, startDate, endDate, limit)[0], DamageCol).Text?
  {
    BlankCellStaysText(RealAffinity);
    TopDamageNonEmpty(rows, startDate, endDate, limit, k);
    TopDamageBounds(rows, startDate, endDate, limit, k);
    var r := GetTopPropertyDamage(rows, startDate, endDate, limit);
    AtOrAboveText("", Cell(r[0], DamageCol));
  }

  /** With a row in the range and a limit other than 0 something is returned. */
  lemma TopDamageNonEmpty(rows: seq<Row>, startDate: string, endDate: string, limit: int, k: nat)
    requires k < |rows| && InTextRange(Cell(rows[k], DateCol), startDate, endDate)
    requires limit != 0
    ensures GetTopPropertyDamage(rows, startDate, endDate, limit) != []
  {
    TopInTextRangeNonEmpty(rows, DateCol, startDate, endDate, DamageCol, limit, k);
  }

  /** The first row returned has a damage at least that of any row in the range. */
  lemma TopDamageBounds(rows: seq<Row>, startDate: string, endDate: string, limit: int, k: nat)
    requires k < |rows| && InTextRange(Cell(rows[k], DateCol), startDate, endDate)
    requires GetTopPropertyDamage(rows, startDate, endDate, limit) != []
    ensures LessEq(Cell(rows[k], DamageCol), Cell(GetTopPropertyDamage(rows, startDate, endDate, limit)[0], DamageCol))
  {
    TopInTextRangeFirstIsMax(rows, DateCol, startDate, endDate, DamageCol, limit, k);
  }

  // ---------------------------------------------------------------------------
  // get_percentile_rank
  // ---------------------------------------------------------------------------

  /** A magnitude strictly below `gustKnots`: a number; NULL and texts never are. */
  predicate IsBelow(row: Row, gustKnots: real) {
    Cell(row, MagnitudeCol).Num? && Cell(row, MagnitudeCol).n < gustKnots
  }

  function BelowFilter(gustKnots: real): Cond {
    Compare(Lt, Column(MagnitudeCol), Param(Num(gustKnots)))
  }

  lemma BelowCount(rows: seq<Row>, gustKnots: real)
    ensures CountWhere(rows, BelowFilter(gustKnots)) == |set i: nat | i < |rows| && IsBelow(rows[i], gustKnots)|
  {
    CountWhereCardinality(rows, BelowFilter(gustKnots));
    assert Matching(rows, BelowFilter(gustKnots)) == set i: nat | i < |rows| && IsBelow(rows[i], gustKnots);
  }

  /**
   * `get_percentile_rank(gust_knots)`: 0.0 on an empty table, otherwise the
   * share of all rows whose magnitude is below `gustKnots`, times 100.
   */
  function GetPercentileRank(rows: seq<Row>, gustKnots: real): (p: real)
    ensures rows == [] ==> p == 0.0
    ensures rows != [] ==> p == Ratio100(|set i: nat | i < |rows| && IsBelow(rows[i], gustKnots)|, |rows|)
    ensures 0.0 <= p <= 100.0
  {
    var countLess := CountWhere(rows, BelowFilter(gustKnots));
    var countTotal := |rows|;
    BelowCount(rows, gustKnots);
    if countTotal == 0 then 0.0
    else
      Ratio100Bounds(countLess, countTotal);
      Ratio100(countLess, countTotal)
  }

  /** A faster gust ranks at least as high. */
  lemma GetPercentileRankMonotone(rows: seq<Row>, gustKnots: real, gustKnots': real)
    requires gustKnots <= gustKnots'
    ensures GetPercentileRank(rows, gustKnots) <= GetPercentileRank(rows, gustKnots')
  {
    if rows != [] {
      CountWhereMonotone(rows, BelowFilter(gustKnots), BelowFilter(gustKnots'));
      Ratio100Monotone(CountWhere(rows, BelowFilter(gustKnots)), CountWhere(rows, BelowFilter(gustKnots')), |rows|);
    }
  }

  // ---------------------------------------------------------------------------
  // monthly_breakdown, yearly_breakdown
  // ---------------------------------------------------------------------------

  /**
   * `monthly_breakdown()`: one group per distinct `strftime('%m', DATE)`,
   * ascending, NULL (dates that did not convert) first and then `01`..`12`;
   * each counts the rows of its month, at least one, and together they
   * count every row.
   */
  function MonthlyBreakdown(rows: seq<Row>): (groups: seq<(Value, nat)>)
    ensures StrictlyAscending(groups)
    ensures forall i :: 0 <= i < |groups| ==> groups[i].0 == Null || (groups[i].0.Text? && IsMonthKey(groups[i].0.s))
    ensures forall i :: 0 <= i < |groups| ==> 1 <= groups[i].1 == |RowsWithKey(rows, StrftimeMonth, groups[i].0)|
    ensures SumCounts(groups) == |rows|
  {
    StrftimeBreakdown(rows, Month)
  }

  /** `yearly_breakdown()`: the same grouping by `strftime('%Y', DATE)`, years `0001`..`9999`. */
  function YearlyBreakdown(rows: seq<Row>): (groups: seq<(Value, nat)>)
    ensures StrictlyAscending(groups)
    ensures forall i :: 0 <= i < |groups| ==> groups[i].0 == Null || (groups[i].0.Text? && IsYearKey(groups[i].0.s))
    ensures forall i :: 0 <= i < |groups| ==> 1 <= groups[i].1 == |RowsWithKey(rows, StrftimeYear, groups[i].0)|
    ensures SumCounts(groups) == |rows|
  {
    StrftimeBreakdown(rows, Year)
  }

  // ---------------------------------------------------------------------------
  // percent_of_events_in_time_range
  // ---------------------------------------------------------------------------

  /**
   * `percent_of_events_in_time_range(start_time, end_time)`: 0.0 on an
   * empty table, otherwise the share of all rows whose BEGIN_TIME text lies
   * in the range, times 100.
   */
  function PercentOfEventsInTimeRange(rows: seq<Row>, startTime: string, endTime: string): (p: real)
    ensures rows == [] ==> p == 0.0
    ensures rows != [] ==>
              p == Ratio100(|set i: nat | i < |rows| && InTextRange(Cell(rows[i], BeginTimeCol), startTime, endTime)|, |rows|)
    ensures 0.0 <= p <= 100.0
  {
    var total := |rows|;
    if total == 0 then 0.0
    else
      var inRange := CountWhere(rows, Between(BeginTimeCol, Text(startTime), Text(endTime)));
      CountTextRange(rows, BeginTimeCol, startTime, endTime);
      Ratio100Bounds(inRange, total);
      Ratio100(inRange, total)
  }

  /** A wider time range never gives a smaller percentage. */
  lemma PercentOfEventsInTimeRangeWidens(rows: seq<Row>, startTime: string, endTime: string,
                                         startTime': string, endTime': string)
    requires TextLe(startTime', startTime) && TextLe(endTime, endTime')
    ensures PercentOfEventsInTimeRange(rows, startTime, endTime) <= PercentOfEventsInTimeRange(rows, startTime', endTime')
  {
    if rows != [] {
      CountTextRangeWidens(rows, BeginTimeCol, startTime, endTime, startTime', endTime');
      Ratio100Monotone(CountWhere(rows, Between(BeginTimeCol, Text(startTime), Text(endTime))),
                       CountWhere(rows, Between(BeginTimeCol, Text(startTime'), Text(endTime'))), |rows|);
    }
  }

  /** When every row's BEGIN_TIME lies in the range the answer is 100. */
  lemma PercentOfEventsAllInRange(rows: seq<Row>, startTime: string, endTime: string)
    requires rows != []
    requires forall i :: 0 <= i < |rows| ==> InTextRange(Cell(rows[i], BeginTimeCol), startTime, endTime)
    ensures PercentOfEventsInTimeRange(rows, startTime, endTime) == 100.0
  {
    var c := Between(BeginTimeCol, Text(startTime), Text(endTime));
    forall i | 0 <= i < |rows| ensures Holds(rows[i], c) {
      TextRangeHolds(rows[i], BeginTimeCol, startTime, endTime);
    }
    CountWhereAll(rows, c);
    Ratio100Bounds(|rows|, |rows|);
  }
}
