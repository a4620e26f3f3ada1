/**
 * `TornadoSQL` of tornado_sql.py: the read-only queries on the `tornado`
 * table, each given the table's rows in insertion order.
 *
 * Ratings are the TOR_F_SCALE texts (`EFU`, `EF0` .. `EF5` for the enhanced
 * Fujita scale, older rows carry `F0` .. `F5` and other labels). The
 * "at least" count turns the caller's label into a number in Python and the
 * stored labels into numbers with a CASE in SQL.
 */
module TornadoSql {
  import opened Wrappers
  import opened Collation
  import opened Sql
  import opened IsoDate
  import opened Affinity
  import opened TableDefinitions
  import opened DateKeys

  /** Column positions in the tornado table; DATE is DateKeys.DateCol. */
  const ScaleCol: nat := 2
  const BeginTimeCol: nat := 7
  const DamageCol: nat := 10
  const LengthCol: nat := 14

  /** The columns the WHERE clauses test. */
  lemma FilterColumns()
    ensures |TornadoColumns| == 27
    ensures TornadoColumns[DateCol] == ColumnDecl("DATE", TextAffinity)
    ensures TornadoColumns[ScaleCol] == ColumnDecl("TOR_F_SCALE", TextAffinity)
    ensures TornadoColumns[LengthCol] == ColumnDecl("TOR_LENGTH", RealAffinity)
  {
  }

  /** The columns the damage and time reports read. */
  lemma ReportColumns()
    ensures |TornadoColumns| == 27
    ensures TornadoColumns[BeginTimeCol] == ColumnDecl("BEGIN_TIME", TextAffinity)
    ensures TornadoColumns[DamageCol] == ColumnDecl("DAMAGE_PROPERTY_NUM", RealAffinity)
  {
  }

  // ---------------------------------------------------------------------------
  // count_ef_tornadoes_exact
  // ---------------------------------------------------------------------------

  /** `TOR_F_SCALE = ? AND DATE >= ? AND DATE <= ?` */
  function ExactFilter(efRating: string, startDate: string, endDate: string): Cond {
    And(Compare(Eq, Column(ScaleCol), Param(Text(efRating))), Between(DateCol, Text(startDate), Text(endDate)))
  }

  /** A row count_ef_tornadoes_exact counts: its label is exactly `efRating` (case matters) and its DATE is in the range. */
  predicate IsCountedExact(row: Row, efRating: string, startDate: string, endDate: string) {
    Cell(row, ScaleCol) == Text(efRating) && InTextRange(Cell(row, DateCol), startDate, endDate)
  }

  lemma ExactFilterHolds(row: Row, efRating: string, startDate: string, endDate: string)
    ensures Holds(row, ExactFilter(efRating, startDate, endDate)) <==> IsCountedExact(row, efRating, startDate, endDate)
  {
    TextRangeHolds(row, DateCol, startDate, endDate);
  }

  lemma ExactCount(rows: seq<Row>, efRating: string, startDate: string, endDate: string)
    ensures CountWhere(rows, ExactFilter(efRating, startDate, endDate))
            == |set i: nat | i < |rows| && IsCountedExact(rows[i], efRating, startDate, endDate)|
  {
    var c := ExactFilter(efRating, startDate, endDate);
    CountWhereCardinality(rows, c);
    forall i: nat | i < |rows| ensures Holds(rows[i], c) <==> IsCountedExact(rows[i], efRating, startDate, endDate) {
      ExactFilterHolds(rows[i], efRating, startDate, endDate);
    }
    assert Matching(rows, c) == set i: nat | i < |rows| && IsCountedExact(rows[i], efRating, startDate, endDate);
  }

  /** `count_ef_tornadoes_exact(ef_rating, start_date, end_date)`: the number of rows it counts. */
  function CountEfTornadoesExact(rows: seq<Row>, efRating: string, startDate: string, endDate: string): (n: nat)
    ensures n == |set i: nat | i < |rows| && IsCountedExact(rows[i], efRating, startDate, endDate)|
  {
    ExactCount(rows, efRating, startDate, endDate);
    CountWhere(rows, ExactFilter(efRating, startDate, endDate))
  }

  // ---------------------------------------------------------------------------
  // count_ef_tornadoes_at_least: the rating the caller gives
  // ---------------------------------------------------------------------------

  /** The exceptions `int(min_ef_rating[2])` raises. */
  datatype RatingError = IndexError | ValueError

  function AsciiUpperChar(c: char): char {
    if 'a' <= c <= 'z' then (c as int - 32) as char else c
  }

  /** `str.upper()` on the ASCII letters. */
  function AsciiUpper(s: string): (r: string)
    ensures |r| == |s|
    ensures forall i :: 0 <= i < |s| ==> r[i] == AsciiUpperChar(s[i])
  {
    seq(|s|, i requires 0 <= i < |s| => AsciiUpperChar(s[i]))
  }

  /** `min_ef_rating.upper().startswith("EFU")` */
  predicate StartsWithEfu(s: string) {
    var u := AsciiUpper(s);
    |u| >= 3 && u[0] == 'E' && u[1] == 'F' && u[2] == 'U'
  }

  /**
   * The number count_ef_tornadoes_at_least compares with: -1 for a label
   * that starts with EFU in any case, otherwise the digit at index 2; an
   * IndexError for a shorter text and a ValueError for a non-digit there.
   */
  function ParseMinRating(minEfRating: string): (r: Result<int, RatingError>)
    ensures r.Success? ==> -1 <= r.value <= 9
    ensures r == Failure(IndexError) <==> |minEfRating| < 3
    ensures r.Success? && r.value >= 0 ==> DigitChar(r.value) == minEfRating[2]
  {
    if StartsWithEfu(minEfRating) then Result<int, RatingError>.Success(-1)
    else if |minEfRating| < 3 then Failure(IndexError)
    else if IsAsciiDigit(minEfRating[2]) then Success(DigitValue(minEfRating[2]))
    else Failure(ValueError)
  }

  /** Whatever the first two characters, a digit in the third place is the rating: `EF3`, `ef3`, `F13`. */
  lemma ParseDigitRating(s: string)
    requires |s| >= 3 && IsAsciiDigit(s[2])
    ensures ParseMinRating(s) == Success(DigitValue(s[2]))
  {
  }

  /** `EFU`, `efu`, `EfU...` all read as -1, below every rating. */
  lemma ParseUnknownRating(s: string)
    requires |s| >= 3 && (s[0] == 'E' || s[0] == 'e') && (s[1] == 'F' || s[1] == 'f') && (s[2] == 'U' || s[2] == 'u')
    ensures ParseMinRating(s) == Success(-1)
  {
  }

  /** A label of the older Fujita scale, such as `F1` or `FU`, is too short: IndexError. */
  lemma ParseRejectsFujitaLabel(c: char)
    ensures ParseMinRating(['F', c]) == Failure(IndexError)
  {
  }

  /** A third character that is neither a digit nor the U of EFU raises ValueError, as for `EFX`. */
  lemma ParseRejectsNonDigit(s: string)
    requires |s| >= 3 && !IsAsciiDigit(s[2]) && !StartsWithEfu(s)
    ensures ParseMinRating(s) == Failure(ValueError)
  {
  }

  // ---------------------------------------------------------------------------
  // count_ef_tornadoes_at_least: the CASE over the stored labels
  // ---------------------------------------------------------------------------

  /** `EFU` for -1 and `EF0` .. `EF5` for 0 .. 5. */
  function EfLabel(k: int): (s: string)
    requires -1 <= k <= 5
    ensures |s| == 3 && s[0] == 'E' && s[1] == 'F'
  {
    ['E', 'F', if k == -1 then 'U' else DigitChar(k)]
  }

  /** The WHEN list: `EFU` -> -1, `EF0` -> 0, ..., `EF5` -> 5. */
  function RatingWhens(): (whens: seq<(Value, Value)>)
    ensures |whens| == 7
    ensures forall i :: 0 <= i < 7 ==> whens[i] == (Text(EfLabel(i - 1)), Num((i - 1) as real))
  {
    seq(7, i requires 0 <= i < 7 => (Text(EfLabel(i - 1)), Num((i - 1) as real)))
  }

  const RatingCase: Expr := Case(Column(ScaleCol), RatingWhens())

  /** The rating of a stored label: -1 .. 5 for exactly `EFU`, `EF0` .. `EF5`, none for anything else. */
  function EfRatingOf(v: Value): (k: Option<int>)
    ensures k.Some? ==> -1 <= k.value <= 5 && v == Text(EfLabel(k.value))
  {
    if v.Text? && |v.s| == 3 && v.s[0] == 'E' && v.s[1] == 'F' then
      if v.s[2] == 'U' then Option<int>.Some(-1)
      else if '0' <= v.s[2] <= '5' then Some(DigitValue(v.s[2]))
      else None
    else None
  }

  lemma EfLabelRating(k: int)
    requires -1 <= k <= 5
    ensures EfRatingOf(Text(EfLabel(k))) == Some(k)
  {
  }

  /** The CASE maps exactly the seven EF labels to their numbers and every other value to NULL. */
  lemma RatingCaseValue(v: Value)
    ensures CaseValue(v, RatingWhens()) == match EfRatingOf(v) case Some(k) => Num(k as real) case None => Null
  {
    var whens := RatingWhens();
    match EfRatingOf(v)
    case Some(k) =>
      forall j | 0 <= j < k + 1 ensures whens[j].0 != v {
        EfLabelRating(j - 1);
      }
      CaseValueMatch(v, whens, k + 1);
    case None =>
      forall j | 0 <= j < |whens| ensures whens[j].0 != v {
        EfLabelRating(j - 1);
      }
      CaseValueNoMatch(v, whens);
  }

  /** `(CASE ... END) >= ? AND DATE >= ? AND DATE <= ?` */
  function AtLeastFilter(k: int, startDate: string, endDate: string): Cond {
    And(Compare(Ge, RatingCase, Param(Num(k as real))), Between(DateCol, Text(startDate), Text(endDate)))
  }

  /** A row the "at least" count counts: an EF label rated `k` or more, and a DATE in the range. */
  predicate IsCountedAtLeast(row: Row, k: int, startDate: string, endDate: string) {
    var rating := EfRatingOf(Cell(row, ScaleCol));
    rating.Some? && rating.value >= k && InTextRange(Cell(row, DateCol), startDate, endDate)
  }

  lemma AtLeastFilterHolds(row: Row, k: int, startDate: string, endDate: string)
    ensures Holds(row, AtLeastFilter(k, startDate, endDate)) <==> IsCountedAtLeast(row, k, startDate, endDate)
  {
    RatingAtLeastHolds(row, k);
    TextRangeHolds(row, DateCol, startDate, endDate);
  }

  /** The CASE value is at least `k` exactly for a label rated `k` or more. */
  lemma RatingAtLeastHolds(row: Row, k: int)
    ensures Holds(row, Compare(Ge, RatingCase, Param(Num(k as real))))
        <==> EfRatingOf(Cell(row, ScaleCol)).Some? && EfRatingOf(Cell(row, ScaleCol)).value >= k
  {
    var v := Cell(row, ScaleCol);
    RatingCaseValue(v);
    assert Eval(row, RatingCase) == CaseValue(v, RatingWhens());
  }

  lemma AtLeastCount(rows: seq<Row>, k: int, startDate: string, endDate: string)
    ensures CountWhere(rows, AtLeastFilter(k, startDate, endDate))
            == |set i: nat | i < |rows| && IsCountedAtLeast(rows[i], k, startDate, endDate)|
  {
    var c := AtLeastFilter(k, startDate, endDate);
    CountWhereCardinality(rows, c);
    forall i: nat | i < |rows| ensures Holds(rows[i], c) <==> IsCountedAtLeast(rows[i], k, startDate, endDate) {
      AtLeastFilterHolds(rows[i], k, startDate, endDate);
    }
    assert Matching(rows, c) == set i: nat | i < |rows| && IsCountedAtLeast(rows[i], k, startDate, endDate);
  }

  /** The SQL of count_ef_tornadoes_at_least once the rating is a number. */
  function CountAtLeast(rows: seq<Row>, k: int, startDate: string, endDate: string): (n: nat)
    ensures n == |set i: nat | i < |rows| && IsCountedAtLeast(rows[i], k, startDate, endDate)|
  {
    AtLeastCount(rows, k, startDate, endDate);
    CountWhere(rows, AtLeastFilter(k, startDate, endDate))
  }

  /**
   * `count_ef_tornadoes_at_least(min_ef_rating, start_date, end_date)`: the
   * exception of the rating parse, or the number of rows in the range whose
   * EF label is rated at least the parsed number.
   */
  function CountEfTornadoesAtLeast(rows: seq<Row>, minEfRating: string, startDate: string, endDate: string)
    : (r: Result<nat, RatingError>)
    ensures r.Failure? <==> ParseMinRating(minEfRating).Failure?
    ensures r.Failure? ==> r.error == ParseMinRating(minEfRating).error
    ensures r.Success? ==>
              r.value == |set i: nat | i < |rows| && IsCountedAtLeast(rows[i], ParseMinRating(minEfRating).value, startDate, endDate)|
  {
    match ParseMinRating(minEfRating)
    case Failure(e) => Failure(e)
    case Success(k) => Success(CountAtLeast(rows, k, startDate, endDate))
  }

  /** A higher minimum never counts more rows. */
  lemma CountAtLeastAntitone(rows: seq<Row>, k: int, k': int, startDate: string, endDate: string)
    requires k <= k'
    ensures CountAtLeast(rows, k', startDate, endDate) <= CountAtLeast(rows, k, startDate, endDate)
  {
    forall i | 0 <= i < |rows| && Holds(rows[i], AtLeastFilter(k', startDate, endDate))
      ensures Holds(rows[i], AtLeastFilter(k, startDate, endDate))
    {
      AtLeastFilterHolds(rows[i], k', startDate, endDate);
      AtLeastFilterHolds(rows[i], k, startDate, endDate);
    }
    CountWhereMonotone(rows, AtLeastFilter(k', startDate, endDate), AtLeastFilter(k, startDate, endDate));
  }

  /** No stored label is rated above 5. */
  lemma CountAtLeastAboveFive(rows: seq<Row>, k: int, startDate: string, endDate: string)
    requires k > 5
    ensures CountAtLeast(rows, k, startDate, endDate) == 0
  {
    forall i | 0 <= i < |rows| ensures !Holds(rows[i], AtLeastFilter(k, startDate, endDate)) {
      AtLeastFilterHolds(rows[i], k, startDate, endDate);
    }
    CountWhereNone(rows, AtLeastFilter(k, startDate, endDate));
  }

  /** The rows rated at least `k` are those labelled exactly `k` and those rated at least `k + 1`. */
  lemma CountAtLeastStep(rows: seq<Row>, k: int, startDate: string, endDate: string)
    requires -1 <= k <= 5
    ensures CountAtLeast(rows, k, startDate, endDate)
            == CountEfTornadoesExact(rows, EfLabel(k), startDate, endDate) + CountAtLeast(rows, k + 1, startDate, endDate)
  {
    var c := AtLeastFilter(k, startDate, endDate);
    var part := ExactFilter(EfLabel(k), startDate, endDate);
    var rest := AtLeastFilter(k + 1, startDate, endDate);
    forall i | 0 <= i < |rows|
      ensures (Holds(rows[i], c) <==> Holds(rows[i], part) || Holds(rows[i], rest))
      ensures !(Holds(rows[i], part) && Holds(rows[i], rest))
    {
      AtLeastFilterHolds(rows[i], k, startDate, endDate);
      AtLeastFilterHolds(rows[i], k + 1, startDate, endDate);
      ExactFilterHolds(rows[i], EfLabel(k), startDate, endDate);
      EfLabelRating(k);
    }
    CountWhereSplit(rows, c, part, rest);
  }

  /** For each EF label, the exact count never exceeds the "at least" count over the same dates. */
  lemma ExactAtMostAtLeast(rows: seq<Row>, k: int, startDate: string, endDate: string)
    requires -1 <= k <= 5
    ensures ParseMinRating(EfLabel(k)) == Success(k)
    ensures CountEfTornadoesExact(rows, EfLabel(k), startDate, endDate)
            <= CountEfTornadoesAtLeast(rows, EfLabel(k), startDate, endDate).value
  {
    var s := EfLabel(k);
    if k == -1 {
      ParseUnknownRating(s);
    } else {
      ParseDigitRating(s);
    }
    CountAtLeastStep(rows, k, startDate, endDate);
  }

  /** With `EFU` every row in the range that carries one of the seven EF labels is counted. */
  lemma AtLeastUnknownCountsEveryEfLabel(rows: seq<Row>, startDate: string, endDate: string)
    ensures CountEfTornadoesAtLeast(rows, EfLabel(-1), startDate, endDate)
            == Success(|set i: nat | i < |rows| && EfRatingOf(Cell(rows[i], ScaleCol)).Some?
                                      && InTextRange(Cell(rows[i], DateCol), startDate, endDate)|)
  {
    ParseUnknownRating(EfLabel(-1));
    assert (set i: nat | i < |rows| && IsCountedAtLeast(rows[i], -1, startDate, endDate))
        == (set i: nat | i < |rows| && EfRatingOf(Cell(rows[i], ScaleCol)).Some?
                         && InTextRange(Cell(rows[i], DateCol), startDate, endDate));
  }

  // ---------------------------------------------------------------------------
  // monthly_breakdown, yearly_breakdown
  // ---------------------------------------------------------------------------

  /**
   * `monthly_breakdown()` as written: groups by `substr(DATE, 1, 2)`, in
   * ascending order, NULL first; each key has at most two characters and
   * the counts sum to the row count. On a stored `YYYY-MM-DD` date the key
   * is the first two digits of the year (DateKeys.SubstrOfStoredDate).
   */
  function MonthlyBreakdown(rows: seq<Row>): (groups: seq<(Value, nat)>)
    ensures StrictlyAscending(groups)
    ensures forall i :: 0 <= i < |groups| ==> groups[i].0 == Null || (groups[i].0.Text? && |groups[i].0.s| <= 2)
    ensures forall i :: 0 <= i < |groups| ==> 1 <= groups[i].1 == |RowsWithKey(rows, SubstrMonth, groups[i].0)|
    ensures SumCounts(groups) == |rows|
  {
    SubstrBreakdown(rows, 1, 2)
  }

  /**
   * `yearly_breakdown()` as written: groups by `substr(DATE, 7, 4)`; on a
   * stored date the key is the month's second digit, a dash and the day.
   */
  function YearlyBreakdown(rows: seq<Row>): (groups: seq<(Value, nat)>)
    ensures StrictlyAscending(groups)
    ensures forall i :: 0 <= i < |groups| ==> groups[i].0 == Null || (groups[i].0.Text? && |groups[i].0.s| <= 4)
    ensures forall i :: 0 <= i < |groups| ==> 1 <= groups[i].1 == |RowsWithKey(rows, SubstrYear, groups[i].0)|
    ensures SumCounts(groups) == |rows|
  {
    SubstrBreakdown(rows, 7, 4)
  }

  /** A table holding one tornado of 17 May 2000 is reported under month "20" and year "5-17". */
  lemma BreakdownOfOneStoredDate(row: Row)
    requires Cell(row, DateCol) == Text(Format(Date(2000, 5, 17)))
    ensures MonthlyBreakdown([row]) == [(Text("20"), 1)]
    ensures YearlyBreakdown([row]) == [(Text("5-17"), 1)]
  {
    StoredDateKeysExample();
    EvalSubstrKey(row, 1, 2);
    EvalSubstrKey(row, 7, 4);
    OneKeyOneGroup([row], SubstrMonth, Eval(row, SubstrMonth));
    OneKeyOneGroup([row], SubstrYear, Eval(row, SubstrYear));
  }

  /** The corrected breakdowns report the same tornado under month "05" and year "2000". */
  lemma CorrectedBreakdownOfOneStoredDate(row: Row)
    requires Cell(row, DateCol) == Text(Format(Date(2000, 5, 17)))
    ensures CorrectedMonthlyBreakdown([row]) == [(Text("05"), 1)]
    ensures CorrectedYearlyBreakdown([row]) == [(Text("2000"), 1)]
  {
    var d := Date(2000, 5, 17);
    assert ValidDate(d);
    StoredDateKeys(row, d);
    PaddedExample();
    OneKeyOneGroup([row], StrftimeMonth, Eval(row, StrftimeMonth));
    OneKeyOneGroup([row], StrftimeYear, Eval(row, StrftimeYear));
  }

  /**
   * The breakdown by month the queries evidently intend: `strftime('%m',
   * DATE)`, as wind_sql.py groups: NULL first, then month keys `01`..`12`.
   */
  function CorrectedMonthlyBreakdown(rows: seq<Row>): (groups: seq<(Value, nat)>)
    ensures StrictlyAscending(groups)
    ensures forall i :: 0 <= i < |groups| ==> groups[i].0 == Null || (groups[i].0.Text? && IsMonthKey(groups[i].0.s))
    ensures forall i :: 0 <= i < |groups| ==> 1 <= groups[i].1 == |RowsWithKey(rows, StrftimeMonth, groups[i].0)|
    ensures SumCounts(groups) == |rows|
  {
    StrftimeBreakdown(rows, Month)
  }

  /** The breakdown by year the queries evidently intend: `strftime('%Y', DATE)`. */
  function CorrectedYearlyBreakdown(rows: seq<Row>): (groups: seq<(Value, nat)>)
    ensures StrictlyAscending(groups)
    ensures forall i :: 0 <= i < |groups| ==> groups[i].0 == Null || (groups[i].0.Text? && IsYearKey(groups[i].0.s))
    ensures forall i :: 0 <= i < |groups| ==> 1 <= groups[i].1 == |RowsWithKey(rows, StrftimeYear, groups[i].0)|
    ensures SumCounts(groups) == |rows|
  {
    StrftimeBreakdown(rows, Year)
  }

  /** In the corrected monthly breakdown a row stored with a calendar date is counted under that date's month. */
  lemma CorrectedMonthlyGroupsByMonth(rows: seq<Row>, j: nat, d: Date)
    requires j < |rows| && ValidDate(d) && Cell(rows[j], DateCol) == Text(Format(d))
    ensures j in RowsWithKey(rows, StrftimeMonth, Text(Padded(d.month, 2)))
    ensures exists i :: 0 <= i < |CorrectedMonthlyBreakdown(rows)| && CorrectedMonthlyBreakdown(rows)[i].0 == Text(Padded(d.month, 2))
  {
    StoredDateGroups(rows, j, d);
    var groups := CorrectedMonthlyBreakdown(rows);
    assert groups == StrftimeBreakdown(rows, Month);
    var i :| 0 <= i < |groups| && groups[i].0 == StrftimeValue(Month, Cell(rows[j], DateCol));
    assert groups[i].0 == Text(Padded(d.month, 2));
  }

  /** In the corrected yearly breakdown a row stored with a calendar date is counted under that date's year. */
  lemma CorrectedYearlyGroupsByYear(rows: seq<Row>, j: nat, d: Date)
    requires j < |rows| && ValidDate(d) && Cell(rows[j], DateCol) == Text(Format(d))
    ensures j in RowsWithKey(rows, StrftimeYear, Text(Padded(d.year, 4)))
    ensures exists i :: 0 <= i < |CorrectedYearlyBreakdown(rows)| && CorrectedYearlyBreakdown(rows)[i].0 == Text(Padded(d.year, 4))
  {
    StoredDateGroups(rows, j, d);
    var groups := CorrectedYearlyBreakdown(rows);
    assert groups == StrftimeBreakdown(rows, Year);
    var i :| 0 <= i < |groups| && groups[i].0 == StrftimeValue(Year, Cell(rows[j], DateCol));
    assert groups[i].0 == Text(Padded(d.year, 4));
  }

  // ---------------------------------------------------------------------------
  // top_property_damage, top_tornado_length
  // ---------------------------------------------------------------------------

  /**
   * `top_property_damage(start_date, end_date, limit)`: as many rows with
   * DATE in the range as the limit allows, from the table, by
   * DAMAGE_PROPERTY_NUM from the highest down; no row in the range left out
   * has a higher damage than a row returned.
   */
  function TopPropertyDamage(rows: seq<Row>, startDate: string, endDate: string, limit: int): (r: seq<Row>)
    ensures |r| == LimitCount(|set i: nat | i < |rows| && InTextRange(Cell(rows[i], DateCol), startDate, endDate)|, limit)
    ensures forall i :: 0 <= i < |r| ==> InTextRange(Cell(r[i], DateCol), startDate, endDate)
    ensures multiset(r) <= multiset(rows)
    ensures forall i, j :: 0 <= i < j < |r| ==> LessEq(Cell(r[j], DamageCol), Cell(r[i], DamageCol))
    ensures forall x, y :: x in multiset(rows) - multiset(r) && InTextRange(Cell(x, DateCol), startDate, endDate) && y in r
                           ==> LessEq(Cell(x, DamageCol), Cell(y, DamageCol))
  {
    TopInTextRange(rows, DateCol, startDate, endDate, DamageCol, limit)
  }

  /**
   * `top_tornado_length(limit)`: as many rows of the table as the limit
   * allows, by TOR_LENGTH from the longest down; no row left out is longer
   * than a row returned.
   */
  function TopTornadoLength(rows: seq<Row>, limit: int): (r: seq<Row>)
    ensures |r| == LimitCount(|rows|, limit)
    ensures multiset(r) <= multiset(rows)
    ensures forall i, j :: 0 <= i < j < |r| ==> LessEq(Cell(r[j], LengthCol), Cell(r[i], LengthCol))
    ensures forall x, y :: x in multiset(rows) - multiset(r) && y in r ==> LessEq(Cell(x, LengthCol), Cell(y, LengthCol))
  {
    OrderByDescLimit(rows, Column(LengthCol), limit)
  }

  // ---------------------------------------------------------------------------
  // percent_of_tornadoes_between_times
  // ---------------------------------------------------------------------------

  /**
   * `percent_of_tornadoes_between_times(start_time, end_time)`: 0.0 on an
   * empty table, otherwise the share of all rows whose BEGIN_TIME text lies
   * in the range, times 100.
   */
  function PercentOfTornadoesBetweenTimes(rows: seq<Row>, startTime: string, endTime: string): (p: real)
    ensures rows == [] ==> p == 0.0
    ensures rows != [] ==>
              p == Ratio100(|set i: nat | i < |rows| && InTextRange(Cell(rows[i], BeginTimeCol), startTime, endTime)|, |rows|)
    ensures 0.0 <= p <= 100.0
  {
    var totalCount := |rows|;
    if totalCount == 0 then 0.0
    else
      var inRange := CountWhere(rows, Between(BeginTimeCol, Text(startTime), Text(endTime)));
      CountTextRange(rows, BeginTimeCol, startTime, endTime);
      Ratio100Bounds(inRange, totalCount);
      Ratio100(inRange, totalCount)
  }

  /** A wider time range never gives a smaller percentage. */
  lemma PercentBetweenTimesWidens(rows: seq<Row>, startTime: string, endTime: string,
                                  startTime': string, endTime': string)
    requires TextLe(startTime', startTime) && TextLe(endTime, endTime')
    ensures PercentOfTornadoesBetweenTimes(rows, startTime, endTime)
            <= PercentOfTornadoesBetweenTimes(rows, startTime', endTime')
  {
    if rows != [] {
      CountTextRangeWidens(rows, BeginTimeCol, startTime, endTime, startTime', endTime');
      Ratio100Monotone(CountWhere(rows, Between(BeginTimeCol, Text(startTime), Text(endTime))),
                       CountWhere(rows, Between(BeginTimeCol, Text(startTime'), Text(endTime'))), |rows|);
    }
  }
}
