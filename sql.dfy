/**
 * The meaning of the SQLite statements the query classes run, over a table
 * given as the sequence of its rows.
 *
 * A stored value is NULL, a number (SQLite's INTEGER and REAL compare
 * numerically with each other, so one constructor covers both) or a TEXT.
 * SQLite sorts values NULL first, then numbers, then texts in BINARY
 * collation. A comparison in a WHERE clause with a NULL operand is NULL,
 * which WHERE treats as false; between a number and a text the text is the
 * greater (the parameters the queries bind are already of the column's
 * class, so no affinity conversion happens in the comparison).
 */
module Sql {
  import opened Collation
  import IsoDate

  datatype Value = Null | Num(n: real) | Text(s: string)

  /** One table row: one value per declared column. */
  type Row = seq<Value>

  // ---------------------------------------------------------------------------
  // Sort order of values
  // ---------------------------------------------------------------------------

  function StorageRank(v: Value): nat {
    match v
    case Null => 0
    case Num(_) => 1
    case Text(_) => 2
  }

  /** `a` sorts strictly before `b` in ORDER BY ... ASC. */
  predicate Less(a: Value, b: Value) {
    StorageRank(a) < StorageRank(b)
    || (a.Num? && b.Num? && a.n < b.n)
    || (a.Text? && b.Text? && TextLt(a.s, b.s))
  }

  predicate LessEq(a: Value, b: Value) {
    a == b || Less(a, b)
  }

  /** Only a text sorts at or above a text. */
  lemma AtOrAboveText(s: string, v: Value)
    requires LessEq(Text(s), v)
    ensures v.Text?
  {
  }

  lemma LessIrreflexive(a: Value)
    ensures !Less(a, a)
  {
    if a.Text? {
      TextLtIrreflexive(a.s);
    }
  }

  lemma LessTransitive(a: Value, b: Value, c: Value)
    requires Less(a, b) && Less(b, c)
    ensures Less(a, c)
  {
    if a.Text? && b.Text? && c.Text? {
      TextLtTransitive(a.s, b.s, c.s);
    }
  }

  lemma LessTrichotomy(a: Value, b: Value)
    ensures Less(a, b) || a == b || Less(b, a)
  {
    if a.Text? && b.Text? {
      TextLtTrichotomy(a.s, b.s);
    }
  }

  lemma LessEqTransitive(a: Value, b: Value, c: Value)
    requires LessEq(a, b) && LessEq(b, c)
    ensures LessEq(a, c)
  {
    if a != b && b != c {
      LessTransitive(a, b, c);
    }
  }

  /** Not below is at or above: the order is total. */
  lemma NotLessIsLessEq(a: Value, b: Value)
    requires !Less(a, b)
    ensures LessEq(b, a)
  {
    LessTrichotomy(a, b);
  }

  lemma LessEqAntisymmetric(a: Value, b: Value)
    requires LessEq(a, b) && LessEq(b, a)
    ensures a == b
  {
    if a != b {
      LessTransitive(a, b, a);
      LessIrreflexive(a);
    }
  }

  // ---------------------------------------------------------------------------
  // Expressions and WHERE conditions
  // ---------------------------------------------------------------------------

  /** A 1-based character position, as substr's second argument. */
  type Position = k: nat | k >= 1 witness 1

  datatype DatePart = Month | Year

  datatype Expr =
    | Column(index: nat)
    | Param(value: Value)
    | Substr(arg: Expr, start: Position, length: nat)
    | Strftime(part: DatePart, arg: Expr)
    | Case(arg: Expr, whens: seq<(Value, Value)>)

  datatype CmpOp = Eq | Lt | Le | Ge

  datatype Cond =
    | Compare(op: CmpOp, lhs: Expr, rhs: Expr)
    | And(left: Cond, right: Cond)

  /** `substr(s, start, length)` on a text: at most `length` characters from position `start`. */
  function SubstrText(s: string, start: Position, length: nat): (r: string)
    ensures |r| <= length
  {
    var b := if start - 1 <= |s| then start - 1 else |s|;
    var e := if start - 1 + length <= |s| then start - 1 + length else |s|;
    s[b..e]
  }

  /**
   * `substr` of a stored value. The queries apply it only to DATE, a TEXT
   * column; SQLite converts every number written to a TEXT column into text,
   * so a number never reaches it and is read here as NULL.
   */
  function SubstrValue(v: Value, start: Position, length: nat): Value {
    match v
    case Text(s) => Text(SubstrText(s, start, length))
    case _ => Null
  }

  /**
   * `strftime('%m', v)` and `strftime('%Y', v)`: the month or year field of
   * a `YYYY-MM-DD` text that names a calendar date; NULL for NULL and for
   * every other value.
   */
  function StrftimeValue(part: DatePart, v: Value): (r: Value)
    ensures r != Null ==> v.Text? && IsoDate.IsIsoDate(v.s)
  {
    match v
    case Text(s) =>
      if IsoDate.IsIsoDate(s) then
        Text(if part == Month then IsoDate.IsoMonth(s) else IsoDate.IsoYear(s))
      else Null
    case _ => Null
  }

  /** A WHERE comparison: NULL on either side makes it not hold. */
  predicate Satisfies(op: CmpOp, a: Value, b: Value) {
    a != Null && b != Null &&
    match op
    case Eq => a == b
    case Lt => Less(a, b)
    case Le => LessEq(a, b)
    case Ge => LessEq(b, a)
  }

  /** `CASE WHEN v = w1 THEN r1 WHEN v = w2 THEN r2 ... END`: the first match, else NULL. */
  function CaseValue(v: Value, whens: seq<(Value, Value)>): (r: Value)
    ensures r == Null || exists i :: 0 <= i < |whens| && r == whens[i].1 && Satisfies(Eq, v, whens[i].0)
  {
    if whens == [] then Null
    else if Satisfies(Eq, v, whens[0].0) then whens[0].1
    else
      var r := CaseValue(v, whens[1..]);
      assert r != Null ==> exists i :: 0 <= i < |whens| && r == whens[i].1 && Satisfies(Eq, v, whens[i].0) by {
        if r != Null {
          var i :| 0 <= i < |whens[1..]| && r == whens[1..][i].1 && Satisfies(Eq, v, whens[1..][i].0);
          assert whens[i + 1] == whens[1..][i];
        }
      }
      r
  }

  /** With non-NULL `v`, CASE yields the result of the first WHEN whose value is `v`. */
  lemma {:induction false} CaseValueMatch(v: Value, whens: seq<(Value, Value)>, i: nat)
    requires i < |whens| && v != Null && whens[i].0 == v
    requires forall j :: 0 <= j < i ==> whens[j].0 != v
    ensures CaseValue(v, whens) == whens[i].1
  {
    if i > 0 {
      CaseValueMatch(v, whens[1..], i - 1);
    }
  }

  /** CASE yields NULL when no WHEN has the value `v`. */
  lemma {:induction false} CaseValueNoMatch(v: Value, whens: seq<(Value, Value)>)
    requires forall j :: 0 <= j < |whens| ==> whens[j].0 != v
    ensures CaseValue(v, whens) == Null
  {
    if whens != [] {
      CaseValueNoMatch(v, whens[1..]);
    }
  }

  /** The value in column `col` of a row; a stored row has every column, so NULL past the end only keeps this total. */
  function Cell(row: Row, col: nat): Value {
    if col < |row| then row[col] else Null
  }

  /**
   * The value of an expression on a row. Every row of a table has every
   * column; an index past the end reads as NULL only to keep this total.
   */
  function Eval(row: Row, e: Expr): Value {
    match e
    case Column(i) => Cell(row, i)
    case Param(v) => v
    case Substr(a, start, length) => SubstrValue(Eval(row, a), start, length)
    case Strftime(part, a) => StrftimeValue(part, Eval(row, a))
    case Case(a, whens) => CaseValue(Eval(row, a), whens)
  }

  predicate Holds(row: Row, c: Cond) {
    match c
    case Compare(op, l, r) => Satisfies(op, Eval(row, l), Eval(row, r))
    case And(x, y) => Holds(row, x) && Holds(row, y)
  }

  /** `col >= lo AND col <= hi`, the range test every date and time filter uses. */
  function Between(col: nat, lo: Value, hi: Value): Cond {
    And(Compare(Ge, Column(col), Param(lo)), Compare(Le, Column(col), Param(hi)))
  }

  /** A cell inside the range is exactly a non-NULL value between the two non-NULL bounds. */
  lemma BetweenHolds(row: Row, col: nat, lo: Value, hi: Value)
    ensures Holds(row, Between(col, lo, hi))
            <==> col < |row| && row[col] != Null && lo != Null && hi != Null
                 && LessEq(lo, row[col]) && LessEq(row[col], hi)
  {
  }

  /** A TEXT value inside the inclusive BINARY range `[lo, hi]`. */
  predicate InTextRange(v: Value, lo: string, hi: string) {
    v.Text? && TextLe(lo, v.s) && TextLe(v.s, hi)
  }

  /** Against text bounds the range test holds exactly for a text cell inside them: NULL and numbers never pass. */
  lemma TextRangeHolds(row: Row, col: nat, lo: string, hi: string)
    ensures Holds(row, Between(col, Text(lo), Text(hi))) <==> InTextRange(Cell(row, col), lo, hi)
  {
  }

  lemma TextRangeWidens(v: Value, lo: string, hi: string, lo': string, hi': string)
    requires TextLe(lo', lo) && TextLe(hi, hi')
    requires InTextRange(v, lo, hi)
    ensures InTextRange(v, lo', hi')
  {
    LessEqTransitive(Text(lo'), Text(lo), v);
    LessEqTransitive(v, Text(hi), Text(hi'));
  }

  /** Widening the range keeps every row that was inside it. */
  lemma BetweenWidens(row: Row, col: nat, lo: Value, hi: Value, lo': Value, hi': Value)
    requires lo' != Null && hi' != Null
    requires LessEq(lo', lo) && LessEq(hi, hi')
    requires Holds(row, Between(col, lo, hi))
    ensures Holds(row, Between(col, lo', hi'))
  {
    LessEqTransitive(lo', lo, row[col]);
    LessEqTransitive(row[col], hi, hi');
  }

  // ---------------------------------------------------------------------------
  // SELECT COUNT(*) ... WHERE and SELECT * ... WHERE
  // ---------------------------------------------------------------------------

  /** `SELECT COUNT(*) FROM t WHERE c`. */
  function CountWhere(rows: seq<Row>, c: Cond): (n: nat)
    ensures n <= |rows|
    decreases |rows|
  {
    if rows == [] then 0
    else CountWhere(rows[..|rows| - 1], c) + (if Holds(rows[|rows| - 1], c) then 1 else 0)
  }

  /** The positions of the rows that meet `c`. */
  function Matching(rows: seq<Row>, c: Cond): set<nat> {
    set i: nat | i < |rows| && Holds(rows[i], c)
  }

  /** COUNT(*) is the number of rows of the table that meet the condition. */
  lemma {:induction false} CountWhereCardinality(rows: seq<Row>, c: Cond)
    ensures CountWhere(rows, c) == |Matching(rows, c)|
    decreases |rows|
  {
    if rows != [] {
      var n := |rows| - 1;
      CountWhereCardinality(rows[..n], c);
      MatchingSnoc(rows, c);
    }
  }

  lemma MatchingSnoc(rows: seq<Row>, c: Cond)
    requires rows != []
    ensures var n := |rows| - 1;
            Matching(rows, c) == Matching(rows[..n], c) + (if Holds(rows[n], c) then {n} else {})
            && n !in Matching(rows[..n], c)
  {
    var n := |rows| - 1;
    forall i: nat | i < n ensures rows[i] == rows[..n][i] { }
  }

  /** `SELECT * FROM t WHERE c`, in table order. */
  function Where(rows: seq<Row>, c: Cond): (r: seq<Row>)
    ensures |r| == CountWhere(rows, c)
    ensures forall i :: 0 <= i < |r| ==> Holds(r[i], c)
    ensures forall row :: multiset(r)[row] == if Holds(row, c) then multiset(rows)[row] else 0
    decreases |rows|
  {
    if rows == [] then []
    else
      var n := |rows| - 1;
      assert rows == rows[..n] + [rows[n]];
      Where(rows[..n], c) + (if Holds(rows[n], c) then [rows[n]] else [])
  }

  /** A condition that every row meeting `c1` also meets counts at least as many rows. */
  lemma {:induction false} CountWhereMonotone(rows: seq<Row>, c1: Cond, c2: Cond)
    requires forall i :: 0 <= i < |rows| && Holds(rows[i], c1) ==> Holds(rows[i], c2)
    ensures CountWhere(rows, c1) <= CountWhere(rows, c2)
    decreases |rows|
  {
    if rows != [] {
      CountWhereMonotone(rows[..|rows| - 1], c1, c2);
    }
  }

  /** A condition every row meets counts the whole table. */
  lemma {:induction false} CountWhereAll(rows: seq<Row>, c: Cond)
    requires forall i :: 0 <= i < |rows| ==> Holds(rows[i], c)
    ensures CountWhere(rows, c) == |rows|
    decreases |rows|
  {
    if rows != [] {
      CountWhereAll(rows[..|rows| - 1], c);
    }
  }

  /** A condition that no row meets counts nothing. */
  lemma {:induction false} CountWhereNone(rows: seq<Row>, c: Cond)
    requires forall i :: 0 <= i < |rows| ==> !Holds(rows[i], c)
    ensures CountWhere(rows, c) == 0
    decreases |rows|
  {
    if rows != [] {
      CountWhereNone(rows[..|rows| - 1], c);
    }
  }

  /** A condition that holds exactly when one of two exclusive conditions holds counts the sum of their counts. */
  lemma {:induction false} CountWhereSplit(rows: seq<Row>, c: Cond, part: Cond, rest: Cond)
    requires forall i :: 0 <= i < |rows| ==>
               (Holds(rows[i], c) <==> Holds(rows[i], part) || Holds(rows[i], rest))
    requires forall i :: 0 <= i < |rows| ==> !(Holds(rows[i], part) && Holds(rows[i], rest))
    ensures CountWhere(rows, c) == CountWhere(rows, part) + CountWhere(rows, rest)
    decreases |rows|
  {
    if rows != [] {
      CountWhereSplit(rows[..|rows| - 1], c, part, rest);
    }
  }

  /** A count over a text range is the number of rows whose cell lies inside it. */
  lemma CountTextRange(rows: seq<Row>, col: nat, lo: string, hi: string)
    ensures CountWhere(rows, Between(col, Text(lo), Text(hi)))
            == |set i: nat | i < |rows| && InTextRange(Cell(rows[i], col), lo, hi)|
  {
    var c := Between(col, Text(lo), Text(hi));
    CountWhereCardinality(rows, c);
    forall i: nat | i < |rows| ensures Holds(rows[i], c) <==> InTextRange(Cell(rows[i], col), lo, hi) {
      TextRangeHolds(rows[i], col, lo, hi);
    }
    assert Matching(rows, c) == set i: nat | i < |rows| && InTextRange(Cell(rows[i], col), lo, hi);
  }

  /** A wider text range counts at least as many rows. */
  lemma CountTextRangeWidens(rows: seq<Row>, col: nat, lo: string, hi: string, lo': string, hi': string)
    requires TextLe(lo', lo) && TextLe(hi, hi')
    ensures CountWhere(rows, Between(col, Text(lo), Text(hi)))
            <= CountWhere(rows, Between(col, Text(lo'), Text(hi')))
  {
    forall i | 0 <= i < |rows| && Holds(rows[i], Between(col, Text(lo), Text(hi)))
      ensures Holds(rows[i], Between(col, Text(lo'), Text(hi')))
    {
      TextRangeHolds(rows[i], col, lo, hi);
      TextRangeHolds(rows[i], col, lo', hi');
      TextRangeWidens(Cell(rows[i], col), lo, hi, lo', hi');
    }
    CountWhereMonotone(rows, Between(col, Text(lo), Text(hi)), Between(col, Text(lo'), Text(hi')));
  }

  // ---------------------------------------------------------------------------
  // ORDER BY key DESC LIMIT n
  // ---------------------------------------------------------------------------

  predicate SortedDesc(s: seq<Row>, key: Expr) {
    forall i, j :: 0 <= i < j < |s| ==> LessEq(Eval(s[j], key), Eval(s[i], key))
  }

  lemma PrependKeepsSorted(row: Row, sorted: seq<Row>, key: Expr)
    requires SortedDesc(sorted, key) && sorted != []
    requires LessEq(Eval(sorted[0], key), Eval(row, key))
    ensures SortedDesc([row] + sorted, key)
  {
    var r := [row] + sorted;
    forall i, j | 0 <= i < j < |r| ensures LessEq(Eval(r[j], key), Eval(r[i], key)) {
      if i == 0 && j > 1 {
        LessEqTransitive(Eval(sorted[j - 1], key), Eval(sorted[0], key), Eval(row, key));
      }
    }
  }

  lemma InsertBelowHead(row: Row, sorted: seq<Row>, rest: seq<Row>, key: Expr)
    requires SortedDesc(sorted, key) && sorted != [] && SortedDesc(rest, key)
    requires LessEq(Eval(row, key), Eval(sorted[0], key))
    requires multiset(rest) == multiset(sorted[1..]) + multiset{row}
    ensures SortedDesc([sorted[0]] + rest, key)
  {
    var r := [sorted[0]] + rest;
    forall i, j | 0 <= i < j < |r| ensures LessEq(Eval(r[j], key), Eval(r[i], key)) {
      assert r[j] == rest[j - 1];
      if i == 0 {
        BelowHead(row, sorted, rest, key, j - 1);
      } else {
        assert r[i] == rest[i - 1];
      }
    }
  }

  lemma BelowHead(row: Row, sorted: seq<Row>, rest: seq<Row>, key: Expr, j: nat)
    requires SortedDesc(sorted, key) && sorted != [] && j < |rest|
    requires LessEq(Eval(row, key), Eval(sorted[0], key))
    requires multiset(rest) == multiset(sorted[1..]) + multiset{row}
    ensures LessEq(Eval(rest[j], key), Eval(sorted[0], key))
  {
    assert rest[j] in multiset(rest);
    if rest[j] != row {
      assert rest[j] in multiset(sorted[1..]);
      var k :| 1 <= k < |sorted| && sorted[k] == rest[j];
    }
  }

  /** Places `row` before the first row whose key is not above its own. */
  function InsertDesc(row: Row, sorted: seq<Row>, key: Expr): (r: seq<Row>)
    requires SortedDesc(sorted, key)
    ensures SortedDesc(r, key)
    ensures multiset(r) == multiset(sorted) + multiset{row}
  {
    if sorted == [] then [row]
    else if LessEq(Eval(sorted[0], key), Eval(row, key)) then
      PrependKeepsSorted(row, sorted, key);
      [row] + sorted
    else
      var rest := InsertDesc(row, sorted[1..], key);
      assert sorted == [sorted[0]] + sorted[1..];
      NotLessIsLessEq(Eval(sorted[0], key), Eval(row, key));
      InsertBelowHead(row, sorted, rest, key);
      [sorted[0]] + rest
  }

  /** The rows in non-increasing key order (an insertion sort). */
  function SortDesc(rows: seq<Row>, key: Expr): (r: seq<Row>)
    ensures SortedDesc(r, key)
    ensures multiset(r) == multiset(rows)
    ensures |r| == |rows|
  {
    if rows == [] then []
    else
      assert rows == [rows[0]] + rows[1..];
      InsertDesc(rows[0], SortDesc(rows[1..], key), key)
  }

  /** The number of rows `LIMIT n` keeps: SQLite reads a negative limit as no limit. */
  function LimitCount(available: nat, limit: int): (k: nat)
    ensures k <= available
    ensures limit < 0 ==> k == available
    ensures limit >= 0 ==> k == if limit < available then limit else available
  {
    if limit < 0 || available <= limit then available else limit
  }

  lemma TopOfSorted(s: seq<Row>, key: Expr, k: nat)
    requires SortedDesc(s, key) && k <= |s|
    ensures multiset(s[..k]) <= multiset(s)
    ensures SortedDesc(s[..k], key)
    ensures forall x, y :: x in multiset(s) - multiset(s[..k]) && y in s[..k] ==> LessEq(Eval(x, key), Eval(y, key))
  {
    SplitMultiset(s, k);
    PrefixSorted(s, key, k);
    TailBelowPrefix(s, key, k);
  }

  lemma SplitMultiset(s: seq<Row>, k: nat)
    requires k <= |s|
    ensures multiset(s[..k]) <= multiset(s)
    ensures multiset(s) - multiset(s[..k]) == multiset(s[k..])
  {
    assert s == s[..k] + s[k..];
  }

  lemma PrefixSorted(s: seq<Row>, key: Expr, k: nat)
    requires SortedDesc(s, key) && k <= |s|
    ensures SortedDesc(s[..k], key)
  {
    forall i, j | 0 <= i < j < k ensures LessEq(Eval(s[..k][j], key), Eval(s[..k][i], key)) {
      assert s[..k][j] == s[j] && s[..k][i] == s[i];
    }
  }

  lemma TailBelowPrefix(s: seq<Row>, key: Expr, k: nat)
    requires SortedDesc(s, key) && k <= |s|
    ensures forall x, y :: x in multiset(s[k..]) && y in s[..k] ==> LessEq(Eval(x, key), Eval(y, key))
  {
    forall x, y | x in multiset(s[k..]) && y in s[..k] ensures LessEq(Eval(x, key), Eval(y, key)) {
      var j :| 0 <= j < |s[k..]| && s[k..][j] == x;
      var i :| 0 <= i < k && s[..k][i] == y;
      assert s[k + j] == x && s[i] == y;
    }
  }

  /**
   * `SELECT * FROM t ORDER BY key DESC LIMIT limit`: as many rows as the
   * limit allows, drawn from the table, in non-increasing key order, and no
   * row left out has a key above a row kept. Which of several rows with equal
   * keys is kept is SQLite's choice; nothing here depends on it.
   */
  function OrderByDescLimit(rows: seq<Row>, key: Expr, limit: int): (r: seq<Row>)
    ensures |r| == LimitCount(|rows|, limit)
    ensures multiset(r) <= multiset(rows)
    ensures SortedDesc(r, key)
    ensures forall x, y :: x in multiset(rows) - multiset(r) && y in r ==> LessEq(Eval(x, key), Eval(y, key))
  {
    var s := SortDesc(rows, key);
    var k := LimitCount(|rows|, limit);
    TopOfSorted(s, key, k);
    s[..k]
  }

  /**
   * `SELECT * FROM t WHERE c ORDER BY key DESC LIMIT limit`: as many
   * matching rows as the limit allows, drawn from the table, in
   * non-increasing key order, and no matching row left out has a key above a
   * row kept.
   */
  function TopWhere(rows: seq<Row>, c: Cond, key: Expr, limit: int): (r: seq<Row>)
    ensures |r| == LimitCount(CountWhere(rows, c), limit)
    ensures forall i :: 0 <= i < |r| ==> Holds(r[i], c)
    ensures multiset(r) <= multiset(rows)
    ensures SortedDesc(r, key)
    ensures forall x, y :: x in multiset(rows) - multiset(r) && Holds(x, c) && y in r
                           ==> LessEq(Eval(x, key), Eval(y, key))
  {
    var w := Where(rows, c);
    var r := OrderByDescLimit(w, key, limit);
    assert forall i :: 0 <= i < |r| ==> Holds(r[i], c) by {
      forall i | 0 <= i < |r| ensures Holds(r[i], c) {
        assert r[i] in multiset(w);
      }
    }
    assert forall x :: x in multiset(rows) - multiset(r) && Holds(x, c) ==> x in multiset(w) - multiset(r);
    r
  }

  /** `col BETWEEN lo AND hi` with text bounds holds exactly when the cell lies in the text range. */
  lemma BetweenIsTextRange(col: nat, lo: string, hi: string)
    ensures forall row :: Holds(row, Between(col, Text(lo), Text(hi))) <==> InTextRange(Cell(row, col), lo, hi)
  {
    forall row ensures Holds(row, Between(col, Text(lo), Text(hi))) <==> InTextRange(Cell(row, col), lo, hi) {
      TextRangeHolds(row, col, lo, hi);
    }
  }

  /**
   * `SELECT * FROM t WHERE col BETWEEN lo AND hi ORDER BY key DESC LIMIT n`
   * with text bounds: as many rows in the range as the limit allows, from the
   * table, by key from the highest down; no row in the range left out has a
   * key above a row kept.
   */
  function TopInTextRange(rows: seq<Row>, col: nat, lo: string, hi: string, key: nat, limit: int): (r: seq<Row>)
    ensures |r| == LimitCount(|set i: nat | i < |rows| && InTextRange(Cell(rows[i], col), lo, hi)|, limit)
    ensures forall i :: 0 <= i < |r| ==> InTextRange(Cell(r[i], col), lo, hi)
    ensures multiset(r) <= multiset(rows)
    ensures forall i, j :: 0 <= i < j < |r| ==> LessEq(Cell(r[j], key), Cell(r[i], key))
    ensures forall x, y :: x in multiset(rows) - multiset(r) && InTextRange(Cell(x, col), lo, hi) && y in r
                           ==> LessEq(Cell(x, key), Cell(y, key))
  {
    var c := Between(col, Text(lo), Text(hi));
    var r := TopWhere(rows, c, Column(key), limit);
    CountTextRange(rows, col, lo, hi);
    KeptInRange(r, col, lo, hi);
    SortedByCell(r, key);
    LeftOutInRangeBelow(rows, r, col, lo, hi, key);
    r
  }

  lemma KeptInRange(r: seq<Row>, col: nat, lo: string, hi: string)
    requires forall i :: 0 <= i < |r| ==> Holds(r[i], Between(col, Text(lo), Text(hi)))
    ensures forall i :: 0 <= i < |r| ==> InTextRange(Cell(r[i], col), lo, hi)
  {
    BetweenIsTextRange(col, lo, hi);
  }

  lemma SortedByCell(r: seq<Row>, key: nat)
    requires SortedDesc(r, Column(key))
    ensures forall i, j :: 0 <= i < j < |r| ==> LessEq(Cell(r[j], key), Cell(r[i], key))
  {
    forall i, j | 0 <= i < j < |r| ensures LessEq(Cell(r[j], key), Cell(r[i], key)) {
      assert LessEq(Eval(r[j], Column(key)), Eval(r[i], Column(key)));
    }
  }

  lemma LeftOutInRangeBelow(rows: seq<Row>, r: seq<Row>, col: nat, lo: string, hi: string, key: nat)
    requires forall x, y :: x in multiset(rows) - multiset(r) && Holds(x, Between(col, Text(lo), Text(hi))) && y in r
                            ==> LessEq(Eval(x, Column(key)), Eval(y, Column(key)))
    ensures forall x, y :: x in multiset(rows) - multiset(r) && InTextRange(Cell(x, col), lo, hi) && y in r
                           ==> LessEq(Cell(x, key), Cell(y, key))
  {
    BetweenIsTextRange(col, lo, hi);
    forall x, y | x in multiset(rows) - multiset(r) && InTextRange(Cell(x, col), lo, hi) && y in r
      ensures LessEq(Cell(x, key), Cell(y, key))
    {
      assert LessEq(Eval(x, Column(key)), Eval(y, Column(key)));
    }
  }

  /** With a row in the range and a limit other than 0 something is returned. */
  lemma TopInTextRangeNonEmpty(rows: seq<Row>, col: nat, lo: string, hi: string, key: nat, limit: int, k: nat)
    requires k < |rows| && InTextRange(Cell(rows[k], col), lo, hi)
    requires limit != 0
    ensures TopInTextRange(rows, col, lo, hi, key, limit) != []
  {
    var inRange := set i: nat | i < |rows| && InTextRange(Cell(rows[i], col), lo, hi);
    assert k in inRange;
  }

  /** The first row returned has a key at least that of any row in the range. */
  lemma TopInTextRangeFirstIsMax(rows: seq<Row>, col: nat, lo: string, hi: string, key: nat, limit: int, k: nat)
    requires k < |rows| && InTextRange(Cell(rows[k], col), lo, hi)
    requires TopInTextRange(rows, col, lo, hi, key, limit) != []
    ensures LessEq(Cell(rows[k], key), Cell(TopInTextRange(rows, col, lo, hi, key, limit)[0], key))
  {
    var r := TopInTextRange(rows, col, lo, hi, key, limit);
    var x := rows[k];
    if x in r {
      var i :| 0 <= i < |r| && r[i] == x;
      if i > 0 {
        assert LessEq(Cell(r[i], key), Cell(r[0], key));
      }
    } else {
      assert x in multiset(rows) - multiset(r);
    }
  }

  // ---------------------------------------------------------------------------
  // SELECT key, COUNT(*) ... GROUP BY key ORDER BY key
  // ---------------------------------------------------------------------------

  /** Group keys strictly ascending: each key once, in ORDER BY order. */
  predicate StrictlyAscending(groups: seq<(Value, nat)>) {
    forall i, j :: 0 <= i < j < |groups| ==> Less(groups[i].0, groups[j].0)
  }

  /** The count recorded for `v`, 0 when `v` has no group. */
  function CountOf(groups: seq<(Value, nat)>, v: Value): nat {
    if groups == [] then 0
    else if groups[0].0 == v then groups[0].1
    else CountOf(groups[1..], v)
  }

  function SumCounts(groups: seq<(Value, nat)>): nat {
    if groups == [] then 0 else groups[0].1 + SumCounts(groups[1..])
  }

  predicate AllPositive(groups: seq<(Value, nat)>) {
    forall i :: 0 <= i < |groups| ==> groups[i].1 >= 1
  }

  /** One more row with key `k`: its group's count goes up by one, or a new group is opened in place. */
  function AddToGroups(groups: seq<(Value, nat)>, k: Value): (r: seq<(Value, nat)>)
    requires StrictlyAscending(groups) && AllPositive(groups)
    ensures StrictlyAscending(r) && AllPositive(r)
    ensures forall v :: CountOf(r, v) == CountOf(groups, v) + (if v == k then 1 else 0)
    ensures SumCounts(r) == SumCounts(groups) + 1
    ensures forall i :: 0 <= i < |r| ==> r[i].0 == k || exists j :: 0 <= j < |groups| && groups[j].0 == r[i].0
  {
    if groups == [] then [(k, 1)]
    else if groups[0].0 == k then
      BumpFirst(groups, k);
      [(k, groups[0].1 + 1)] + groups[1..]
    else if Less(k, groups[0].0) then
      PrependBelow(groups, k);
      [(k, 1)] + groups
    else
      var rest := AddToGroups(groups[1..], k);
      NotLessIsLessEq(k, groups[0].0);
      ConsAbove(groups, rest, k);
      [groups[0]] + rest
  }

  /** A row with the first group's key raises that group's count. */
  lemma BumpFirst(groups: seq<(Value, nat)>, k: Value)
    requires StrictlyAscending(groups) && AllPositive(groups) && groups != [] && groups[0].0 == k
    ensures var r := [(k, groups[0].1 + 1)] + groups[1..];
            StrictlyAscending(r) && AllPositive(r)
            && (forall v :: CountOf(r, v) == CountOf(groups, v) + (if v == k then 1 else 0))
            && SumCounts(r) == SumCounts(groups) + 1
            && forall i :: 0 <= i < |r| ==> r[i].0 == groups[i].0
  {
    var r := [(k, groups[0].1 + 1)] + groups[1..];
    assert r[1..] == groups[1..];
    forall i, j | 0 <= i < j < |r| ensures Less(r[i].0, r[j].0) {
      assert r[i].0 == groups[i].0 && r[j].0 == groups[j].0;
    }
  }

  /** A new group for a key below every group key goes first. */
  lemma PrependBelow(groups: seq<(Value, nat)>, k: Value)
    requires StrictlyAscending(groups) && groups != [] && Less(k, groups[0].0)
    ensures StrictlyAscending([(k, 1)] + groups)
    ensures forall v :: CountOf([(k, 1)] + groups, v) == CountOf(groups, v) + (if v == k then 1 else 0)
  {
    var r := [(k, 1)] + groups;
    forall i, j | 0 <= i < j < |r| ensures Less(r[i].0, r[j].0) {
      if i == 0 && j > 1 {
        LessTransitive(k, groups[0].0, groups[j - 1].0);
      }
    }
    CountOfAbsentBelow(groups, k);
  }

  /** The first group stays first when the key added lies above it. */
  lemma ConsAbove(groups: seq<(Value, nat)>, rest: seq<(Value, nat)>, k: Value)
    requires StrictlyAscending(groups) && groups != [] && Less(groups[0].0, k)
    requires StrictlyAscending(rest)
    requires forall i :: 0 <= i < |rest| ==>
               rest[i].0 == k || exists j :: 0 <= j < |groups[1..]| && groups[1..][j].0 == rest[i].0
    ensures StrictlyAscending([groups[0]] + rest)
    ensures forall i :: 0 <= i < |[groups[0]] + rest| ==>
              ([groups[0]] + rest)[i].0 == k || exists j :: 0 <= j < |groups| && groups[j].0 == ([groups[0]] + rest)[i].0
  {
    var r := [groups[0]] + rest;
    forall i | 0 <= i < |rest| && rest[i].0 != k
      ensures Less(groups[0].0, rest[i].0) && exists j :: 0 <= j < |groups| && groups[j].0 == rest[i].0
    {
      var m :| 0 <= m < |groups[1..]| && groups[1..][m].0 == rest[i].0;
      assert groups[m + 1].0 == rest[i].0;
    }
    forall i, j | 0 <= i < j < |r| ensures Less(r[i].0, r[j].0) {
      if i > 0 {
        assert r[i] == rest[i - 1] && r[j] == rest[j - 1];
      }
    }
    forall i | 0 <= i < |r| && r[i].0 != k ensures exists j :: 0 <= j < |groups| && groups[j].0 == r[i].0 {
      if i == 0 {
        assert groups[0].0 == r[i].0;
      } else {
        assert r[i] == rest[i - 1];
      }
    }
  }

  /** A key below every group key has no group. */
  lemma CountOfAbsentBelow(groups: seq<(Value, nat)>, k: Value)
    requires StrictlyAscending(groups)
    requires groups != [] && Less(k, groups[0].0)
    ensures CountOf(groups, k) == 0
    decreases |groups|
  {
    LessIrreflexive(k);
    if |groups| > 1 {
      LessTransitive(k, groups[0].0, groups[1].0);
      CountOfAbsentBelow(groups[1..], k);
    }
  }

  /**
   * `SELECT key, COUNT(*) ... GROUP BY key ORDER BY key` over the key of each
   * row: distinct keys in ascending order (the NULL group first), each with
   * the number of rows that have it, at least one; the counts add up to the
   * number of rows.
   */
  function GroupCount(keys: seq<Value>): (groups: seq<(Value, nat)>)
    ensures StrictlyAscending(groups) && AllPositive(groups)
    ensures forall v :: CountOf(groups, v) == multiset(keys)[v]
    ensures SumCounts(groups) == |keys|
    decreases |keys|
  {
    if keys == [] then []
    else
      var n := |keys| - 1;
      assert keys == keys[..n] + [keys[n]];
      AddToGroups(GroupCount(keys[..n]), keys[n])
  }

  /** In strictly ascending groups the count of a group's own key is that group's count. */
  lemma {:induction false} CountOfAt(groups: seq<(Value, nat)>, i: nat)
    requires StrictlyAscending(groups) && i < |groups|
    ensures CountOf(groups, groups[i].0) == groups[i].1
  {
    if i > 0 {
      assert Less(groups[0].0, groups[i].0);
      LessIrreflexive(groups[i].0);
      CountOfAt(groups[1..], i - 1);
    }
  }

  /** A value that is no group's key has count 0. */
  lemma {:induction false} CountOfMissing(groups: seq<(Value, nat)>, v: Value)
    requires forall i :: 0 <= i < |groups| ==> groups[i].0 != v
    ensures CountOf(groups, v) == 0
  {
    if groups != [] {
      CountOfMissing(groups[1..], v);
    }
  }

  /** The key of each row, in table order. */
  function Project(rows: seq<Row>, key: Expr): (keys: seq<Value>)
    ensures |keys| == |rows|
    ensures forall i :: 0 <= i < |rows| ==> keys[i] == Eval(rows[i], key)
  {
    seq(|rows|, i requires 0 <= i < |rows| => Eval(rows[i], key))
  }

  /** The positions of the rows whose key is `v`. */
  function RowsWithKey(rows: seq<Row>, key: Expr, v: Value): set<nat> {
    set j: nat | j < |rows| && Eval(rows[j], key) == v
  }

  lemma ProjectSnoc(rows: seq<Row>, key: Expr)
    requires rows != []
    ensures Project(rows, key) == Project(rows[..|rows| - 1], key) + [Eval(rows[|rows| - 1], key)]
  {
    var n := |rows| - 1;
    assert Project(rows, key)[..n] == Project(rows[..n], key);
  }

  /** Row `j` is in the group of its own key. */
  lemma InOwnKeyGroup(rows: seq<Row>, key: Expr, j: nat)
    requires j < |rows|
    ensures j in RowsWithKey(rows, key, Eval(rows[j], key))
  {
  }

  lemma RowsWithKeySnoc(rows: seq<Row>, key: Expr, v: Value)
    requires rows != []
    ensures var n := |rows| - 1;
            RowsWithKey(rows, key, v) == RowsWithKey(rows[..n], key, v) + (if Eval(rows[n], key) == v then {n} else {})
  {
    var n := |rows| - 1;
    var front := rows[..n];
    forall j: nat | j < n ensures rows[j] == front[j] { }
  }

  /** One more row adds one to the number of rows with its own key and to no other. */
  lemma RowsWithKeyGrow(rows: seq<Row>, key: Expr, v: Value)
    requires rows != []
    ensures |RowsWithKey(rows, key, v)|
            == |RowsWithKey(rows[..|rows| - 1], key, v)| + (if Eval(rows[|rows| - 1], key) == v then 1 else 0)
  {
    var n := |rows| - 1;
    RowsWithKeySnoc(rows, key, v);
    assert n !in RowsWithKey(rows[..n], key, v);
  }

  /** How often `v` occurs among the keys is the number of rows with that key. */
  lemma {:induction false} ProjectMultiplicity(rows: seq<Row>, key: Expr, v: Value)
    ensures multiset(Project(rows, key))[v] == |RowsWithKey(rows, key, v)|
    decreases |rows|
  {
    if rows != [] {
      ProjectMultiplicity(rows[..|rows| - 1], key, v);
      ProjectSnoc(rows, key);
      RowsWithKeyGrow(rows, key, v);
    }
  }

  /**
   * `SELECT key, COUNT(*) FROM t GROUP BY key ORDER BY key`: the groups in
   * ascending key order, each key once (NULL first when present); a value is
   * a group key exactly when some row has it as key, each group counts the
   * rows with its key, at least one, and the counts sum to the row count.
   */
  function GroupByCount(rows: seq<Row>, key: Expr): (groups: seq<(Value, nat)>)
    ensures StrictlyAscending(groups)
    ensures forall i :: 0 <= i < |groups| ==>
              groups[i].1 >= 1 && groups[i].1 == |RowsWithKey(rows, key, groups[i].0)|
    ensures forall v :: RowsWithKey(rows, key, v) != {} <==> exists i :: 0 <= i < |groups| && groups[i].0 == v
    ensures SumCounts(groups) == |rows|
  {
    var keys := Project(rows, key);
    var groups := GroupCount(keys);
    forall i | 0 <= i < |groups| ensures groups[i].1 == |RowsWithKey(rows, key, groups[i].0)| {
      CountOfAt(groups, i);
      ProjectMultiplicity(rows, key, groups[i].0);
    }
    forall v ensures RowsWithKey(rows, key, v) != {} <==> exists i :: 0 <= i < |groups| && groups[i].0 == v {
      if RowsWithKey(rows, key, v) != {} {
        var j :| j in RowsWithKey(rows, key, v);
        assert keys[j] == v;
        if forall i :: 0 <= i < |groups| ==> groups[i].0 != v {
          CountOfMissing(groups, v);
          assert false;
        }
      }
      if exists i :: 0 <= i < |groups| && groups[i].0 == v {
        var i :| 0 <= i < |groups| && groups[i].0 == v;
        CountOfAt(groups, i);
        ProjectMultiplicity(rows, key, v);
      }
    }
    groups
  }

  /** Every group key is the key of some row. */
  lemma GroupKeyOccurs(rows: seq<Row>, key: Expr, i: nat)
    requires i < |GroupByCount(rows, key)|
    ensures exists j :: 0 <= j < |rows| && Eval(rows[j], key) == GroupByCount(rows, key)[i].0
  {
    var v := GroupByCount(rows, key)[i].0;
    assert RowsWithKey(rows, key, v) != {};
    var j :| j in RowsWithKey(rows, key, v);
  }

  /** Every row's key is a group key. */
  lemma RowKeyHasGroup(rows: seq<Row>, key: Expr, j: nat)
    requires j < |rows|
    ensures exists i :: 0 <= i < |GroupByCount(rows, key)| && GroupByCount(rows, key)[i].0 == Eval(rows[j], key)
  {
    var groups := GroupByCount(rows, key);
    var v := Eval(rows[j], key);
    InOwnKeyGroup(rows, key, j);
    assert j in RowsWithKey(rows, key, v);
    assert exists i :: 0 <= i < |groups| && groups[i].0 == v;
  }

  /** Rows that all share one key make a single group counting them all. */
  lemma OneKeyOneGroup(rows: seq<Row>, key: Expr, k: Value)
    requires rows != []
    requires forall j :: 0 <= j < |rows| ==> Eval(rows[j], key) == k
    ensures GroupByCount(rows, key) == [(k, |rows|)]
  {
    var groups := GroupByCount(rows, key);
    assert 0 in RowsWithKey(rows, key, k);
    var i0 :| 0 <= i0 < |groups| && groups[i0].0 == k;
    forall i | 0 <= i < |groups| ensures groups[i].0 == k {
      assert RowsWithKey(rows, key, groups[i].0) != {};
    }
    if |groups| > 1 {
      assert Less(groups[0].0, groups[1].0);
      LessIrreflexive(k);
    }
    assert groups == [groups[0]];
    assert SumCounts(groups) == groups[0].1;
  }

  // ---------------------------------------------------------------------------
  // (part / total) * 100
  // ---------------------------------------------------------------------------

  /** `(part / total) * 100` for a non-empty table, as an exact ratio. */
  function Ratio100(part: nat, total: nat): real
    requires total > 0
  {
    (part as real / total as real) * 100.0
  }

  lemma Ratio100Bounds(part: nat, total: nat)
    requires 0 < total && part <= total
    ensures 0.0 <= Ratio100(part, total) <= 100.0
    ensures part == total ==> Ratio100(part, total) == 100.0
    ensures part == 0 ==> Ratio100(part, total) == 0.0
  {
    assert part as real / total as real <= 1.0;
  }

  lemma Ratio100Monotone(part: nat, part': nat, total: nat)
    requires 0 < total && part <= part'
    ensures Ratio100(part, total) <= Ratio100(part', total)
  {
    assert part as real / total as real <= part' as real / total as real;
  }
}
