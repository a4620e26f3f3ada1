/**
 * What SQLite stores when the loader binds a CSV cell (a Python `str`, or
 * `None` for a date that did not convert) into a column.
 *
 * `None` is stored as NULL. A TEXT column stores the text. A REAL or INTEGER
 * column stores a number when the text is a well-formed decimal literal
 * (surrounding blanks allowed, optional sign, digits with an optional point,
 * optional exponent) and otherwise keeps the text, so a blank cell `''` in a
 * numeric column is stored as the TEXT `''`.
 */
module Affinity {
  import opened Wrappers
  import opened Sql
  import IsoDate

  datatype ColumnAffinity = TextAffinity | RealAffinity | IntegerAffinity

  /** The blanks SQLite skips around a number: space, \t, \n, \v, \f, \r. */
  predicate IsSqlSpace(c: char) {
    c == ' ' || ('\t' <= c <= '\r')
  }

  function TrimSqlLeft(s: string): string
    decreases |s|
  {
    if s != [] && IsSqlSpace(s[0]) then TrimSqlLeft(s[1..]) else s
  }

  function TrimSqlRight(s: string): string
    decreases |s|
  {
    if s != [] && IsSqlSpace(s[|s| - 1]) then TrimSqlRight(s[..|s| - 1]) else s
  }

  /** The index of the first char of `s` in `cs`, or |s|. */
  function IndexOfAny(s: string, cs: set<char>): (i: nat)
    ensures i <= |s|
    ensures forall j :: 0 <= j < i ==> s[j] !in cs
    ensures i < |s| ==> s[i] in cs
  {
    if s == [] then 0
    else if s[0] in cs then 0
    else 1 + IndexOfAny(s[1..], cs)
  }

  function Pow10Real(e: int): (p: real)
    ensures p > 0.0
    decreases if e < 0 then -e else e
  {
    if e == 0 then 1.0
    else if e > 0 then 10.0 * Pow10Real(e - 1)
    else Pow10Real(e + 1) / 10.0
  }

  /** `digits`, `digits.`, `digits.digits` or `.digits`: the digit string and the number of fraction digits. */
  function ParseMantissa(m: string): Option<(string, nat)> {
    var p := IndexOfAny(m, {'.'});
    var whole := m[..p];
    var frac := if p < |m| then m[p + 1..] else "";
    if IsoDate.AllDigits(whole) && IsoDate.AllDigits(frac) && |whole| + |frac| >= 1
    then Some((whole + frac, |frac|))
    else None
  }

  /** An optionally signed, non-empty run of digits. */
  function ParseExponent(x: string): Option<int> {
    var negative := x != [] && x[0] == '-';
    var digits := if x != [] && (x[0] == '-' || x[0] == '+') then x[1..] else x;
    if digits != [] && IsoDate.AllDigits(digits) then
      Some(if negative then -(IsoDate.DecimalValue(digits) as int) else IsoDate.DecimalValue(digits))
    else None
  }

  /** The number a text denotes when it is a well-formed decimal literal. */
  function ParseNumeric(s: string): Option<real> {
    var t := TrimSqlRight(TrimSqlLeft(s));
    var negative := t != [] && t[0] == '-';
    var body := if t != [] && (t[0] == '-' || t[0] == '+') then t[1..] else t;
    var e := IndexOfAny(body, {'e', 'E'});
    var exponent := if e < |body| then ParseExponent(body[e + 1..]) else Some(0);
    match (ParseMantissa(body[..e]), exponent)
    case (Some((digits, fracDigits)), Some(x)) =>
      assert IsoDate.AllDigits(digits);
      var magnitude := IsoDate.DecimalValue(digits) as real * Pow10Real(x - fracDigits);
      Some(if negative then -magnitude else magnitude)
    case _ => None
  }

  /** The value stored for a bound cell in a column of the given affinity. */
  function ApplyAffinity(affinity: ColumnAffinity, cell: Option<string>): (v: Value)
    ensures cell.None? <==> v == Null
    ensures affinity == TextAffinity ==> !v.Num?
    ensures v.Text? ==> cell == Some(v.s)
  {
    match cell
    case None => Null
    case Some(s) =>
      if affinity == TextAffinity then Text(s)
      else match ParseNumeric(s)
        case Some(x) => Num(x)
        case None => Text(s)
  }

  /** A blank cell in a REAL or INTEGER column is not a number: it is stored as the empty TEXT. */
  lemma BlankCellStaysText(affinity: ColumnAffinity)
    ensures ApplyAffinity(affinity, Some("")) == Text("")
  {
    assert ParseMantissa("") == None;
  }

  /** A run of digits in a numeric column is stored as the number it denotes. */
  lemma DigitsBecomeNumber(affinity: ColumnAffinity, s: string)
    requires affinity != TextAffinity
    requires s != [] && IsoDate.AllDigits(s)
    ensures ApplyAffinity(affinity, Some(s)) == Num(IsoDate.DecimalValue(s) as real)
  {
    assert TrimSqlLeft(s) == s by {
      assert !IsSqlSpace(s[0]) by { assert IsoDate.IsAsciiDigit(s[0]); }
    }
    assert TrimSqlRight(s) == s by {
      assert !IsSqlSpace(s[|s| - 1]) by { assert IsoDate.IsAsciiDigit(s[|s| - 1]); }
    }
    assert s[0] != '-' && s[0] != '+' by { assert IsoDate.IsAsciiDigit(s[0]); }
    var e := IndexOfAny(s, {'e', 'E'});
    assert e == |s|;
    assert s[..e] == s;
    var p := IndexOfAny(s, {'.'});
    assert p == |s|;
    assert s[..p] == s && s + "" == s;
    assert ParseMantissa(s) == Some((s, 0));
  }
}
