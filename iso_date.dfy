/**
 * `convert_to_iso_date` of storm_database.py: a CSV date cell written
 * `MM/DD/YYYY` becomes the text `YYYY-MM-DD`; a missing, blank or unparseable
 * cell, or a date the calendar does not have, becomes `None`.
 *
 * The conversion is Python's `str.strip`, then `datetime.strptime(_, "%m/%d/%Y")`
 * (which matches the regular expressions `1[0-2]|0[1-9]|[1-9]` for the month,
 * `3[0-1]|[1-2]\d|0[1-9]|[1-9]| [1-9]` for the day and `\d\d\d\d` for the year,
 * requires the whole text to be consumed, and then lets `datetime` reject
 * year 0 and days past the end of the month), then `strftime("%Y-%m-%d")`.
 * Here `\d` is an ASCII digit; Python's also matches the other Unicode
 * decimal digits.
 */
module IsoDate {
  import opened Wrappers
  import opened Collation

  // ---------------------------------------------------------------------------
  // Python's str.strip()
  // ---------------------------------------------------------------------------

  /** The characters for which Python's `str.isspace()` holds. */
  predicate IsPythonSpace(c: char) {
    c == ' ' || ('\t' <= c <= '\r') || ('\U{1c}' <= c <= '\U{1f}')
    || c == '\U{85}' || c == '\U{a0}' || c == '\U{1680}'
    || ('\U{2000}' <= c <= '\U{200a}') || c == '\U{2028}' || c == '\U{2029}'
    || c == '\U{202f}' || c == '\U{205f}' || c == '\U{3000}'
  }

  predicate AllSpace(s: string) {
    forall i :: 0 <= i < |s| ==> IsPythonSpace(s[i])
  }

  function TrimLeft(s: string): (r: string)
    ensures r == [] || !IsPythonSpace(r[0])
    decreases |s|
  {
    if s != [] && IsPythonSpace(s[0]) then TrimLeft(s[1..]) else s
  }

  function TrimRight(s: string): (r: string)
    ensures r == [] || !IsPythonSpace(r[|r| - 1])
    decreases |s|
  {
    if s != [] && IsPythonSpace(s[|s| - 1]) then TrimRight(s[..|s| - 1]) else s
  }

  /** `s.strip()`: leading and trailing whitespace removed. */
  function Strip(s: string): string {
    TrimRight(TrimLeft(s))
  }

  lemma {:induction false} TrimLeftSpaces(w: string, core: string)
    requires AllSpace(w)
    requires core == [] || !IsPythonSpace(core[0])
    ensures TrimLeft(w + core) == core
    decreases |w|
  {
    if w == [] {
      assert w + core == core;
    } else {
      assert (w + core)[1..] == w[1..] + core;
      TrimLeftSpaces(w[1..], core);
    }
  }

  lemma {:induction false} TrimRightSpaces(core: string, w: string)
    requires AllSpace(w)
    requires core == [] || !IsPythonSpace(core[|core| - 1])
    ensures TrimRight(core + w) == core
    decreases |w|
  {
    if w == [] {
      assert core + w == core;
    } else {
      assert (core + w)[..|core + w| - 1] == core + w[..|w| - 1];
      TrimRightSpaces(core, w[..|w| - 1]);
    }
  }

  /** Whitespace around a text that starts and ends with a non-space is what strip removes. */
  lemma StripSurrounded(w1: string, core: string, w2: string)
    requires AllSpace(w1) && AllSpace(w2)
    requires core != [] && !IsPythonSpace(core[0]) && !IsPythonSpace(core[|core| - 1])
    ensures Strip(w1 + core + w2) == core
  {
    assert w1 + core + w2 == w1 + (core + w2);
    TrimLeftSpaces(w1, core + w2);
    TrimRightSpaces(core, w2);
  }

  // ---------------------------------------------------------------------------
  // Decimal digits
  // ---------------------------------------------------------------------------

  predicate IsAsciiDigit(c: char) {
    '0' <= c <= '9'
  }

  predicate AllDigits(s: string) {
    forall i :: 0 <= i < |s| ==> IsAsciiDigit(s[i])
  }

  function DigitValue(c: char): (n: nat)
    requires IsAsciiDigit(c)
    ensures n < 10
  {
    (c as int) - ('0' as int)
  }

  function DigitChar(n: nat): (c: char)
    requires n < 10
    ensures IsAsciiDigit(c) && DigitValue(c) == n
  {
    (('0' as int) + n) as char
  }

  /** The number a text of decimal digits denotes. */
  function DecimalValue(s: string): nat
    requires AllDigits(s)
    decreases |s|
  {
    if s == [] then 0 else DecimalValue(s[..|s| - 1]) * 10 + DigitValue(s[|s| - 1])
  }

  function Pow10(n: nat): (p: nat)
    ensures p >= 1
  {
    if n == 0 then 1 else 10 * Pow10(n - 1)
  }

  /** `n` written with exactly `width` digits, zero-padded on the left (as `%0<width>d`). */
  function Padded(n: nat, width: nat): (r: string)
    ensures |r| == width && AllDigits(r)
  {
    if width == 0 then "" else Padded(n / 10, width - 1) + [DigitChar(n % 10)]
  }

  lemma {:induction false} PaddedValue(n: nat, width: nat)
    requires n < Pow10(width)
    ensures DecimalValue(Padded(n, width)) == n
  {
    if width > 0 {
      PaddedValue(n / 10, width - 1);
      var p := Padded(n, width);
      assert p[..|p| - 1] == Padded(n / 10, width - 1);
    }
  }

  // ---------------------------------------------------------------------------
  // The calendar that `datetime` enforces
  // ---------------------------------------------------------------------------

  datatype Date = Date(year: nat, month: nat, day: nat)

  predicate IsLeapYear(y: nat) {
    y % 4 == 0 && (y % 100 != 0 || y % 400 == 0)
  }

  function DaysInMonth(y: nat, m: nat): nat
    requires 1 <= m <= 12
  {
    if m == 2 then (if IsLeapYear(y) then 29 else 28)
    else if m == 4 || m == 6 || m == 9 || m == 11 then 30
    else 31
  }

  /** A date `datetime.date` accepts: years 1..9999 (MINYEAR..MAXYEAR), real months and days. */
  predicate ValidDate(d: Date) {
    1 <= d.year <= 9999 && 1 <= d.month <= 12 && 1 <= d.day <= DaysInMonth(d.year, d.month)
  }

  /** Chronological order of dates. */
  predicate DateLe(a: Date, b: Date) {
    a.year < b.year
    || (a.year == b.year && a.month < b.month)
    || (a.year == b.year && a.month == b.month && a.day <= b.day)
  }

  // ---------------------------------------------------------------------------
  // strptime(_, "%m/%d/%Y")
  // ---------------------------------------------------------------------------

  /** `s.split(sep)` (Python's `str.split` with an explicit separator). */
  function Split(s: string, sep: char): (parts: seq<string>)
    ensures |parts| >= 1
    decreases |s|
  {
    if s == [] then [""]
    else
      var rest := Split(s[1..], sep);
      if s[0] == sep then [""] + rest else [[s[0]] + rest[0]] + rest[1..]
  }

  lemma {:induction false} SplitNoSeparator(a: string, sep: char)
    requires sep !in a
    ensures Split(a, sep) == [a]
    decreases |a|
  {
    if a != [] {
      SplitNoSeparator(a[1..], sep);
      assert [a[0]] + a[1..] == a;
    }
  }

  lemma {:induction false} SplitAtSeparator(a: string, sep: char, b: string)
    requires sep !in a
    ensures Split(a + [sep] + b, sep) == [a] + Split(b, sep)
    decreases |a|
  {
    var s := a + [sep] + b;
    if a == [] {
      assert s[1..] == b;
    } else {
      assert s[1..] == a[1..] + [sep] + b;
      SplitAtSeparator(a[1..], sep, b);
      assert [a[0]] + a[1..] == a;
    }
  }

  /** `%m`: one digit 1-9, or two digits denoting 1..12. */
  function MonthField(f: string): Option<nat> {
    if |f| == 1 && IsAsciiDigit(f[0]) && f[0] != '0' then Some(DigitValue(f[0]))
    else if |f| == 2 && AllDigits(f) && 1 <= DecimalValue(f) <= 12 then Some(DecimalValue(f))
    else None
  }

  /** `%d`: one digit 1-9, two digits denoting 1..31, or a space and a digit 1-9. */
  function DayField(f: string): Option<nat> {
    if |f| == 1 && IsAsciiDigit(f[0]) && f[0] != '0' then Some(DigitValue(f[0]))
    else if |f| == 2 && AllDigits(f) && 1 <= DecimalValue(f) <= 31 then Some(DecimalValue(f))
    else if |f| == 2 && f[0] == ' ' && IsAsciiDigit(f[1]) && f[1] != '0' then Some(DigitValue(f[1]))
    else None
  }

  /** `%Y`: exactly four digits. */
  function YearField(f: string): Option<nat> {
    if |f| == 4 && AllDigits(f) then Some(DecimalValue(f)) else None
  }

  /**
   * The match of `(%m)/(%d)/(%Y)` against the whole text. None of the three
   * field patterns can match a '/', so the fields are exactly the three
   * '/'-separated pieces of the text.
   */
  function ParseUsDate(t: string): Option<Date> {
    var parts := Split(t, '/');
    if |parts| != 3 then None
    else
      match (MonthField(parts[0]), DayField(parts[1]), YearField(parts[2]))
      case (Some(m), Some(d), Some(y)) => Some(Date(y, m, d))
      case _ => None
  }

  // ---------------------------------------------------------------------------
  // strftime("%Y-%m-%d") and the shape of its output
  // ---------------------------------------------------------------------------

  function Format(d: Date): string {
    Padded(d.year, 4) + ("-" + (Padded(d.month, 2) + ("-" + Padded(d.day, 2))))
  }

  /** `YYYY-MM-DD`: digits and dashes in those places. */
  predicate HasIsoShape(s: string) {
    |s| == 10 && s[4] == '-' && s[7] == '-'
    && AllDigits(s[..4]) && AllDigits(s[5..7]) && AllDigits(s[8..])
  }

  function ParseIso(s: string): Date
    requires HasIsoShape(s)
  {
    Date(DecimalValue(s[..4]), DecimalValue(s[5..7]), DecimalValue(s[8..]))
  }

  /** A text that names a real calendar date in `YYYY-MM-DD` form. */
  predicate IsIsoDate(s: string) {
    HasIsoShape(s) && ValidDate(ParseIso(s))
  }

  /** The month and year fields of an ISO date text, as SQLite's strftime('%m') and strftime('%Y') give them. */
  function IsoMonth(s: string): string
    requires HasIsoShape(s)
  {
    s[5..7]
  }

  function IsoYear(s: string): string
    requires HasIsoShape(s)
  {
    s[..4]
  }

  lemma FormatPieces(d: Date)
    ensures |Format(d)| == 10
    ensures Format(d)[..4] == Padded(d.year, 4)
    ensures Format(d)[5..7] == Padded(d.month, 2)
    ensures Format(d)[8..] == Padded(d.day, 2)
    ensures HasIsoShape(Format(d))
  {
    var f := Format(d);
    assert f[..4] == Padded(d.year, 4);
    assert f[5..7] == Padded(d.month, 2);
    assert f[8..] == Padded(d.day, 2);
  }

  /** Reading back what strftime wrote gives the same date, and the text is an ISO date. */
  lemma FormatRoundTrip(d: Date)
    requires ValidDate(d)
    ensures HasIsoShape(Format(d)) && ParseIso(Format(d)) == d
    ensures IsIsoDate(Format(d))
    ensures IsoYear(Format(d)) == Padded(d.year, 4)
    ensures IsoMonth(Format(d)) == Padded(d.month, 2)
  {
    FormatPieces(d);
    assert Pow10(4) == 10000 && Pow10(2) == 100;
    PaddedValue(d.year, 4);
    PaddedValue(d.month, 2);
    PaddedValue(d.day, 2);
  }

  // ---------------------------------------------------------------------------
  // convert_to_iso_date
  // ---------------------------------------------------------------------------

  /**
   * `convert_to_iso_date(date_str)`. The argument is a CSV cell (a `str`) or
   * `None`; the result is the ISO text or `None`, never an exception.
   */
  function ConvertToIsoDate(dateStr: Option<string>): (r: Option<string>)
    ensures dateStr.None? || Strip(dateStr.value) == [] ==> r.None?
    ensures r.Some? ==> IsIsoDate(r.value)
    ensures r.Some? ==> dateStr.Some? && ParseUsDate(Strip(dateStr.value)).Some?
                        && r.value == Format(ParseUsDate(Strip(dateStr.value)).value)
  {
    match dateStr
    case None => None
    case Some(s) =>
      var t := Strip(s);
      if t == [] then None
      else
        match ParseUsDate(t)
        case Some(d) =>
          if ValidDate(d) then (FormatRoundTrip(d); Some(Format(d))) else None
        case None => None
  }

  /**
   * A `M/D/YYYY` text with the field forms strptime accepts, with any
   * surrounding whitespace, converts to the ISO text of the same year, month
   * and day when that is a calendar date, and to `None` when it is not.
   */
  lemma ParseFields(mf: string, df: string, yf: string)
    requires MonthField(mf).Some? && DayField(df).Some? && YearField(yf).Some?
    ensures ParseUsDate(mf + "/" + df + "/" + yf)
            == Some(Date(YearField(yf).value, MonthField(mf).value, DayField(df).value))
  {
    FieldHasNoSlash(mf);
    FieldHasNoSlash(df);
    FieldHasNoSlash(yf);
    var core := mf + "/" + df + "/" + yf;
    assert core == mf + ['/'] + (df + ['/'] + yf);
    SplitAtSeparator(mf, '/', df + ['/'] + yf);
    SplitAtSeparator(df, '/', yf);
    SplitNoSeparator(yf, '/');
    assert Split(core, '/') == [mf, df, yf];
  }

  /** A field any of `%m`, `%d`, `%Y` accepts is made of digits and spaces. */
  lemma FieldHasNoSlash(f: string)
    requires MonthField(f).Some? || DayField(f).Some? || YearField(f).Some?
    ensures '/' !in f
  {
  }

  lemma DigitsHaveNoSlash(s: string)
    requires AllDigits(s)
    ensures '/' !in s
  {
  }

  lemma PaddedDigit(n: nat)
    requires 1 <= n < 10
    ensures Padded(n, 1) == [DigitChar(n)]
    ensures Padded(n, 1)[0] != '0'
  {
    assert n / 10 == 0 && n % 10 == n;
    assert Padded(n, 1) == Padded(0, 0) + [DigitChar(n)];
    assert DigitValue(DigitChar(n)) == n;
  }

  lemma ConvertUsDate(w1: string, mf: string, df: string, yf: string, w2: string)
    requires AllSpace(w1) && AllSpace(w2)
    requires MonthField(mf).Some? && DayField(df).Some? && YearField(yf).Some?
    ensures var d := Date(YearField(yf).value, MonthField(mf).value, DayField(df).value);
            ConvertToIsoDate(Some(w1 + (mf + "/" + df + "/" + yf) + w2))
            == if ValidDate(d) then Some(Format(d)) else None
  {
    var core := mf + "/" + df + "/" + yf;
    assert core[0] == mf[0] && core[|core| - 1] == yf[3];
    StripSurrounded(w1, core, w2);
    ParseFields(mf, df, yf);
  }

  /** The field forms `%m` accepts for a month: zero-padded, and unpadded below 10. */
  lemma MonthFieldForms(m: nat)
    requires 1 <= m <= 12
    ensures MonthField(Padded(m, 2)) == Some(m)
    ensures m < 10 ==> MonthField(Padded(m, 1)) == Some(m)
  {
    assert Pow10(2) == 100;
    PaddedValue(m, 2);
    if m < 10 {
      PaddedDigit(m);
    }
  }

  /** The field forms `%d` accepts for a day: zero-padded, unpadded, and space-padded below 10. */
  lemma DayFieldForms(d: nat)
    requires 1 <= d <= 31
    ensures DayField(Padded(d, 2)) == Some(d)
    ensures d < 10 ==> DayField(Padded(d, 1)) == Some(d)
    ensures d < 10 ==> DayField(" " + Padded(d, 1)) == Some(d)
  {
    assert Pow10(2) == 100;
    PaddedValue(d, 2);
    if d < 10 {
      PaddedDigit(d);
      var p := Padded(d, 1);
      var f := " " + p;
      assert f[0] == ' ' && f[1] == p[0];
      assert !AllDigits(f) by { assert !IsAsciiDigit(f[0]); }
    }
  }

  lemma YearFieldForm(y: nat)
    requires y <= 9999
    ensures YearField(Padded(y, 4)) == Some(y)
  {
    assert Pow10(4) == 10000;
    PaddedValue(y, 4);
  }

  /** The zero-padded `MM/DD/YYYY` text of a calendar date converts to that date's ISO text. */
  lemma ConvertPaddedDate(d: Date)
    requires ValidDate(d)
    ensures ConvertToIsoDate(Some(Padded(d.month, 2) + "/" + Padded(d.day, 2) + "/" + Padded(d.year, 4)))
            == Some(Format(d))
  {
    MonthFieldForms(d.month);
    DayFieldForms(d.day);
    YearFieldForm(d.year);
    var core := Padded(d.month, 2) + "/" + Padded(d.day, 2) + "/" + Padded(d.year, 4);
    assert "" + core + "" == core;
    ConvertUsDate("", Padded(d.month, 2), Padded(d.day, 2), Padded(d.year, 4), "");
  }

  /** 30 February does not exist: the text parses but datetime rejects it, so the cell becomes None. */
  lemma ConvertNonexistentDate(s: string)
    requires s == "02/30/2000"
    ensures ConvertToIsoDate(Some(s)) == None
  {
    var mf, df, yf := Padded(2, 2), Padded(30, 2), Padded(2000, 4);
    MonthFieldForms(2);
    DayFieldForms(30);
    YearFieldForm(2000);
    ConvertUsDate("", mf, df, yf, "");
    assert !ValidDate(Date(2000, 2, 30));
    assert "" + (mf + "/" + df + "/" + yf) + "" == s by {
      PaddedMonth02();
      PaddedDay30();
      PaddedYear2000();
      NonexistentDateText(mf, df, yf);
    }
  }

  lemma NonexistentDateText(mf: string, df: string, yf: string)
    requires mf == "02" && df == "30" && yf == "2000"
    ensures "" + (mf + "/" + df + "/" + yf) + "" == "02/30/2000"
  {
  }

  lemma PaddedYear2000()
    ensures Padded(2000, 4) == "2000"
  {
    assert Padded(2, 1) == "2";
    assert Padded(20, 2) == "20";
    assert Padded(200, 3) == "200";
  }

  lemma PaddedMonth02()
    ensures Padded(2, 2) == "02"
  {
    assert Padded(0, 1) == "0";
  }

  lemma PaddedDay30()
    ensures Padded(30, 2) == "30"
  {
    assert Padded(3, 1) == "3";
  }

  /** A date already in ISO form is another format: it has no '/' and does not match. */
  lemma ConvertRejectsIsoInput(d: Date)
    requires ValidDate(d)
    ensures ConvertToIsoDate(Some(Format(d))) == None
  {
    var f := Format(d);
    FormatNoSlash(d);
    NoSlashNoParse(f);
  }

  lemma FormatNoSlash(d: Date)
    ensures '/' !in Format(d) && Strip(Format(d)) == Format(d)
  {
    var y, m, dd := Padded(d.year, 4), Padded(d.month, 2), Padded(d.day, 2);
    var f := Format(d);
    DigitsHaveNoSlash(y);
    DigitsHaveNoSlash(m);
    DigitsHaveNoSlash(dd);
    assert f[0] == y[0] && f[9] == dd[1];
    assert IsAsciiDigit(y[0]) && IsAsciiDigit(dd[1]);
    StripSurrounded("", f, "");
    assert "" + f + "" == f;
  }

  lemma NoSlashNoParse(t: string)
    requires '/' !in t
    ensures ParseUsDate(t) == None
  {
    SplitNoSeparator(t, '/');
  }

  // ---------------------------------------------------------------------------
  // Text order of ISO dates
  // ---------------------------------------------------------------------------

  /** Texts of equal length: the first difference decides, else the remainders do. */
  lemma {:induction false} TextLtEqualLengthPrefix(a: string, b: string, c: string, d: string)
    requires |a| == |b|
    ensures TextLt(a + c, b + d) <==> TextLt(a, b) || (a == b && TextLt(c, d))
    decreases |a|
  {
    if a == [] {
      assert a + c == c && b + d == d;
    } else {
      assert (a + c)[1..] == a[1..] + c && (b + d)[1..] == b[1..] + d;
      TextLtEqualLengthPrefix(a[1..], b[1..], c, d);
      if a[0] == b[0] && a[1..] == b[1..] {
        assert a == [a[0]] + a[1..] && b == [b[0]] + b[1..];
      }
    }
  }

  /** Zero-padded numbers of one width sort as text the way they sort as numbers. */
  lemma {:induction false} PaddedOrder(x: nat, y: nat, width: nat)
    requires x < Pow10(width) && y < Pow10(width)
    ensures TextLt(Padded(x, width), Padded(y, width)) <==> x < y
    ensures Padded(x, width) == Padded(y, width) <==> x == y
  {
    if width == 0 {
    } else {
      PaddedOrder(x / 10, y / 10, width - 1);
      var cx, cy := DigitChar(x % 10), DigitChar(y % 10);
      TextLtEqualLengthPrefix(Padded(x / 10, width - 1), Padded(y / 10, width - 1), [cx], [cy]);
      assert TextLt([cx], [cy]) <==> cx < cy;
      assert x == (x / 10) * 10 + x % 10 && y == (y / 10) * 10 + y % 10;
      var px, py := Padded(x, width), Padded(y, width);
      if px == py {
        assert px[..width - 1] == Padded(x / 10, width - 1);
        assert py[..width - 1] == Padded(y / 10, width - 1);
        assert px[width - 1] == cx && py[width - 1] == cy;
      }
    }
  }

  /** Field-by-field comparison of `Y-M-D` texts whose year and month fields have equal widths. */
  lemma DashedFieldsOrder(y1: string, m1: string, d1: string, y2: string, m2: string, d2: string)
    requires |y1| == |y2| && |m1| == |m2|
    ensures TextLt(y1 + ("-" + (m1 + ("-" + d1))), y2 + ("-" + (m2 + ("-" + d2))))
            <==> TextLt(y1, y2) || (y1 == y2 && (TextLt(m1, m2) || (m1 == m2 && TextLt(d1, d2))))
  {
    var r1, r2 := "-" + (m1 + ("-" + d1)), "-" + (m2 + ("-" + d2));
    TextLtEqualLengthPrefix(y1, y2, r1, r2);
    TextLtCommonPrefix("-", m1 + ("-" + d1), m2 + ("-" + d2));
    TextLtEqualLengthPrefix(m1, m2, "-" + d1, "-" + d2);
    TextLtCommonPrefix("-", d1, d2);
  }

  /**
   * On ISO texts the BINARY text order is the chronological order, so the
   * queries' `DATE >= start AND DATE <= end` selects a span of calendar time
   * when both bounds are ISO dates too.
   */
  lemma IsoOrderIsChronological(a: Date, b: Date)
    requires ValidDate(a) && ValidDate(b)
    ensures TextLe(Format(a), Format(b)) <==> DateLe(a, b)
  {
    assert Pow10(4) == 10000 && Pow10(2) == 100;
    PaddedOrder(a.year, b.year, 4);
    PaddedOrder(a.month, b.month, 2);
    PaddedOrder(a.day, b.day, 2);
    DashedFieldsOrder(Padded(a.year, 4), Padded(a.month, 2), Padded(a.day, 2),
                      Padded(b.year, 4), Padded(b.month, 2), Padded(b.day, 2));
    FormatRoundTrip(a);
    FormatRoundTrip(b);
  }
}
