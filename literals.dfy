/**
 * Value coercions of update-db.py: `parse_bool` (truthy token to 0/1) and
 * `to_sql_literal` (a cell rendered as an SQL literal), together with a
 * decoder of SQL literal text that states what each rendering means.
 */
module Literals {
  import opened Optional
  import opened Strings
  import opened Config

  // ---------------------------------------------------------------- booleans

  /** `parse_bool`: 1 exactly when the stripped, lower-cased cell is a whole truthy token. */
  function ParseBool(val: Option<string>): (r: int)
    ensures r == 0 || r == 1
    ensures r == 1 <==> val.Some? && Lower(Strip(val.value)) in Truthy
  {
    match val
    case None => 0
    case Some(v) => if Lower(Strip(v)) in Truthy then 1 else 0
  }

  /** No truthy token is empty or has whitespace at either end. */
  lemma TruthyTokensAreTrimmed(t: string)
    requires t in Truthy
    ensures t != [] && !IsSpace(t[0]) && !IsSpace(t[|t| - 1])
  {
  }

  /**
   * Any capitalisation of a truthy token, padded with any whitespace, parses
   * as 1: the match is case-insensitive and ignores surrounding blanks.
   */
  lemma {:induction false} ParseBoolAcceptsVariants(pre: string, u: string, post: string)
    requires AllSpace(pre) && AllSpace(post)
    requires Lower(u) in Truthy
    ensures ParseBool(Some(pre + u + post)) == 1
  {
    var t := Lower(u);
    TruthyTokensAreTrimmed(t);
    assert t[0] == LowerChar(u[0]) && t[|t| - 1] == LowerChar(u[|u| - 1]);
    StripPadded(pre, u, post);
  }

  // ---------------------------------------------------------------- integers

  predicate IsDigit(c: char) {
    '0' <= c <= '9'
  }

  predicate AllDigits(s: string) {
    forall i :: 0 <= i < |s| ==> IsDigit(s[i])
  }

  /**
   * The most digits `int()` converts from a string under Python's default
   * limit on integer string conversion; longer digit strings raise ValueError.
   */
  const MaxStrDigits: nat := 4300

  /**
   * What `int(s)` accepts here: an optional sign followed by one to
   * `MaxStrDigits` ASCII digits.
   */
  predicate IsIntLiteral(s: string) {
    if |s| > 0 && (s[0] == '+' || s[0] == '-') then 1 < |s| <= MaxStrDigits + 1 && AllDigits(s[1..])
    else 0 < |s| <= MaxStrDigits && AllDigits(s)
  }

  function DigitsValue(s: string): nat
    requires AllDigits(s)
  {
    if s == [] then 0 else DigitsValue(s[..|s| - 1]) * 10 + (s[|s| - 1] as int - '0' as int)
  }

  /** `int(s)` on an accepted literal. */
  function ParseInt(s: string): int
    requires IsIntLiteral(s)
  {
    if s[0] == '-' then -(DigitsValue(s[1..]) as int)
    else if s[0] == '+' then DigitsValue(s[1..])
    else DigitsValue(s)
  }

  function DigitChar(d: nat): (c: char)
    requires d < 10
    ensures IsDigit(c) && c as int - '0' as int == d
  {
    ('0' as int + d) as char
  }

  /** Decimal digits of `n` without leading zeros. */
  function NatToDecimal(n: nat): (r: string)
    ensures |r| > 0 && AllDigits(r)
    ensures |r| > 1 ==> r[0] != '0'
  {
    if n < 10 then [DigitChar(n)] else NatToDecimal(n / 10) + [DigitChar(n % 10)]
  }

  /** Python's `str(n)` for an integer. */
  function IntToDecimal(n: int): string {
    if n < 0 then "-" + NatToDecimal(-n) else NatToDecimal(n)
  }

  lemma {:induction false} NatToDecimalRoundTrip(n: nat)
    ensures DigitsValue(NatToDecimal(n)) == n
  {
    if n >= 10 {
      NatToDecimalRoundTrip(n / 10);
      var s := NatToDecimal(n);
      assert s[..|s| - 1] == NatToDecimal(n / 10);
    }
  }

  /** `str(n)` has at most `MaxStrDigits` digits, so `int()` reads it back. */
  predicate FitsDigitLimit(n: int) {
    |NatToDecimal(if n < 0 then -n else n)| <= MaxStrDigits
  }

  /** The value of a digit string has no more digits than the string (leading zeros drop out). */
  lemma {:induction false} DigitsValueLength(d: string)
    requires d != [] && AllDigits(d)
    ensures |NatToDecimal(DigitsValue(d))| <= |d|
  {
    var v := DigitsValue(d);
    if |d| > 1 && v >= 10 {
      var front := d[..|d| - 1];
      DigitsValueLength(front);
      assert v / 10 == DigitsValue(front);
    }
  }

  /** Whatever `int()` accepts converts back within the digit limit. */
  lemma ParseIntFits(s: string)
    requires IsIntLiteral(s)
    ensures FitsDigitLimit(ParseInt(s))
  {
    if s[0] == '-' || s[0] == '+' {
      DigitsValueLength(s[1..]);
    } else {
      DigitsValueLength(s);
    }
  }

  /** The decimal form `str(n)`, within the digit limit, is itself an integer literal of the same value. */
  lemma IntToDecimalRoundTrip(n: int)
    requires FitsDigitLimit(n)
    ensures IsIntLiteral(IntToDecimal(n)) && ParseInt(IntToDecimal(n)) == n
  {
    var d := NatToDecimal(if n < 0 then -n else n);
    NatToDecimalRoundTrip(if n < 0 then -n else n);
    if n < 0 {
      assert IntToDecimal(n)[1..] == d;
    }
  }

  // ---------------------------------------------------------------- quoting

  /** `s.replace("'", "''")`. */
  function EscapeQuotes(s: string): (r: string)
    ensures WellEscaped(r)
  {
    if s == [] then ""
    else if s[0] == '\'' then "''" + EscapeQuotes(s[1..])
    else [s[0]] + EscapeQuotes(s[1..])
  }

  /** Every quote character stands in a doubled pair. */
  predicate WellEscaped(e: string)
    decreases |e|
  {
    if e == [] then true
    else if e[0] == '\'' then |e| >= 2 && e[1] == '\'' && WellEscaped(e[2..])
    else WellEscaped(e[1..])
  }

  /** Reads the body of an SQL string literal: each doubled quote stands for one quote. */
  function UnescapeQuotes(e: string): string
    requires WellEscaped(e)
    decreases |e|
  {
    if e == [] then ""
    else if e[0] == '\'' then "'" + UnescapeQuotes(e[2..])
    else [e[0]] + UnescapeQuotes(e[1..])
  }

  lemma {:induction false} EscapeRoundTrip(s: string)
    ensures UnescapeQuotes(EscapeQuotes(s)) == s
  {
    if s != [] {
      EscapeRoundTrip(s[1..]);
      var e := EscapeQuotes(s);
      if s[0] == '\'' {
        assert e[2..] == EscapeQuotes(s[1..]);
      } else {
        assert e[1..] == EscapeQuotes(s[1..]);
      }
      assert s == [s[0]] + s[1..];
    }
  }

  // ---------------------------------------------------------------- literals

  /** `to_sql_literal` for a string cell or None (the float branch is not modelled). */
  function ToSqlLiteral(val: Option<string>, numericAsNull: bool): string {
    match val
    case None => "NULL"
    case Some(v) => TrimmedLiteral(Strip(v), numericAsNull)
  }

  /** `to_sql_literal` once the cell has been stripped to `s`. */
  function TrimmedLiteral(s: string, numericAsNull: bool): string {
    if s == "" then (if numericAsNull then "NULL" else "''")
    else if numericAsNull && IsIntLiteral(s) then IntToDecimal(ParseInt(s))
    else "'" + EscapeQuotes(s) + "'"
  }

  /** What an SQL literal denotes. */
  datatype SqlValue = Null | Integer(n: int) | Text(s: string) | Unreadable

  /** Reads SQL literal text back: NULL, a quoted string, or an integer. */
  function DecodeLiteral(r: string): SqlValue {
    if r == "NULL" then Null
    else if |r| >= 2 && r[0] == '\'' && r[|r| - 1] == '\'' && WellEscaped(r[1..|r| - 1]) then
      Text(UnescapeQuotes(r[1..|r| - 1]))
    else if IsIntLiteral(r) then Integer(ParseInt(r))
    else Unreadable
  }

  /** The value a cell is meant to store: None and blank-as-number are NULL, integers are numbers. */
  function Intended(val: Option<string>, numericAsNull: bool): SqlValue {
    match val
    case None => Null
    case Some(v) => TrimmedIntended(Strip(v), numericAsNull)
  }

  /** The value meant by the stripped cell `s`. */
  function TrimmedIntended(s: string, numericAsNull: bool): SqlValue {
    if s == "" && numericAsNull then Null
    else if numericAsNull && IsIntLiteral(s) then Integer(ParseInt(s))
    else Text(s)
  }

  /**
   * Reading back what `to_sql_literal` renders gives the stripped cell: NULL
   * for None (and for a blank cell rendered as a number), the integer for an
   * integer cell rendered as a number, and otherwise the text itself, every
   * quote restored from its doubled form.
   */
  lemma ToSqlLiteralDecodes(val: Option<string>, numericAsNull: bool)
    ensures DecodeLiteral(ToSqlLiteral(val, numericAsNull)) == Intended(val, numericAsNull)
  {
    if val.Some? {
      TrimmedLiteralDecodes(Strip(val.value), numericAsNull);
    }
  }

  lemma TrimmedLiteralDecodes(s: string, numericAsNull: bool)
    ensures DecodeLiteral(TrimmedLiteral(s, numericAsNull)) == TrimmedIntended(s, numericAsNull)
  {
    if s == "" {
      assert DecodeLiteral("''") == Text("");
    } else if numericAsNull && IsIntLiteral(s) {
      ParseIntFits(s);
      IntegerDecodes(ParseInt(s));
    } else {
      QuotedDecodes(s);
    }
  }

  /** The decimal form of an integer reads back as that integer. */
  lemma IntegerDecodes(n: int)
    requires FitsDigitLimit(n)
    ensures DecodeLiteral(IntToDecimal(n)) == Integer(n)
  {
    IntToDecimalRoundTrip(n);
    var r := IntToDecimal(n);
    assert r[0] == '-' || IsDigit(r[0]);
  }

  /** A quoted literal, its quotes doubled, reads back as the text itself. */
  lemma QuotedDecodes(s: string)
    ensures DecodeLiteral("'" + EscapeQuotes(s) + "'") == Text(s)
  {
    var r := "'" + EscapeQuotes(s) + "'";
    assert r[1..|r| - 1] == EscapeQuotes(s);
    assert r[0] == '\'';
    EscapeRoundTrip(s);
  }

  /** With `numeric_as_null`, a non-integer cell such as "abc" stays a quoted string, not NULL. */
  lemma NonNumericStaysQuoted(v: string)
    requires Strip(v) != "" && !IsIntLiteral(Strip(v))
    ensures DecodeLiteral(ToSqlLiteral(Some(v), true)) == Text(Strip(v))
  {
    ToSqlLiteralDecodes(Some(v), true);
  }
}
