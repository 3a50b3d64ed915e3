/**
 * SQL generation of update-db.py (`generate_insert_sql`): one multi-row
 * INSERT statement over the ten insert columns. Beside it, a reader for the
 * statement text, so that what is generated can be read back tuple by tuple
 * and value by value.
 */
module InsertSql {
  import opened Optional
  import opened Strings
  import opened Config
  import opened Rows
  import opened Literals

  /**
   * Value `k` of a row as rendered: `str(allow)` of the parsed volunteer flag
   * in slot 6 (`allow_valenteres`), `to_sql_literal` with `numeric_as_null`
   * in slot 8 (`max_valetires`) and plain `to_sql_literal` everywhere else.
   */
  function RenderSlot(row: Row, k: nat): string
    requires k < |TableColumns|
  {
    if k == 6 then IntToDecimal(ParseBool(Get(row, TableColumns[6])))
    else ToSqlLiteral(Get(row, TableColumns[k]), k == 8)
  }

  /** The ten rendered values of one row, in column order (`vals`). */
  function RowValues(row: Row): (vals: seq<string>)
    ensures |vals| == |TableColumns|
  {
    seq(|TableColumns|, k requires 0 <= k < |TableColumns| => RenderSlot(row, k))
  }

  /** One parenthesised tuple: the values joined by `", "`. */
  function RenderTuple(row: Row): string {
    "(" + Join(RowValues(row), ", ") + ")"
  }

  /** The volunteer slot is a bare `0` or `1`, never quoted and never NULL. */
  lemma AllowSlotIsBareBit(row: Row)
    ensures RowValues(row)[6] == "0" || RowValues(row)[6] == "1"
  {
    var b := ParseBool(Get(row, TableColumns[6]));
    assert RowValues(row)[6] == NatToDecimal(b);
  }

  /** `INSERT INTO <table>(<columns>) VALUES` and a newline. */
  function Header(table: string): string {
    "INSERT INTO " + table + "(" + Join(TableColumns, ",") + ") VALUES\n"
  }

  function Tuples(rows: seq<Row>): seq<string> {
    seq(|rows|, i requires 0 <= i < |rows| => RenderTuple(rows[i]))
  }

  lemma TuplesSnoc(rows: seq<Row>, i: nat)
    requires i < |rows|
    ensures Tuples(rows[..i + 1]) == Tuples(rows[..i]) + [RenderTuple(rows[i])]
  {
  }

  /** The statement `generate_insert_sql` returns: the tuples joined by `",\n"`, then `";\n"`. */
  function InsertStatement(table: string, rows: seq<Row>): string {
    Header(table) + Join(Tuples(rows), ",\n") + ";\n"
  }

  /** `generate_insert_sql`: one tuple appended per row, in order. */
  method GenerateInsertSql(table: string, rows: seq<Row>) returns (sql: string)
    ensures sql == InsertStatement(table, rows)
  {
    var header := "INSERT INTO " + table + "(" + Join(TableColumns, ",") + ") VALUES\n";
    var valuesSql: seq<string> := [];
    var i := 0;
    while i < |rows|
      invariant 0 <= i <= |rows|
      invariant valuesSql == Tuples(rows[..i])
    {
      var vals := RowValues(rows[i]);
      TuplesSnoc(rows, i);
      valuesSql := valuesSql + ["(" + Join(vals, ", ") + ")"];
      i := i + 1;
    }
    assert rows[..i] == rows;
    sql := header + Join(valuesSql, ",\n") + ";\n";
  }

  // ---------------------------------------------------------------- reading the statement back

  /** What slot `k` of a rendered row denotes. */
  function CellSlot(row: Row, k: nat): SqlValue
    requires k < |TableColumns|
  {
    if k == 6 then Integer(ParseBool(Get(row, TableColumns[6])))
    else Intended(Get(row, TableColumns[k]), k == 8)
  }

  /** What each rendered value of a row denotes, column by column. */
  function CellValues(row: Row): (cells: seq<SqlValue>)
    ensures |cells| == |TableColumns|
  {
    seq(|TableColumns|, k requires 0 <= k < |TableColumns| => CellSlot(row, k))
  }

  function Cells(rows: seq<Row>): seq<seq<SqlValue>> {
    seq(|rows|, i requires 0 <= i < |rows| => CellValues(rows[i]))
  }

  /** Number of leading ASCII digits. */
  function DigitRun(s: string): (n: nat)
    ensures n <= |s| && AllDigits(s[..n]) && (n == |s| || !IsDigit(s[n]))
  {
    if s != [] && IsDigit(s[0]) then
      var n := 1 + DigitRun(s[1..]);
      assert s[..n] == [s[0]] + s[1..][..n - 1];
      n
    else 0
  }

  /**
   * The body of a quoted literal, read after its opening quote: the text with
   * every doubled quote read as one, and what follows the closing quote.
   */
  function ReadQuoted(s: string): (res: Option<(string, string)>)
    ensures res.Some? ==> |res.value.1| < |s|
    decreases |s|
  {
    if s == [] then None
    else if s[0] == '\'' then
      if |s| >= 2 && s[1] == '\'' then
        match ReadQuoted(s[2..])
        case None => None
        case Some((t, r)) => Some(("'" + t, r))
      else Some(("", s[1..]))
    else
      match ReadQuoted(s[1..])
      case None => None
      case Some((t, r)) => Some(([s[0]] + t, r))
  }

  /** Reads one SQL literal at the front of `s`: what it denotes and the text after it. */
  function ReadLiteral(s: string): (res: Option<(SqlValue, string)>)
    ensures res.Some? ==> |res.value.1| < |s|
  {
    if |s| >= 4 && s[..4] == "NULL" then Some((Null, s[4..]))
    else if s != [] && s[0] == '\'' then
      match ReadQuoted(s[1..])
      case None => None
      case Some((t, r)) => Some((Text(t), r))
    else
      var n := if s != [] && s[0] == '-' then 1 + DigitRun(s[1..]) else DigitRun(s);
      if 0 < n && IsIntLiteral(s[..n]) then Some((Integer(ParseInt(s[..n])), s[n..])) else None
  }

  /** Reads `v, v, ..., v)`: the values and the text after the closing parenthesis. */
  function ReadValueList(s: string): (res: Option<(seq<SqlValue>, string)>)
    ensures res.Some? ==> |res.value.1| < |s|
    decreases |s|
  {
    match ReadLiteral(s)
    case None => None
    case Some((v, r)) =>
      if r != [] && r[0] == ')' then Some(([v], r[1..]))
      else if |r| >= 2 && r[..2] == ", " then
        match ReadValueList(r[2..])
        case None => None
        case Some((vs, rest)) => Some(([v] + vs, rest))
      else None
  }

  /** Reads tuples separated by `",\n"` up to the closing `";\n"`, which must end the text. */
  function ReadTuples(s: string): Option<seq<seq<SqlValue>>>
    decreases |s|, 0
  {
    if s != [] && s[0] == '(' then
      match ReadValueList(s[1..])
      case None => None
      case Some((t, r)) => ReadAfterTuple(t, r)
    else None
  }

  /** After the tuple `t`: either the closing `";\n"` or `",\n"` and more tuples. */
  function ReadAfterTuple(t: seq<SqlValue>, r: string): Option<seq<seq<SqlValue>>>
    decreases |r|, 1
  {
    if r == ";\n" then Some([t])
    else if |r| >= 2 && r[..2] == ",\n" then
      match ReadTuples(r[2..])
      case None => None
      case Some(ts) => Some([t] + ts)
    else None
  }

  /** Reads an INSERT statement for `table`: the values of each tuple, in order. */
  function ReadInsert(sql: string, table: string): Option<seq<seq<SqlValue>>> {
    var h := Header(table);
    if |h| <= |sql| && sql[..|h|] == h then
      var body := sql[|h|..];
      if body == ";\n" then Some([]) else ReadTuples(body)
    else None
  }

  /** What may follow a value inside a tuple. */
  predicate Delimited(r: string) {
    r != [] && (r[0] == ',' || r[0] == ')')
  }

  lemma {:induction false} ReadQuotedEscaped(x: string, r: string)
    requires r == [] || r[0] != '\''
    ensures ReadQuoted(EscapeQuotes(x) + "'" + r) == Some((x, r))
  {
    if x == [] {
      assert EscapeQuotes(x) + "'" + r == "'" + r;
    } else {
      ReadQuotedEscaped(x[1..], r);
      var tail := EscapeQuotes(x[1..]) + "'" + r;
      EscapedCons(x, r);
      if x[0] == '\'' {
        ReadQuotedDoubled(tail, x[1..], r);
      } else {
        ReadQuotedPlain(x[0], tail, x[1..], r);
      }
      assert x == [x[0]] + x[1..];
    }
  }

  /** The escaped text, closed by a quote, splits after its first escaped character. */
  lemma EscapedCons(x: string, r: string)
    requires x != []
    ensures EscapeQuotes(x) + "'" + r == (if x[0] == '\'' then "''" else [x[0]]) + (EscapeQuotes(x[1..]) + "'" + r)
  {
  }

  lemma ReadQuotedDoubled(tail: string, t: string, r: string)
    requires ReadQuoted(tail) == Some((t, r))
    ensures ReadQuoted("''" + tail) == Some(("'" + t, r))
  {
    assert ("''" + tail)[2..] == tail;
  }

  lemma ReadQuotedPlain(c: char, tail: string, t: string, r: string)
    requires c != '\'' && ReadQuoted(tail) == Some((t, r))
    ensures ReadQuoted([c] + tail) == Some(([c] + t, r))
  {
    assert ([c] + tail)[1..] == tail;
  }

  lemma {:induction false} DigitRunOf(d: string, r: string)
    requires AllDigits(d) && (r == [] || !IsDigit(r[0]))
    ensures DigitRun(d + r) == |d|
  {
    if d != [] {
      assert (d + r)[1..] == d[1..] + r;
      DigitRunOf(d[1..], r);
    } else {
      assert d + r == r;
    }
  }

  /** `str(n)` followed by a delimiter reads back as the integer `n`. */
  lemma ReadIntegerLiteral(n: int, r: string)
    requires FitsDigitLimit(n) && Delimited(r)
    ensures ReadLiteral(IntToDecimal(n) + r) == Some((Integer(n), r))
  {
    IntToDecimalRoundTrip(n);
    assert IntToDecimal(n)[0] == '-' || IsDigit(IntToDecimal(n)[0]);
    ReadUnsignedOrNegative(IntToDecimal(n), r);
  }

  /** An integer literal without a `+` sign, followed by a delimiter, reads back as its value. */
  lemma ReadUnsignedOrNegative(lit: string, r: string)
    requires IsIntLiteral(lit) && lit[0] != '+' && Delimited(r)
    ensures ReadLiteral(lit + r) == Some((Integer(ParseInt(lit)), r))
  {
    if lit[0] == '-' {
      assert (lit + r)[1..] == lit[1..] + r;
      DigitRunOf(lit[1..], r);
    } else {
      DigitRunOf(lit, r);
    }
    assert (lit + r)[..|lit|] == lit && (lit + r)[|lit|..] == r;
  }

  lemma ReadNullLiteral(r: string)
    requires Delimited(r)
    ensures ReadLiteral("NULL" + r) == Some((Null, r))
  {
    var s := "NULL" + r;
    assert s[..4] == "NULL" && s[4..] == r;
  }

  /** A quoted literal with its quotes doubled reads back as the text itself. */
  lemma ReadTextLiteral(v: string, r: string)
    requires Delimited(r)
    ensures ReadLiteral("'" + EscapeQuotes(v) + "'" + r) == Some((Text(v), r))
  {
    var s := "'" + EscapeQuotes(v) + "'" + r;
    assert s[0] == '\'';
    assert s[1..] == EscapeQuotes(v) + "'" + r;
    ReadQuotedEscaped(v, r);
  }

  /**
   * `to_sql_literal` followed by a delimiter reads back as the value the cell
   * is meant to store.
   */
  lemma ReadSqlLiteral(val: Option<string>, numericAsNull: bool, r: string)
    requires Delimited(r)
    ensures ReadLiteral(ToSqlLiteral(val, numericAsNull) + r) == Some((Intended(val, numericAsNull), r))
  {
    if val.None? {
      ReadNullLiteral(r);
    } else {
      ReadTrimmedLiteral(Strip(val.value), numericAsNull, r);
    }
  }

  /**
   * The reader of a statement and the decoder of a single literal agree on
   * every literal `to_sql_literal` renders.
   */
  lemma DecodersAgree(val: Option<string>, numericAsNull: bool, r: string)
    requires Delimited(r)
    ensures ReadLiteral(ToSqlLiteral(val, numericAsNull) + r) == Some((DecodeLiteral(ToSqlLiteral(val, numericAsNull)), r))
  {
    ReadSqlLiteral(val, numericAsNull, r);
    ToSqlLiteralDecodes(val, numericAsNull);
  }

  lemma ReadTrimmedLiteral(s: string, numericAsNull: bool, r: string)
    requires Delimited(r)
    ensures ReadLiteral(TrimmedLiteral(s, numericAsNull) + r) == Some((TrimmedIntended(s, numericAsNull), r))
  {
    if s == "" && numericAsNull {
      ReadNullLiteral(r);
    } else if numericAsNull && IsIntLiteral(s) {
      ParseIntFits(s);
      ReadIntegerLiteral(ParseInt(s), r);
    } else {
      ReadTextLiteral(s, r);
    }
  }

  /** `lit`, followed by whatever may follow a value, reads back as `v`. */
  ghost predicate LiteralReadsBack(lit: string, v: SqlValue) {
    forall r :: Delimited(r) ==> ReadLiteral(lit + r) == Some((v, r))
  }

  /** Slot `k` of a rendered row reads back as slot `k` of its cell values. */
  lemma ReadSlot(row: Row, k: nat)
    requires k < |TableColumns|
    ensures LiteralReadsBack(RowValues(row)[k], CellValues(row)[k])
  {
    forall r | Delimited(r) ensures ReadLiteral(RenderSlot(row, k) + r) == Some((CellSlot(row, k), r)) {
      ReadSlotWith(row, k, r);
    }
  }

  lemma ReadSlotWith(row: Row, k: nat, r: string)
    requires k < |TableColumns| && Delimited(r)
    ensures ReadLiteral(RenderSlot(row, k) + r) == Some((CellSlot(row, k), r))
  {
    if k == 6 {
      assert FitsDigitLimit(ParseBool(Get(row, TableColumns[6])));
      ReadIntegerLiteral(ParseBool(Get(row, TableColumns[6])), r);
    } else {
      ReadSqlLiteral(Get(row, TableColumns[k]), k == 8, r);
    }
  }

  lemma ReadLastValue(lit: string, v: SqlValue, rest: string)
    requires LiteralReadsBack(lit, v)
    ensures ReadValueList(lit + (")" + rest)) == Some(([v], rest))
  {
    assert Delimited(")" + rest);
    assert (")" + rest)[1..] == rest;
  }

  lemma ReadNextValue(lit: string, v: SqlValue, tail: string, vs: seq<SqlValue>, rest: string)
    requires LiteralReadsBack(lit, v)
    requires ReadValueList(tail) == Some((vs, rest))
    ensures ReadValueList(lit + (", " + tail)) == Some(([v] + vs, rest))
  {
    assert Delimited(", " + tail);
    assert (", " + tail)[..2] == ", " && (", " + tail)[2..] == tail;
  }

  /** Values that each read back, joined by `", "` and closed by `)`, read back as the list. */
  lemma {:induction false} ReadJoinedValues(vals: seq<string>, cells: seq<SqlValue>, rest: string)
    requires 0 < |vals| == |cells|
    requires forall k :: 0 <= k < |vals| ==> LiteralReadsBack(vals[k], cells[k])
    ensures ReadValueList(Join(vals, ", ") + (")" + rest)) == Some((cells, rest))
  {
    if |vals| == 1 {
      ReadLastValue(vals[0], cells[0], rest);
      JoinedOne(vals, ", ", ")" + rest);
      assert cells == [cells[0]];
    } else {
      ReadJoinedValues(vals[1..], cells[1..], rest);
      ReadNextValue(vals[0], cells[0], Join(vals[1..], ", ") + (")" + rest), cells[1..], rest);
      JoinedCons(vals, ", ", ")" + rest);
      assert cells == [cells[0]] + cells[1..];
    }
  }

  /** `t` is a tuple `(`...`)` whose values, read up to its closing parenthesis, are `c`. */
  ghost predicate TupleReadsBack(t: string, c: seq<SqlValue>) {
    |t| > 0 && t[0] == '(' && forall rest :: ReadValueList(t[1..] + rest) == Some((c, rest))
  }

  /** One rendered tuple reads back as the row's cell values. */
  lemma ReadRenderedTuple(row: Row)
    ensures TupleReadsBack(RenderTuple(row), CellValues(row))
  {
    forall k | 0 <= k < |TableColumns| ensures LiteralReadsBack(RowValues(row)[k], CellValues(row)[k]) {
      ReadSlot(row, k);
    }
    forall rest ensures ReadValueList(RenderTuple(row)[1..] + rest) == Some((CellValues(row), rest)) {
      ReadJoinedValues(RowValues(row), CellValues(row), rest);
      TupleBody(row, rest);
    }
  }

  lemma TupleBody(row: Row, rest: string)
    ensures RenderTuple(row)[1..] + rest == Join(RowValues(row), ", ") + (")" + rest)
  {
  }

  lemma ReadTuple(t: string, c: seq<SqlValue>, r: string)
    requires TupleReadsBack(t, c)
    ensures ReadTuples(t + r) == ReadAfterTuple(c, r)
  {
    var s := t + r;
    assert s[0] == '(' && s[1..] == t[1..] + r;
  }

  lemma ReadNextTuple(c: seq<SqlValue>, tail: string, cs: seq<seq<SqlValue>>)
    requires ReadTuples(tail) == Some(cs)
    ensures ReadAfterTuple(c, ",\n" + tail) == Some([c] + cs)
  {
    var r := ",\n" + tail;
    assert r != ";\n" && |r| >= 2 && r[..2] == ",\n" && r[2..] == tail by {
      assert r[1] == '\n' && r[0] == ',';
    }
  }

  /** The rendered tuples of `rows`, joined by `",\n"` and closed by `";\n"`, read back as their cells. */
  lemma {:induction false} ReadJoinedTuples(rows: seq<Row>)
    requires rows != []
    ensures ReadTuples(Join(Tuples(rows), ",\n") + ";\n") == Some(Cells(rows))
  {
    ReadRenderedTuple(rows[0]);
    TuplesCons(rows);
    if |rows| == 1 {
      ReadTuple(RenderTuple(rows[0]), CellValues(rows[0]), ";\n");
      JoinedOne(Tuples(rows), ",\n", ";\n");
      assert Cells(rows) == [CellValues(rows[0])];
    } else {
      var tail := Join(Tuples(rows[1..]), ",\n") + ";\n";
      ReadJoinedTuples(rows[1..]);
      ReadNextTuple(CellValues(rows[0]), tail, Cells(rows[1..]));
      ReadTuple(RenderTuple(rows[0]), CellValues(rows[0]), ",\n" + tail);
      JoinedCons(Tuples(rows), ",\n", ";\n");
    }
  }

  /** The first row's tuple and cells, then the rest. */
  lemma TuplesCons(rows: seq<Row>)
    requires rows != []
    ensures Tuples(rows) == [RenderTuple(rows[0])] + Tuples(rows[1..])
    ensures Cells(rows) == [CellValues(rows[0])] + Cells(rows[1..])
  {
  }

  lemma JoinedOne(ts: seq<string>, sep: string, end: string)
    requires |ts| == 1
    ensures Join(ts, sep) + end == ts[0] + end
  {
  }

  lemma JoinedCons(ts: seq<string>, sep: string, end: string)
    requires |ts| > 1
    ensures Join(ts, sep) + end == ts[0] + (sep + (Join(ts[1..], sep) + end))
  {
  }

  /**
   * The generated statement reads back as exactly one tuple per row, in row
   * order, each holding the ten values the row's cells are meant to store:
   * the trimmed text, NULL for a missing cell, the integer for an integer
   * `max_valetires` and NULL for a blank one, and 0/1 for the volunteer flag.
   */
  lemma InsertStatementReadsBack(table: string, rows: seq<Row>)
    ensures ReadInsert(InsertStatement(table, rows), table) == Some(Cells(rows))
  {
    SplitAfter(Header(table), Join(Tuples(rows), ",\n"), ";\n");
    if rows == [] {
      assert Tuples(rows) == [] && Cells(rows) == [];
    } else {
      ReadJoinedTuples(rows);
    }
  }

  /** `h + m + e` starts with `h`, and `m + e` follows it. */
  lemma SplitAfter(h: string, m: string, e: string)
    ensures |h| <= |h + m + e| && (h + m + e)[..|h|] == h && (h + m + e)[|h|..] == m + e
  {
  }
}
