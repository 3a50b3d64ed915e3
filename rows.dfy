/**
 * Row normalisation of update-db.py (`read_csv_rows` after the file is
 * opened): each CSV record is projected onto the ten insert columns through
 * the header mapping, trimmed, dropped when a required field is empty, and
 * given the default category when its category is blank.
 */
module Rows {
  import opened Optional
  import opened Strings
  import opened Config
  import opened Headers

  /** A record as a dict: a column or header name to a cell, None where the reader filled a short line. */
  type Row = map<string, Option<string>>

  /** `row.get(key)`. */
  function Get(row: Row, key: string): Option<string> {
    if key in row then row[key] else None
  }

  /** Python truthiness of a cell: present and not the empty string. */
  predicate Filled(v: Option<string>) {
    v.Some? && v.value != ""
  }

  /** `v.strip() if isinstance(v, str) else v`. */
  function TrimCell(v: Option<string>): Option<string> {
    match v
    case None => None
    case Some(s) => Some(Strip(s))
  }

  /** `src = mapping.get(col)`; `raw.get(src, "") if src else ""`. */
  function Project(mapping: map<string, string>, raw: Row, col: string): Option<string> {
    if col in mapping && mapping[col] != "" then
      (if mapping[col] in raw then raw[mapping[col]] else Some(""))
    else Some("")
  }

  function ProjectedRow(mapping: map<string, string>, raw: Row): Row {
    ProjectedOnto(mapping, raw, TableColumns)
  }

  /** The row built from the columns `cols` alone. */
  function ProjectedOnto(mapping: map<string, string>, raw: Row, cols: seq<string>): Row {
    map c | c in cols :: Project(mapping, raw, c)
  }

  function TrimmedRow(row: Row): Row {
    map k | k in row :: TrimCell(row[k])
  }

  /** The checks after trimming: skip without course or teacher, default a blank category. */
  function Finish(row: Row): Option<Row> {
    if !Filled(Get(row, "course_name")) || !Filled(Get(row, "teacher_name")) then None
    else if !Filled(Get(row, "category")) then Some(row["category" := Some(DefaultCategory)])
    else Some(row)
  }

  /** The body of the per-record loop; None when the record is skipped. */
  function NormalizeRow(mapping: map<string, string>, raw: Row): Option<Row> {
    Finish(TrimmedRow(ProjectedRow(mapping, raw)))
  }

  /** The present values of a sequence of outcomes, in order. */
  function Somes<T>(os: seq<Option<T>>): seq<T> {
    if os == [] then []
    else
      var front := Somes(os[..|os| - 1]);
      match os[|os| - 1]
      case Some(v) => front + [v]
      case None => front
  }

  /** The outcome of the loop body for each record. */
  function Outcomes(mapping: map<string, string>, raws: seq<Row>): (os: seq<Option<Row>>)
    ensures |os| == |raws|
  {
    seq(|raws|, i requires 0 <= i < |raws| => NormalizeRow(mapping, raws[i]))
  }

  /** The rows `read_csv_rows` returns, in record order. */
  function KeptRows(mapping: map<string, string>, raws: seq<Row>): seq<Row> {
    Somes(Outcomes(mapping, raws))
  }

  /**
   * `read_csv_rows` once the reader is open: `fieldnames` is the header line,
   * `raws` the records. A file without a header line is refused.
   */
  method ReadCsvRows(fieldnames: seq<string>, raws: seq<Row>) returns (res: Result<seq<Row>>)
    ensures fieldnames == [] ==> res == Fail("CSV appears to have no header row.")
    ensures fieldnames != [] ==> res == Ok(KeptRows(HeaderMapping(fieldnames), raws))
  {
    if |fieldnames| == 0 {
      return Fail("CSV appears to have no header row.");
    }
    var mapping := NormalizeHeaders(fieldnames);
    var rows := KeepRecords(mapping, raws);
    return Ok(rows);
  }

  /** The record loop: `rows.append(row)` for every record that is not skipped. */
  method KeepRecords(mapping: map<string, string>, raws: seq<Row>) returns (rows: seq<Row>)
    ensures rows == KeptRows(mapping, raws)
  {
    ghost var os := Outcomes(mapping, raws);
    rows := [];
    var i := 0;
    while i < |raws|
      invariant 0 <= i <= |raws|
      invariant rows == Somes(os[..i])
    {
      assert os[..i + 1][..i] == os[..i];
      var kept := NormalizeRecord(mapping, raws[i]);
      assert os[i] == kept;
      if kept.Some? {
        rows := rows + [kept.value];
      }
      i := i + 1;
    }
    assert os[..i] == os;
  }

  /** One pass of the record loop: None where the source `continue`s. */
  method NormalizeRecord(mapping: map<string, string>, raw: Row) returns (kept: Option<Row>)
    ensures kept == NormalizeRow(mapping, raw)
  {
    var row := ProjectColumns(mapping, raw);
    row := map k | k in row :: TrimCell(row[k]);
    assert row == TrimmedRow(ProjectedRow(mapping, raw));
    if !Filled(Get(row, "course_name")) || !Filled(Get(row, "teacher_name")) {
      return None;
    }
    if !Filled(Get(row, "category")) {
      row := row["category" := Some(DefaultCategory)];
    }
    return Some(row);
  }

  /** The column loop: `row[col] = ...` for each insert column in turn. */
  method ProjectColumns(mapping: map<string, string>, raw: Row) returns (row: Row)
    ensures row == ProjectedRow(mapping, raw)
  {
    row := map[];
    var j := 0;
    while j < |TableColumns|
      invariant 0 <= j <= |TableColumns|
      invariant row == ProjectedOnto(mapping, raw, TableColumns[..j])
    {
      var col := TableColumns[j];
      var src := if col in mapping then Some(mapping[col]) else None;
      var v := if src.Some? && src.value != "" then (if src.value in raw then raw[src.value] else Some("")) else Some("");
      assert TableColumns[..j + 1] == TableColumns[..j] + [col];
      ProjectedOntoExtend(mapping, raw, TableColumns[..j], col);
      row := row[col := v];
      j := j + 1;
    }
    assert TableColumns[..j] == TableColumns;
  }

  /** Projecting one more column adds that column's cell. */
  lemma ProjectedOntoExtend(mapping: map<string, string>, raw: Row, cols: seq<string>, col: string)
    ensures ProjectedOnto(mapping, raw, cols + [col]) == ProjectedOnto(mapping, raw, cols)[col := Project(mapping, raw, col)]
  {
  }

  // ---------------------------------------------------------------- properties

  /** A cell no further stripping changes. */
  predicate IsTrimmed(v: Option<string>) {
    v.None? || Strip(v.value) == v.value
  }

  lemma StripIdempotent(s: string)
    ensures Strip(Strip(s)) == Strip(s)
  {
    StripTrimmed(Strip(s));
  }

  /** A record is kept exactly when its course and teacher cells are non-empty after trimming. */
  lemma NormalizeRowKeptIff(mapping: map<string, string>, raw: Row)
    ensures NormalizeRow(mapping, raw).Some? <==>
      Filled(TrimCell(Project(mapping, raw, "course_name"))) && Filled(TrimCell(Project(mapping, raw, "teacher_name")))
  {
    assert "course_name" in TableColumns && "teacher_name" in TableColumns;
  }

  /** What the checks keep: the row itself, or the row with the default category when its own is blank. */
  lemma FinishKeeps(row: Row)
    requires Finish(row).Some?
    ensures Finish(row).value == if Filled(Get(row, "category")) then row else row["category" := Some(DefaultCategory)]
  {
  }

  lemma ProjectedRowCells(mapping: map<string, string>, raw: Row)
    ensures forall k :: k in TrimmedRow(ProjectedRow(mapping, raw)) <==> k in TableColumns
    ensures forall k :: k in TableColumns ==> TrimmedRow(ProjectedRow(mapping, raw))[k] == TrimCell(Project(mapping, raw, k))
  {
  }

  /**
   * A kept row has exactly the ten insert columns; each column other than
   * `category` holds the trimmed cell of the header mapped to it, or "" when
   * no header is mapped; `category` holds its trimmed cell, or the default
   * category when that is blank.
   */
  lemma NormalizeRowShape(mapping: map<string, string>, raw: Row)
    requires NormalizeRow(mapping, raw).Some?
    ensures var r := NormalizeRow(mapping, raw).value;
      && (forall k :: k in r <==> k in TableColumns)
      && (forall k :: k in r && k != "category" ==> r[k] == TrimCell(Project(mapping, raw, k)))
      && (forall k :: k in r && k != "category" && k !in mapping ==> r[k] == Some(""))
      && r["category"] == (if Filled(TrimCell(Project(mapping, raw, "category"))) then TrimCell(Project(mapping, raw, "category")) else Some(DefaultCategory))
      && Filled(r["category"])
  {
    KeptColumns(mapping, raw);
    KeptCells(mapping, raw);
    KeptUnmapped(mapping, raw);
    KeptCategory(mapping, raw);
  }

  /** A kept row has exactly the ten insert columns. */
  lemma KeptColumns(mapping: map<string, string>, raw: Row)
    requires NormalizeRow(mapping, raw).Some?
    ensures forall k :: k in NormalizeRow(mapping, raw).value <==> k in TableColumns
  {
    ProjectedRowCells(mapping, raw);
    FinishDomain(TrimmedRow(ProjectedRow(mapping, raw)));
    assert "category" in TableColumns;
  }

  /** The cells of a kept row other than `category`: its columns, trimmed. */
  lemma KeptCells(mapping: map<string, string>, raw: Row)
    requires NormalizeRow(mapping, raw).Some?
    ensures var r := NormalizeRow(mapping, raw).value;
      forall k :: k in r && k != "category" ==> r[k] == TrimCell(Project(mapping, raw, k))
  {
    ProjectedRowCells(mapping, raw);
    FinishDomain(TrimmedRow(ProjectedRow(mapping, raw)));
    FinishOthers(TrimmedRow(ProjectedRow(mapping, raw)));
  }

  /** A column no header is mapped to is kept as the empty string. */
  lemma KeptUnmapped(mapping: map<string, string>, raw: Row)
    requires NormalizeRow(mapping, raw).Some?
    ensures var r := NormalizeRow(mapping, raw).value;
      forall k :: k in r && k != "category" && k !in mapping ==> r[k] == Some("")
  {
    KeptCells(mapping, raw);
    assert Strip("") == "";
  }

  /** The checks add at most the `category` column. */
  lemma FinishDomain(row: Row)
    requires Finish(row).Some?
    ensures forall k :: k in Finish(row).value <==> k in row || (k == "category" && !Filled(Get(row, "category")))
  {
  }

  /** The checks change no cell other than `category`. */
  lemma FinishOthers(row: Row)
    requires Finish(row).Some?
    ensures forall k :: k in row && k != "category" ==> Finish(row).value[k] == row[k]
  {
  }

  /** The `category` cell of a kept row: its own trimmed cell, or the default when that is blank. */
  lemma KeptCategory(mapping: map<string, string>, raw: Row)
    requires NormalizeRow(mapping, raw).Some?
    ensures "category" in NormalizeRow(mapping, raw).value
    ensures var r := NormalizeRow(mapping, raw).value;
      && r["category"] == (if Filled(TrimCell(Project(mapping, raw, "category"))) then TrimCell(Project(mapping, raw, "category")) else Some(DefaultCategory))
      && Filled(r["category"])
  {
    ProjectedRowCells(mapping, raw);
    FinishKeeps(TrimmedRow(ProjectedRow(mapping, raw)));
    assert "category" in TableColumns;
  }

  /** Every cell of a kept row is trimmed, the default category included. */
  lemma NormalizeRowTrimmed(mapping: map<string, string>, raw: Row)
    requires NormalizeRow(mapping, raw).Some?
    ensures var r := NormalizeRow(mapping, raw).value;
      forall k :: k in r ==> IsTrimmed(r[k])
  {
    forall k | k in NormalizeRow(mapping, raw).value
      ensures IsTrimmed(NormalizeRow(mapping, raw).value[k])
    {
      CellTrimmed(mapping, raw, k);
    }
  }

  lemma CellTrimmed(mapping: map<string, string>, raw: Row, k: string)
    requires NormalizeRow(mapping, raw).Some? && k in NormalizeRow(mapping, raw).value
    ensures IsTrimmed(NormalizeRow(mapping, raw).value[k])
  {
    if k == "category" {
      CategoryTrimmed(mapping, raw);
    } else {
      KeptCells(mapping, raw);
      if Project(mapping, raw, k).Some? {
        StripIdempotent(Project(mapping, raw, k).value);
      }
    }
  }

  lemma CategoryTrimmed(mapping: map<string, string>, raw: Row)
    requires NormalizeRow(mapping, raw).Some?
    ensures "category" in NormalizeRow(mapping, raw).value && IsTrimmed(NormalizeRow(mapping, raw).value["category"])
  {
    KeptCategory(mapping, raw);
    if Filled(TrimCell(Project(mapping, raw, "category"))) {
      StripIdempotent(Project(mapping, raw, "category").value);
    } else {
      DefaultCategoryTrimmed();
    }
  }

  lemma DefaultCategoryTrimmed()
    ensures Strip(DefaultCategory) == DefaultCategory
  {
    StripTrimmed(DefaultCategory);
  }

  /** Positions of the present outcomes, in increasing order. */
  function SomeIndices<T>(os: seq<Option<T>>): seq<nat> {
    if os == [] then []
    else
      var front := SomeIndices(os[..|os| - 1]);
      if os[|os| - 1].Some? then front + [|os| - 1] else front
  }

  /**
   * The j-th present value is the one at the j-th present position, the
   * positions strictly increase, and a position is listed exactly when its
   * outcome is present.
   */
  lemma {:induction false} SomesInOrder<T>(os: seq<Option<T>>)
    ensures var idx := SomeIndices(os);
      && |idx| == |Somes(os)|
      && (forall j :: 0 <= j < |idx| ==> idx[j] < |os| && os[idx[j]] == Some(Somes(os)[j]))
      && (forall j, j' :: 0 <= j < j' < |idx| ==> idx[j] < idx[j'])
      && (forall i :: 0 <= i < |os| ==> (os[i].Some? <==> i in idx))
  {
    if os != [] {
      var n := |os|;
      var front := os[..n - 1];
      SomesInOrder(front);
      forall i | 0 <= i < n - 1 ensures front[i] == os[i] { }
    }
  }

  /**
   * Kept rows stay in record order: the j-th kept row is the normalised form
   * of the record at the j-th kept position, positions strictly increase, and
   * a record's position is kept exactly when the record is not skipped.
   */
  lemma KeptRowsInOrder(mapping: map<string, string>, raws: seq<Row>)
    ensures var idx := SomeIndices(Outcomes(mapping, raws));
      && |idx| == |KeptRows(mapping, raws)|
      && (forall j :: 0 <= j < |idx| ==> idx[j] < |raws| && NormalizeRow(mapping, raws[idx[j]]) == Some(KeptRows(mapping, raws)[j]))
      && (forall j, j' :: 0 <= j < j' < |idx| ==> idx[j] < idx[j'])
      && (forall i :: 0 <= i < |raws| ==> (NormalizeRow(mapping, raws[i]).Some? <==> i in idx))
  {
    SomesInOrder(Outcomes(mapping, raws));
  }

  lemma {:induction false} SomesOfNothing<T>(os: seq<Option<T>>)
    requires forall i :: 0 <= i < |os| ==> os[i].None?
    ensures Somes(os) == []
  {
    if os != [] {
      SomesOfNothing(os[..|os| - 1]);
    }
  }

  /**
   * Without a header for `course_name` or for `teacher_name` nothing is an
   * error: every record is skipped.
   */
  lemma MissingRequiredColumnKeepsNothing(mapping: map<string, string>, raws: seq<Row>)
    requires "course_name" !in mapping || "teacher_name" !in mapping
    ensures KeptRows(mapping, raws) == []
  {
    var os := Outcomes(mapping, raws);
    forall i | 0 <= i < |os| ensures os[i].None? {
      NormalizeRowKeptIff(mapping, raws[i]);
    }
    SomesOfNothing(os);
  }
}
