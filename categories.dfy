/**
 * Category remapping of update-db.py (`map_categories`): blank categories
 * become the default, categories missing from a non-empty allowed list
 * become the default and are counted, and the counts are reported sorted by
 * count (descending) then name.
 */
module Categories {
  import opened Optional
  import opened Strings
  import opened Config
  import opened Rows

  /** `(r.get("category") or "").strip()`. */
  function RawCategory(row: Row): string {
    var c := Get(row, "category");
    Strip(if Filled(c) then c.value else "")
  }

  /** The category a row ends with, and the name it is counted under when it was unknown. */
  datatype Verdict = Verdict(category: string, unknown: Option<string>)

  /** `set(allowed or [])`. */
  function AllowedSet(allowed: seq<string>): set<string> {
    set a | a in allowed
  }

  /** The per-row decision of the loop; `allowed` is `set(allowed or [])`. */
  function Classify(row: Row, allowed: set<string>): Verdict {
    var cat := RawCategory(row);
    if cat == "" then Verdict(DefaultCategory, None)
    else if |allowed| > 0 && cat !in allowed then Verdict(DefaultCategory, Some(cat))
    else Verdict(cat, None)
  }

  /** `unknowns[k] = unknowns.get(k, 0) + 1` when a row was counted under `k`. */
  function Bump(m: map<string, nat>, u: Option<string>): (r: map<string, nat>)
    ensures u.None? ==> r == m
    ensures u.Some? ==> r.Keys == m.Keys + {u.value} && r[u.value] == (if u.value in m then m[u.value] else 0) + 1
    ensures u.Some? ==> forall k :: k in m && k != u.value ==> r[k] == m[k]
  {
    if u.Some? then m[u.value := (if u.value in m then m[u.value] else 0) + 1] else m
  }

  /** The row with its category replaced by the verdict. */
  function Recategorize(row: Row, allowed: set<string>): Row {
    row["category" := Some(Classify(row, allowed).category)]
  }

  /** The `unknowns` dict after the loop has seen `rows`. */
  function Unknowns(rows: seq<Row>, allowed: set<string>): map<string, nat> {
    if rows == [] then map[]
    else Bump(Unknowns(rows[..|rows| - 1], allowed), Classify(rows[|rows| - 1], allowed).unknown)
  }

  /** How many of `rows` are remapped under the unknown name `k`. */
  function CountOf(rows: seq<Row>, allowed: set<string>, k: string): nat {
    if rows == [] then 0
    else CountOf(rows[..|rows| - 1], allowed, k) + (if Classify(rows[|rows| - 1], allowed).unknown == Some(k) then 1 else 0)
  }

  /** How many of `rows` are remapped because their category is unknown. */
  function CountRemapped(rows: seq<Row>, allowed: set<string>): nat {
    if rows == [] then 0
    else CountRemapped(rows[..|rows| - 1], allowed) + (if Classify(rows[|rows| - 1], allowed).unknown.Some? then 1 else 0)
  }

  // ---------------------------------------------------------------- the report

  type Entry = (string, nat)

  /** Order of `sorted(..., key=lambda x: (-x[1], x[0]))`: higher count first, then smaller name. */
  predicate Before(a: Entry, b: Entry) {
    a.1 > b.1 || (a.1 == b.1 && LexLess(a.0, b.0))
  }

  predicate SortedReport(s: seq<Entry>) {
    forall i, j :: 0 <= i < j < |s| ==> Before(s[i], s[j])
  }

  function SumCounts(s: seq<Entry>): nat {
    if s == [] then 0 else s[0].1 + SumCounts(s[1..])
  }

  /** Sum of the counts of a dict. */
  ghost function Total(m: map<string, nat>): nat
    decreases |m|
  {
    if m == map[] then 0
    else
      var k :| k in m;
      m[k] + Total(m - {k})
  }

  lemma {:induction false} TotalRemove(m: map<string, nat>, k: string)
    requires k in m
    ensures Total(m) == m[k] + Total(m - {k})
    decreases |m|
  {
    var j :| j in m && Total(m) == m[j] + Total(m - {j});
    if j != k {
      var mj := m - {j};
      var mk := m - {k};
      assert |mj| < |m| && |mk| < |m| by {
        assert mj.Keys == m.Keys - {j} && mk.Keys == m.Keys - {k};
      }
      TotalRemove(mj, k);
      TotalRemove(mk, j);
      assert mj - {k} == mk - {j};
    }
  }

  /** Counting one more occurrence of a name adds one to the total. */
  lemma TotalBump(m: map<string, nat>, u: Option<string>)
    ensures Total(Bump(m, u)) == Total(m) + (if u.Some? then 1 else 0)
  {
    if u.None? { return; }
    var k := u.value;
    var m' := Bump(m, u);
    TotalRemove(m', k);
    if k in m {
      TotalRemove(m, k);
      assert m' - {k} == m - {k};
    } else {
      assert m' - {k} == m;
    }
  }

  lemma BeforeTransitive(a: Entry, b: Entry, c: Entry)
    requires Before(a, b) && Before(b, c)
    ensures Before(a, c)
  {
    if a.1 == b.1 && b.1 == c.1 {
      LexLessTransitive(a.0, b.0, c.0);
    }
  }

  lemma BeforeTotal(a: Entry, b: Entry)
    requires a.0 != b.0
    ensures Before(a, b) || Before(b, a)
  {
    LexLessTotal(a.0, b.0);
  }

  /** Insertion of an entry into a report, before the first entry it precedes. */
  function Insert(e: Entry, s: seq<Entry>): (r: seq<Entry>)
    ensures multiset(r) == multiset(s) + multiset{e}
    ensures |r| == |s| + 1
    ensures SumCounts(r) == SumCounts(s) + e.1
  {
    if s == [] then [e]
    else if Before(e, s[0]) then [e] + s
    else
      assert s == [s[0]] + s[1..];
      [s[0]] + Insert(e, s[1..])
  }

  lemma InsertMembers(e: Entry, s: seq<Entry>)
    ensures forall x :: x in Insert(e, s) <==> x in s || x == e
  {
    var r := Insert(e, s);
    forall x ensures x in r <==> x in s || x == e {
      assert x in r <==> x in multiset(r);
      assert x in s <==> x in multiset(s);
    }
  }

  /** Inserting an entry with a new name keeps a report sorted. */
  lemma {:induction false} InsertSorted(e: Entry, s: seq<Entry>)
    requires SortedReport(s)
    requires forall i :: 0 <= i < |s| ==> s[i].0 != e.0
    ensures SortedReport(Insert(e, s))
  {
    if s != [] {
      if Before(e, s[0]) {
        forall i | 0 < i < |s| ensures Before(e, s[i]) {
          BeforeTransitive(e, s[0], s[i]);
        }
        PrependSorted(e, s);
      } else {
        BeforeTotal(e, s[0]);
        InsertSorted(e, s[1..]);
        HeadBeforeInserted(e, s);
        PrependSorted(s[0], Insert(e, s[1..]));
      }
    }
  }

  /** An entry that precedes every entry of a sorted report can go in front of it. */
  lemma PrependSorted(e: Entry, s: seq<Entry>)
    requires SortedReport(s)
    requires forall i :: 0 <= i < |s| ==> Before(e, s[i])
    ensures SortedReport([e] + s)
  {
    var r := [e] + s;
    forall i, j | 0 <= i < j < |r| ensures Before(r[i], r[j]) {
      if i > 0 { assert r[i] == s[i - 1] && r[j] == s[j - 1]; }
    }
  }

  /** The head of a sorted report precedes whatever is inserted behind it. */
  lemma HeadBeforeInserted(e: Entry, s: seq<Entry>)
    requires SortedReport(s) && s != [] && Before(s[0], e)
    ensures forall i :: 0 <= i < |Insert(e, s[1..])| ==> Before(s[0], Insert(e, s[1..])[i])
  {
    var tail := s[1..];
    var rest := Insert(e, tail);
    forall i | 0 <= i < |rest| ensures Before(s[0], rest[i]) {
      assert rest[i] in multiset(rest);
      if rest[i] != e {
        assert rest[i] in multiset(tail);
        var j :| 0 <= j < |tail| && tail[j] == rest[i];
        assert s[j + 1] == rest[i];
      }
    }
  }

  /**
   * `sorted(unknowns.items(), key=lambda x: (-x[1], x[0]))`: every entry of
   * the dict exactly once, sorted, with the dict's total as the sum of counts.
   */
  method SortReport(m: map<string, nat>) returns (report: seq<Entry>)
    ensures SortedReport(report)
    ensures forall e :: e in report ==> e.0 in m && m[e.0] == e.1
    ensures forall k :: k in m ==> (k, m[k]) in report
    ensures |report| == |m|
    ensures SumCounts(report) == Total(m)
  {
    report := [];
    var rest := m;
    while rest != map[]
      invariant Progress(m, rest, report)
      decreases |rest|
    {
      var k :| k in rest;
      SortStep(m, rest, report, k);
      report := Insert((k, rest[k]), report);
      rest := rest - {k};
    }
  }

  /** Halfway through the sort: the entries not yet taken are `rest`, the taken ones are in `report`. */
  ghost predicate Progress(m: map<string, nat>, rest: map<string, nat>, report: seq<Entry>) {
    && (forall k :: k in rest ==> k in m && rest[k] == m[k])
    && SortedReport(report)
    && (forall e :: e in report ==> e.0 in m && e.0 !in rest && m[e.0] == e.1)
    && (forall k :: k in m && k !in rest ==> (k, m[k]) in report)
    && |report| + |rest| == |m|
    && SumCounts(report) + Total(rest) == Total(m)
  }

  lemma SortStep(m: map<string, nat>, rest: map<string, nat>, report: seq<Entry>, k: string)
    requires Progress(m, rest, report) && k in rest
    ensures |rest - {k}| < |rest|
    ensures Progress(m, rest - {k}, Insert((k, rest[k]), report))
  {
    var e := (k, rest[k]);
    var rest' := rest - {k};
    var report' := Insert(e, report);
    assert rest'.Keys == rest.Keys - {k};
    assert |rest'| == |rest| - 1;
    assert SortedReport(report') by {
      forall i | 0 <= i < |report| ensures report[i].0 != k {
        assert report[i] in report;
      }
      InsertSorted(e, report);
    }
    InsertMembers(e, report);
    assert forall x :: x in report' ==> x.0 in m && x.0 !in rest' && m[x.0] == x.1;
    assert forall k' :: k' in m && k' !in rest' ==> (k', m[k']) in report';
    assert SumCounts(report') + Total(rest') == Total(m) by {
      TotalRemove(rest, k);
    }
  }

  // ---------------------------------------------------------------- the loop

  /**
   * `map_categories`: every row's category replaced by its verdict, and the
   * report of unknown categories with their counts.
   */
  method MapCategories(rows: seq<Row>, allowed: seq<string>) returns (out: seq<Row>, report: seq<Entry>)
    ensures |out| == |rows|
    ensures forall i :: 0 <= i < |rows| ==> out[i] == Recategorize(rows[i], AllowedSet(allowed))
    ensures SortedReport(report)
    ensures forall e :: e in report ==> e.0 in Unknowns(rows, AllowedSet(allowed)) && Unknowns(rows, AllowedSet(allowed))[e.0] == e.1
    ensures forall k :: k in Unknowns(rows, AllowedSet(allowed)) ==> (k, Unknowns(rows, AllowedSet(allowed))[k]) in report
    ensures SumCounts(report) == CountRemapped(rows, AllowedSet(allowed))
    ensures forall i, j :: 0 <= i < j < |report| ==> report[i].0 != report[j].0
  {
    var unknowns: map<string, nat> := map[];
    var allowedSet := AllowedSet(allowed);
    out := rows;
    var i := 0;
    while i < |rows|
      invariant 0 <= i <= |rows|
      invariant RecategorizedUpTo(rows, out, i, allowedSet)
      invariant unknowns == Unknowns(rows[..i], allowedSet)
    {
      var r := out[i];
      var cat, unknown := ClassifyRow(r, allowedSet);
      CountingStep(rows, i, allowedSet);
      unknowns := Bump(unknowns, unknown);
      var updated := r["category" := Some(cat)];
      assert updated == Recategorize(rows[i], allowedSet);
      RecategorizeStep(rows, out, i, allowedSet);
      out := out[i := updated];
      i := i + 1;
    }
    assert rows[..i] == rows;
    report := SortReport(unknowns);
    TotalUnknowns(rows, allowedSet);
    ReportNamesDistinct(report, unknowns);
  }

  /** The first `i` rows of `out` are recategorized, the others are still the input rows. */
  ghost predicate RecategorizedUpTo(rows: seq<Row>, out: seq<Row>, i: nat, allowed: set<string>) {
    && i <= |rows| == |out|
    && (forall j :: 0 <= j < i ==> out[j] == Recategorize(rows[j], allowed))
    && (forall j :: i <= j < |rows| ==> out[j] == rows[j])
  }

  lemma RecategorizeStep(rows: seq<Row>, out: seq<Row>, i: nat, allowed: set<string>)
    requires RecategorizedUpTo(rows, out, i, allowed) && i < |rows|
    ensures RecategorizedUpTo(rows, out[i := Recategorize(rows[i], allowed)], i + 1, allowed)
  {
  }

  /** The branches of the loop body for one row. */
  method ClassifyRow(r: Row, allowed: set<string>) returns (cat: string, unknown: Option<string>)
    ensures Verdict(cat, unknown) == Classify(r, allowed)
  {
    var catRaw := RawCategory(r);
    unknown := None;
    if catRaw == "" {
      cat := DefaultCategory;
    } else if |allowed| > 0 && catRaw !in allowed {
      unknown := Some(catRaw);
      cat := DefaultCategory;
    } else {
      cat := catRaw;
    }
  }

  /** One more row seen: the dict and the remap count advance by that row's verdict. */
  lemma CountingStep(rows: seq<Row>, i: nat, allowed: set<string>)
    requires i < |rows|
    ensures Unknowns(rows[..i + 1], allowed) == Bump(Unknowns(rows[..i], allowed), Classify(rows[i], allowed).unknown)
    ensures CountRemapped(rows[..i + 1], allowed) ==
      CountRemapped(rows[..i], allowed) + (if Classify(rows[i], allowed).unknown.Some? then 1 else 0)
  {
    assert rows[..i + 1][..i] == rows[..i];
  }

  // ---------------------------------------------------------------- properties

  /** The counts in the dict add up to the number of remapped rows. */
  lemma {:induction false} TotalUnknowns(rows: seq<Row>, allowed: set<string>)
    ensures Total(Unknowns(rows, allowed)) == CountRemapped(rows, allowed)
  {
    if rows != [] {
      var front := rows[..|rows| - 1];
      TotalUnknowns(front, allowed);
      TotalBump(Unknowns(front, allowed), Classify(rows[|rows| - 1], allowed).unknown);
    }
  }

  /**
   * The count of an unknown name is the number of rows remapped under it,
   * and a name is reported exactly when that number is positive.
   */
  lemma {:induction false} UnknownsCount(rows: seq<Row>, allowed: set<string>, k: string)
    ensures k in Unknowns(rows, allowed) <==> CountOf(rows, allowed, k) > 0
    ensures k in Unknowns(rows, allowed) ==> Unknowns(rows, allowed)[k] == CountOf(rows, allowed, k)
  {
    if rows != [] {
      UnknownsCount(rows[..|rows| - 1], allowed, k);
    }
  }

  /**
   * With a non-empty allowed list every row ends with an allowed category or
   * the default one; with an empty list no row is counted and every
   * non-blank category is kept, stripped.
   */
  lemma ClassifyRespectsAllowed(row: Row, allowed: set<string>)
    ensures |allowed| > 0 ==> Classify(row, allowed).category in allowed || Classify(row, allowed).category == DefaultCategory
    ensures |allowed| == 0 ==>
      && Classify(row, allowed).unknown == None
      && Classify(row, allowed).category == (if RawCategory(row) == "" then DefaultCategory else RawCategory(row))
  {
  }

  /**
   * A blank category becomes the default and is not counted; a counted row is
   * one whose stripped category is non-blank and outside the allowed list,
   * and it is counted under that stripped name.
   */
  lemma ClassifyCounting(row: Row, allowed: set<string>)
    ensures RawCategory(row) == "" ==> Classify(row, allowed) == Verdict(DefaultCategory, None)
    ensures Classify(row, allowed).unknown.Some? <==> RawCategory(row) != "" && |allowed| > 0 && RawCategory(row) !in allowed
    ensures Classify(row, allowed).unknown.Some? ==> Classify(row, allowed).unknown.value == RawCategory(row)
  {
  }

  /**
   * A sorted report whose every entry carries its name's count in the dict
   * names no category twice.
   */
  lemma ReportNamesDistinct(s: seq<Entry>, m: map<string, nat>)
    requires SortedReport(s)
    requires forall e :: e in s ==> e.0 in m && m[e.0] == e.1
    ensures forall i, j :: 0 <= i < j < |s| ==> s[i].0 != s[j].0
  {
    forall i, j | 0 <= i < j < |s| ensures s[i].0 != s[j].0 {
      assert s[i] in s && s[j] in s;
      LexLessIrreflexive(s[i].0);
    }
  }
}
