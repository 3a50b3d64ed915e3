/**
 * Seed splicing of update-db.py (`replace_seed_block`): find the first
 * marker line `-- ******** <table> ********`, then the first INSERT statement
 * for the table at or after it, and replace that statement (with the
 * whitespace after it) by the new SQL.
 *
 * The regular expression `INSERT\s+INTO\s+<table>\s*\([^;]+?\);\s*`, searched
 * case-insensitively, is written out by hand as the backtracking matcher
 * would run it: `MatchAt` tries one start position, `SearchInsert` tries the
 * positions from left to right.
 */
module Seed {
  import opened Optional
  import opened Strings
  import opened Config

  /** `f"-- ******** {table} ********"`. */
  function Marker(table: string): string {
    "-- ******** " + table + " ********"
  }

  /** Length of the whitespace run starting at `i`: a greedy `\s*`. */
  function SpaceRun(s: string, i: nat): (n: nat)
    requires i <= |s|
    ensures i + n <= |s|
    ensures i + n == |s| || !IsSpace(s[i + n])
    decreases |s| - i
  {
    if i < |s| && IsSpace(s[i]) then 1 + SpaceRun(s, i + 1) else 0
  }

  /** `s[i..j]` is all whitespace. */
  predicate SpacesBetween(s: string, i: nat, j: nat) {
    i <= j <= |s| && forall k :: i <= k < j ==> IsSpace(s[k])
  }

  /** `s.find(";", i)`, as the lazy `[^;]+?` meets it: the first `;` at or after `i`. */
  function NextSemicolon(s: string, i: nat): (r: Option<nat>)
    requires i <= |s|
    ensures r.Some? ==> i <= r.value < |s| && s[r.value] == ';'
    decreases |s| - i
  {
    if i == |s| then None
    else if s[i] == ';' then Some(i)
    else NextSemicolon(s, i + 1)
  }

  /**
   * Where the parts of one match lie: `INTO` at `intoAt`, the table name at
   * `tableAt`, `(` at `open`, the `;` of `);` at `close`, and the end of the
   * trailing whitespace at `end`.
   */
  datatype InsertMatch = InsertMatch(intoAt: nat, tableAt: nat, open: nat, close: nat, end: nat)

  /** `s[p..m.end]` is matched by the pattern, its parts lying as `m` says. */
  predicate MatchesWith(s: string, table: string, p: nat, m: InsertMatch) {
    && CiAt(s, p, "INSERT")
    && p + 6 < m.intoAt <= |s| && SpacesBetween(s, p + 6, m.intoAt) && CiAt(s, m.intoAt, "INTO")
    && m.intoAt + 4 < m.tableAt <= |s| && SpacesBetween(s, m.intoAt + 4, m.tableAt)
    && TailMatches(s, table, m)
  }

  /** From the table name on: `<table>\s*\(`, a body without `;`, then `);` and whitespace. */
  predicate TailMatches(s: string, table: string, m: InsertMatch) {
    && m.tableAt <= |s| && CiAt(s, m.tableAt, table)
    && m.tableAt + |table| <= m.open < |s| && SpacesBetween(s, m.tableAt + |table|, m.open) && s[m.open] == '('
    && m.open + 3 <= m.close < |s| && s[m.close] == ';' && s[m.close - 1] == ')'
    && (forall j :: m.open < j < m.close ==> s[j] != ';')
    && m.close < m.end <= |s| && SpacesBetween(s, m.close + 1, m.end)
  }

  /** The trailing `\s*` took all the whitespace there was. */
  predicate Greedy(s: string, m: InsertMatch) {
    m.end <= |s| && (m.end == |s| || !IsSpace(s[m.end]))
  }

  /** From the table name on: `<table>\s*\(`, then `[^;]+?\);` and `\s*`. */
  function AfterTable(s: string, table: string, intoAt: nat, tableAt: nat): (r: Option<InsertMatch>)
    requires tableAt <= |s|
    ensures r.Some? ==> r.value.intoAt == intoAt && r.value.tableAt == tableAt
    ensures r.Some? ==> tableAt + |table| <= r.value.open < r.value.close < r.value.end <= |s|
    ensures r.Some? ==> Greedy(s, r.value)
  {
    if !CiAt(s, tableAt, table) then None
    else
      var t := tableAt + |table|;
      var open := t + SpaceRun(s, t);
      if open >= |s| || s[open] != '(' then None
      else
        match NextSemicolon(s, open + 1)
        case None => None
        case Some(close) =>
          if close >= open + 3 && s[close - 1] == ')' then
            Some(InsertMatch(intoAt, tableAt, open, close, close + 1 + SpaceRun(s, close + 1)))
          else None
  }

  /** The second `\s+` gives back one character at a time, from the longest run down to one. */
  function TryTable(s: string, table: string, intoAt: nat, k: nat): (r: Option<InsertMatch>)
    requires intoAt + 4 + k <= |s|
    ensures r.Some? ==> r.value.intoAt == intoAt && intoAt + 4 < r.value.tableAt <= intoAt + 4 + k
    ensures r.Some? ==> r.value.tableAt < r.value.end <= |s| && Greedy(s, r.value)
  {
    if k == 0 then None
    else
      match AfterTable(s, table, intoAt, intoAt + 4 + k)
      case Some(m) => Some(m)
      case None => TryTable(s, table, intoAt, k - 1)
  }

  /** The match the pattern makes starting at `p`, if any. */
  function MatchAt(s: string, table: string, p: nat): (r: Option<InsertMatch>)
    requires p <= |s|
    ensures r.Some? ==> p < r.value.end <= |s| && Greedy(s, r.value)
  {
    if !CiAt(s, p, "INSERT") || SpaceRun(s, p + 6) == 0 then None
    else AtInto(s, table, p + 6 + SpaceRun(s, p + 6))
  }

  /** From `INTO` on, the first `\s+` having ended at `intoAt`. */
  function AtInto(s: string, table: string, intoAt: nat): (r: Option<InsertMatch>)
    requires intoAt <= |s|
    ensures r.Some? ==> intoAt < r.value.end <= |s| && Greedy(s, r.value)
  {
    if !CiAt(s, intoAt, "INTO") then None
    else TryTable(s, table, intoAt, SpaceRun(s, intoAt + 4))
  }

  /** The matcher at every start of `s`: start `q` maps to the match there, if any. */
  function Matcher(s: string, table: string): nat -> Option<InsertMatch> {
    (q: nat) => if q <= |s| then MatchAt(s, table, q) else None
  }

  /** A search in the manner of `re.search`: the leftmost start in `[from, n]` where `matchAt` succeeds. */
  function LeftmostMatch(matchAt: nat -> Option<InsertMatch>, n: nat, from: nat): (r: Option<(nat, InsertMatch)>)
    requires from <= n
    ensures r.Some? ==> from <= r.value.0 <= n && matchAt(r.value.0) == Some(r.value.1)
    decreases n - from
  {
    match matchAt(from)
    case Some(m) => Some((from, m))
    case None => if from == n then None else LeftmostMatch(matchAt, n, from + 1)
  }

  /** `insert_re.search(s)`: the leftmost start where the pattern matches, and the match. */
  function SearchInsert(s: string, table: string): (r: Option<(nat, InsertMatch)>)
    ensures r.Some? ==> r.value.0 < r.value.1.end <= |s| && MatchAt(s, table, r.value.0) == Some(r.value.1)
  {
    LeftmostMatch(Matcher(s, table), |s|, 0)
  }

  function MarkerMissing(table: string): string {
    "Could not find marker for table '" + table + "' in seed.sql"
  }

  function InsertMissing(table: string): string {
    "Could not find INSERT block for table '" + table + "' after its marker in seed.sql"
  }

  /** `seed[:lo] + text + seed[hi:]`: the text in `[lo, hi)` replaced by `text`. */
  function Splice(seed: string, lo: nat, hi: nat, text: string): (r: string)
    requires lo <= |seed| && hi <= |seed|
    ensures |r| == lo + |text| + (|seed| - hi)
    ensures r[..lo] == seed[..lo] && r[lo..lo + |text|] == text && r[lo + |text|..] == seed[hi..]
  {
    seed[..lo] + text + seed[hi..]
  }

  /**
   * `replace_seed_block`: the first INSERT for `table` at or after the first
   * marker line is replaced, with the whitespace after it, by `newSql`.
   */
  function ReplaceSeedBlock(seed: string, table: string, newSql: string): Result<string> {
    var marker := Find(seed, Marker(table), 0);
    if marker.None? then Fail(MarkerMissing(table))
    else ReplaceAfter(seed, marker.value, table, newSql)
  }

  /** The second half of `replace_seed_block`: the search from the marker at `start` on. */
  function ReplaceAfter(seed: string, start: nat, table: string, newSql: string): Result<string>
    requires start <= |seed|
  {
    SpliceMatch(seed, start, SearchInsert(seed[start..], table), table, newSql)
  }

  /** The outcome once the search has run: the error message, or the match spliced out. */
  function SpliceMatch(seed: string, start: nat, found: Option<(nat, InsertMatch)>, table: string, newSql: string): Result<string>
    requires found.Some? ==> start + found.value.0 <= |seed| && start + found.value.1.end <= |seed|
  {
    if found.None? then Fail(InsertMissing(table))
    else Ok(Splice(seed, start + found.value.0, start + found.value.1.end, newSql))
  }

  // ---------------------------------------------------------------- the matcher against the pattern

  /** The run `SpaceRun` measures is all whitespace. */
  lemma {:induction false} SpaceRunSpaces(s: string, i: nat)
    requires i <= |s|
    ensures SpacesBetween(s, i, i + SpaceRun(s, i))
    decreases |s| - i
  {
    if i < |s| && IsSpace(s[i]) {
      SpaceRunSpaces(s, i + 1);
    }
  }

  /** `NextSemicolon` passes over no `;`. */
  lemma {:induction false} NextSemicolonFirst(s: string, i: nat)
    requires i <= |s|
    ensures NextSemicolon(s, i).Some? ==> forall k :: i <= k < NextSemicolon(s, i).value ==> s[k] != ';'
    ensures NextSemicolon(s, i).None? ==> forall k :: i <= k < |s| ==> s[k] != ';'
    decreases |s| - i
  {
    if i < |s| && s[i] != ';' {
      NextSemicolonFirst(s, i + 1);
    }
  }

  /** What `AfterTable` returns is a match of the tail of the pattern, its trailing `\s*` greedy. */
  lemma AfterTableSound(s: string, table: string, intoAt: nat, tableAt: nat, m: InsertMatch)
    requires tableAt <= |s| && AfterTable(s, table, intoAt, tableAt) == Some(m)
    ensures TailMatches(s, table, m)
  {
    AfterTableParts(s, table, intoAt, tableAt, m);
    TailFromParts(s, table, m);
  }

  /** Where `AfterTable` puts the parts of the match it returns. */
  lemma AfterTableParts(s: string, table: string, intoAt: nat, tableAt: nat, m: InsertMatch)
    requires tableAt <= |s| && AfterTable(s, table, intoAt, tableAt) == Some(m)
    ensures m.tableAt == tableAt && CiAt(s, tableAt, table)
    ensures m.open == tableAt + |table| + SpaceRun(s, tableAt + |table|) && m.open < |s| && s[m.open] == '('
    ensures NextSemicolon(s, m.open + 1) == Some(m.close) && m.open + 3 <= m.close && s[m.close - 1] == ')'
    ensures m.end == m.close + 1 + SpaceRun(s, m.close + 1)
  {
  }

  /** Parts lying where `AfterTable` puts them make a match of the tail of the pattern. */
  lemma TailFromParts(s: string, table: string, m: InsertMatch)
    requires m.tableAt + |table| <= |s| && CiAt(s, m.tableAt, table)
    requires m.open == m.tableAt + |table| + SpaceRun(s, m.tableAt + |table|) && m.open < |s| && s[m.open] == '('
    requires NextSemicolon(s, m.open + 1) == Some(m.close) && m.open + 3 <= m.close && s[m.close - 1] == ')'
    requires m.end == m.close + 1 + SpaceRun(s, m.close + 1)
    ensures TailMatches(s, table, m)
  {
    SpaceRunSpaces(s, m.tableAt + |table|);
    NextSemicolonFirst(s, m.open + 1);
    SpaceRunSpaces(s, m.close + 1);
  }

  /** What `TryTable` returns is a match of the tail of the pattern. */
  lemma {:induction false} TryTableSound(s: string, table: string, intoAt: nat, k: nat, m: InsertMatch)
    requires intoAt + 4 + k <= |s| && TryTable(s, table, intoAt, k) == Some(m)
    ensures TailMatches(s, table, m)
    decreases k
  {
    if AfterTable(s, table, intoAt, intoAt + 4 + k).Some? {
      AfterTableSound(s, table, intoAt, intoAt + 4 + k, m);
    } else {
      TryTableSound(s, table, intoAt, k - 1, m);
    }
  }

  /** What `MatchAt` returns is a match of the whole pattern at `p`, its trailing `\s*` greedy. */
  lemma MatchAtSound(s: string, table: string, p: nat, m: InsertMatch)
    requires p <= |s| && MatchAt(s, table, p) == Some(m)
    ensures MatchesWith(s, table, p, m)
  {
    var intoAt := MatchAtHead(s, table, p, m);
    var k := AtIntoHead(s, table, intoAt, m);
    TryTableSound(s, table, intoAt, k, m);
    SpacesWithin(s, intoAt + 4, m.tableAt, intoAt + 4 + k);
  }

  /** Up to `INTO`, a match found at `p` is as the pattern says, `INTO` lying at `intoAt`. */
  lemma MatchAtHead(s: string, table: string, p: nat, m: InsertMatch) returns (intoAt: nat)
    requires p <= |s| && MatchAt(s, table, p) == Some(m)
    ensures CiAt(s, p, "INSERT") && p + 6 < intoAt <= |s| && SpacesBetween(s, p + 6, intoAt)
    ensures AtInto(s, table, intoAt) == Some(m)
  {
    intoAt := p + 6 + SpaceRun(s, p + 6);
    SpaceRunSpaces(s, p + 6);
  }

  /** From `INTO` on, a match is as the pattern says, the whitespace after `INTO` being `k` long. */
  lemma AtIntoHead(s: string, table: string, intoAt: nat, m: InsertMatch) returns (k: nat)
    requires intoAt <= |s| && AtInto(s, table, intoAt) == Some(m)
    ensures CiAt(s, intoAt, "INTO") && intoAt + 4 + k <= |s| && SpacesBetween(s, intoAt + 4, intoAt + 4 + k)
    ensures TryTable(s, table, intoAt, k) == Some(m)
  {
    k := SpaceRun(s, intoAt + 4);
    SpaceRunSpaces(s, intoAt + 4);
  }

  /** A prefix of a whitespace stretch is whitespace. */
  lemma SpacesWithin(s: string, i: nat, j: nat, k: nat)
    requires SpacesBetween(s, i, k) && i <= j <= k
    ensures SpacesBetween(s, i, j)
  {
  }

  /** A whitespace stretch that stops short of whitespace is exactly the run `SpaceRun` measures. */
  lemma SpaceRunExact(s: string, i: nat, j: nat)
    requires i <= j <= |s| && SpacesBetween(s, i, j) && (j == |s| || !IsSpace(s[j]))
    ensures i + SpaceRun(s, i) == j
  {
    SpaceRunAtLeast(s, i, j);
    SpaceRunSpaces(s, i);
  }

  /** The run `SpaceRun` measures reaches at least as far as any whitespace stretch. */
  lemma {:induction false} SpaceRunAtLeast(s: string, i: nat, j: nat)
    requires i <= j <= |s| && SpacesBetween(s, i, j)
    ensures j <= i + SpaceRun(s, i)
    decreases j - i
  {
    if i < j {
      SpaceRunAtLeast(s, i + 1, j);
    }
  }

  /** A character equal, ignoring case, to one that is not whitespace is not whitespace either. */
  lemma CiKeepsNonSpace(s: string, i: nat, pat: string)
    requires CiAt(s, i, pat) && pat != [] && !IsSpace(pat[0])
    ensures i < |s| && !IsSpace(s[i])
  {
    assert CiEqChar(s[i + 0], pat[0]);
  }

  /** `s[i..j]` holds no `;` and `s[j]` is one: the next `;` from `i` is at `j`. */
  lemma {:induction false} SemicolonAt(s: string, i: nat, j: nat)
    requires i <= j < |s| && s[j] == ';' && forall k :: i <= k < j ==> s[k] != ';'
    ensures NextSemicolon(s, i) == Some(j)
    decreases j - i
  {
    if i < j {
      SemicolonAt(s, i + 1, j);
    }
  }

  /** Whenever the tail of the pattern matches from `tableAt`, `AfterTable` finds a match there. */
  lemma AfterTableFinds(s: string, table: string, m: InsertMatch)
    requires TailMatches(s, table, m)
    ensures AfterTable(s, table, m.intoAt, m.tableAt).Some?
  {
    var t := m.tableAt + |table|;
    SpaceRunExact(s, t, m.open);
    SemicolonAt(s, m.open + 1, m.close);
  }

  /** Giving back whitespace one character at a time reaches any table position that works. */
  lemma {:induction false} TryTableFinds(s: string, table: string, intoAt: nat, k: nat, t: nat)
    requires intoAt + 4 + k <= |s| && intoAt + 4 < t <= intoAt + 4 + k
    requires AfterTable(s, table, intoAt, t).Some?
    ensures TryTable(s, table, intoAt, k).Some?
    decreases k
  {
    if intoAt + 4 + k == t {
      assert AfterTable(s, table, intoAt, intoAt + 4 + k) == AfterTable(s, table, intoAt, t);
    } else if AfterTable(s, table, intoAt, intoAt + 4 + k).None? {
      TryTableFinds(s, table, intoAt, k - 1, t);
    }
  }

  /** The scans of `MatchAt` reach `INTO`, and a workable table position lies within the run after it. */
  lemma MatchAtFromParts(s: string, table: string, p: nat, intoAt: nat, tableAt: nat)
    requires p + 6 < intoAt <= |s| && CiAt(s, p, "INSERT") && CiAt(s, intoAt, "INTO")
    requires p + 6 + SpaceRun(s, p + 6) == intoAt
    requires intoAt + 4 < tableAt <= intoAt + 4 + SpaceRun(s, intoAt + 4)
    requires AfterTable(s, table, intoAt, tableAt).Some?
    ensures MatchAt(s, table, p).Some?
  {
    AtIntoFromParts(s, table, intoAt, tableAt);
  }

  /** From `INTO`, a workable table position within the run after it is found. */
  lemma AtIntoFromParts(s: string, table: string, intoAt: nat, tableAt: nat)
    requires intoAt <= |s| && CiAt(s, intoAt, "INTO")
    requires intoAt + 4 < tableAt <= intoAt + 4 + SpaceRun(s, intoAt + 4)
    requires AfterTable(s, table, intoAt, tableAt).Some?
    ensures AtInto(s, table, intoAt).Some?
  {
    TryTableFinds(s, table, intoAt, SpaceRun(s, intoAt + 4), tableAt);
  }

  /** Whenever the pattern can match at `p`, the matcher finds a match at `p`. */
  lemma MatchAtComplete(s: string, table: string, p: nat, m: InsertMatch)
    requires MatchesWith(s, table, p, m)
    ensures MatchAt(s, table, p).Some?
  {
    Reachable(s, table, p, m);
    MatchAtFromParts(s, table, p, m.intoAt, m.tableAt);
  }

  /** The scans of a match reach `INTO`, the table name can be reached, and the tail is found from there. */
  lemma Reachable(s: string, table: string, p: nat, m: InsertMatch)
    requires MatchesWith(s, table, p, m)
    ensures p + 6 < m.intoAt <= |s| && CiAt(s, p, "INSERT") && CiAt(s, m.intoAt, "INTO")
    ensures p + 6 + SpaceRun(s, p + 6) == m.intoAt
    ensures m.intoAt + 4 < m.tableAt <= m.intoAt + 4 + SpaceRun(s, m.intoAt + 4)
    ensures AfterTable(s, table, m.intoAt, m.tableAt).Some?
  {
    IntoFound(s, p, m.intoAt);
    SpaceRunAtLeast(s, m.intoAt + 4, m.tableAt);
    AfterTableFinds(s, table, m);
  }

  /**
   * For a table name that does not begin with whitespace, a match at a given
   * start with a greedy tail is unique: every part of it lies at one place.
   */
  lemma MatchUnique(s: string, table: string, p: nat, m1: InsertMatch, m2: InsertMatch)
    requires table != [] && !IsSpace(table[0])
    requires MatchesWith(s, table, p, m1) && Greedy(s, m1)
    requires MatchesWith(s, table, p, m2) && Greedy(s, m2)
    ensures m1 == m2
  {
    CiKeepsNonSpace(s, m1.intoAt, "INTO");
    CiKeepsNonSpace(s, m2.intoAt, "INTO");
    RunEndUnique(s, p + 6, m1.intoAt, m2.intoAt);
    CiKeepsNonSpace(s, m1.tableAt, table);
    CiKeepsNonSpace(s, m2.tableAt, table);
    RunEndUnique(s, m1.intoAt + 4, m1.tableAt, m2.tableAt);
    TailUnique(s, table, m1, m2);
  }

  /** Two matches of the tail from the same table position, both greedy, lie alike. */
  lemma TailUnique(s: string, table: string, m1: InsertMatch, m2: InsertMatch)
    requires TailMatches(s, table, m1) && Greedy(s, m1)
    requires TailMatches(s, table, m2) && Greedy(s, m2)
    requires m1.intoAt == m2.intoAt && m1.tableAt == m2.tableAt
    ensures m1 == m2
  {
    RunEndUnique(s, m1.tableAt + |table|, m1.open, m2.open);
    SemicolonUnique(s, m1.open + 1, m1.close, m2.close);
    RunEndUnique(s, m1.close + 1, m1.end, m2.end);
  }

  /** A whitespace run from `i` that stops short of whitespace ends at one place. */
  lemma RunEndUnique(s: string, i: nat, j1: nat, j2: nat)
    requires SpacesBetween(s, i, j1) && (j1 == |s| || !IsSpace(s[j1]))
    requires SpacesBetween(s, i, j2) && (j2 == |s| || !IsSpace(s[j2]))
    ensures j1 == j2
  {
  }

  /** The first `;` from `i` lies at one place. */
  lemma SemicolonUnique(s: string, i: nat, j1: nat, j2: nat)
    requires i <= j1 < |s| && s[j1] == ';' && forall k :: i <= k < j1 ==> s[k] != ';'
    requires i <= j2 < |s| && s[j2] == ';' && forall k :: i <= k < j2 ==> s[k] != ';'
    ensures j1 == j2
  {
  }

  /** The whitespace run after `INSERT` stops at `INTO`. */
  lemma IntoFound(s: string, p: nat, intoAt: nat)
    requires p + 6 < intoAt <= |s| && SpacesBetween(s, p + 6, intoAt) && CiAt(s, intoAt, "INTO")
    ensures p + 6 + SpaceRun(s, p + 6) == intoAt
  {
    CiKeepsNonSpace(s, intoAt, "INTO");
    SpaceRunExact(s, p + 6, intoAt);
  }

  // ---------------------------------------------------------------- replacing the block

  /**
   * The search passes over no start that matches: every start before the one
   * it returns, or every start at all when it returns nothing, fails.
   */
  lemma {:induction false} LeftmostMatchSkips(matchAt: nat -> Option<InsertMatch>, n: nat, from: nat, q: nat)
    requires from <= q <= n
    requires LeftmostMatch(matchAt, n, from).None? || q < LeftmostMatch(matchAt, n, from).value.0
    ensures matchAt(q).None?
    decreases n - from
  {
    if q > from {
      LeftmostMatchSkips(matchAt, n, from + 1, q);
    }
  }

  /** When `p` is the first start that matches, the search returns `p` and its match. */
  lemma {:induction false} LeftmostMatchFinds(matchAt: nat -> Option<InsertMatch>, n: nat, from: nat, p: nat)
    requires from <= p <= n && matchAt(p).Some?
    requires forall q :: from <= q < p ==> matchAt(q).None?
    ensures LeftmostMatch(matchAt, n, from) == Some((p, matchAt(p).value))
    decreases n - from
  {
    if from < p {
      LeftmostMatchFinds(matchAt, n, from + 1, p);
    }
  }

  /** `seed.find(marker)` is `start`: the marker occurs there and nowhere before. */
  ghost predicate FirstMarkerAt(seed: string, table: string, start: nat) {
    At(seed, start, Marker(table)) && forall j :: 0 <= j < start ==> !At(seed, j, Marker(table))
  }

  /** The pattern matches somewhere in `s`. */
  ghost predicate HasInsert(s: string, table: string) {
    exists q, m :: MatchesWith(s, table, q, m)
  }

  /** A marker first at `start` is what `find` returns. */
  lemma FirstMarkerFound(seed: string, table: string, start: nat)
    requires FirstMarkerAt(seed, table, start)
    ensures Find(seed, Marker(table), 0) == Some(start)
  {
  }

  /** The two error messages can be told apart. */
  lemma MessagesDiffer(table: string)
    ensures MarkerMissing(table) != InsertMissing(table)
  {
    assert MarkerMissing(table)[15] == 'm' && InsertMissing(table)[15] == 'I';
  }

  /** The marker error is reported exactly when the marker occurs nowhere in the seed text. */
  lemma ReplaceSeedBlockNoMarker(seed: string, table: string, newSql: string)
    ensures ReplaceSeedBlock(seed, table, newSql) == Fail(MarkerMissing(table))
        <==> forall j :: 0 <= j <= |seed| ==> !At(seed, j, Marker(table))
  {
    if Find(seed, Marker(table), 0).Some? {
      MessagesDiffer(table);
    }
  }

  /**
   * With the marker first at `start`, the INSERT error is reported exactly
   * when the pattern matches nowhere from the marker on.
   */
  lemma ReplaceSeedBlockNoInsert(seed: string, table: string, newSql: string, start: nat)
    requires FirstMarkerAt(seed, table, start)
    ensures ReplaceSeedBlock(seed, table, newSql) == Fail(InsertMissing(table)) <==> !HasInsert(seed[start..], table)
  {
    FirstMarkerFound(seed, table, start);
    var after := seed[start..];
    match SearchInsert(after, table)
    case None =>
      forall q, m | MatchesWith(after, table, q, m) ensures false {
        MatchAtComplete(after, table, q, m);
        LeftmostMatchSkips(Matcher(after, table), |after|, 0, q);
      }
    case Some((p, m)) =>
      MatchAtSound(after, table, p, m);
  }

  /** The search finds the leftmost match, and, for such a table name, exactly that match. */
  lemma SearchFindsLeftmost(s: string, table: string, p: nat, m: InsertMatch)
    requires table != [] && !IsSpace(table[0])
    requires MatchesWith(s, table, p, m) && Greedy(s, m)
    requires forall q, m' :: 0 <= q < p ==> !MatchesWith(s, table, q, m')
    ensures SearchInsert(s, table) == Some((p, m))
  {
    MatchAtIs(s, table, p, m);
    forall q | 0 <= q < p ensures MatchAt(s, table, q).None? {
      if MatchAt(s, table, q).Some? {
        MatchAtSound(s, table, q, MatchAt(s, table, q).value);
      }
    }
    LeftmostMatchFinds(Matcher(s, table), |s|, 0, p);
  }

  /** A match with a greedy tail is the one the matcher returns at its start. */
  lemma MatchAtIs(s: string, table: string, p: nat, m: InsertMatch)
    requires table != [] && !IsSpace(table[0])
    requires MatchesWith(s, table, p, m) && Greedy(s, m)
    ensures MatchAt(s, table, p) == Some(m)
  {
    MatchAtComplete(s, table, p, m);
    MatchAtSound(s, table, p, MatchAt(s, table, p).value);
    MatchUnique(s, table, p, m, MatchAt(s, table, p).value);
  }

  /**
   * When the marker is first at `start` and the leftmost match after it
   * starts at `p`, the result is the text before the match (the marker
   * included), the new SQL, and the text after the match's trailing
   * whitespace, all unchanged.
   */
  lemma ReplaceSeedBlockSplices(seed: string, table: string, newSql: string, start: nat, p: nat, m: InsertMatch)
    requires table != [] && !IsSpace(table[0])
    requires FirstMarkerAt(seed, table, start)
    requires MatchesWith(seed[start..], table, p, m) && Greedy(seed[start..], m)
    requires forall q, m' :: 0 <= q < p ==> !MatchesWith(seed[start..], table, q, m')
    ensures ReplaceSeedBlock(seed, table, newSql) == Ok(Splice(seed, start + p, start + m.end, newSql))
  {
    FirstMarkerFound(seed, table, start);
    SearchFindsLeftmost(seed[start..], table, p, m);
    SpliceFound(seed, table, newSql, start, p, m);
  }

  /** Marker found and search successful: the matched text is spliced out. */
  lemma SpliceFound(seed: string, table: string, newSql: string, start: nat, p: nat, m: InsertMatch)
    requires Find(seed, Marker(table), 0) == Some(start)
    requires SearchInsert(seed[start..], table) == Some((p, m))
    ensures ReplaceSeedBlock(seed, table, newSql) == Ok(Splice(seed, start + p, start + m.end, newSql))
  {
    MarkerFoundThenAfter(seed, table, newSql, start);
    SpliceMatchOk(seed, start, p, m, table, newSql);
  }

  /** With the marker found, the outcome is decided by the search after it. */
  lemma MarkerFoundThenAfter(seed: string, table: string, newSql: string, start: nat)
    requires Find(seed, Marker(table), 0) == Some(start)
    ensures ReplaceSeedBlock(seed, table, newSql) == SpliceMatch(seed, start, SearchInsert(seed[start..], table), table, newSql)
  {
  }

  /** A successful search leads to the splice. */
  lemma SpliceMatchOk(seed: string, start: nat, p: nat, m: InsertMatch, table: string, newSql: string)
    requires start + p <= |seed| && start + m.end <= |seed|
    ensures SpliceMatch(seed, start, Some((p, m)), table, newSql) == Ok(Splice(seed, start + p, start + m.end, newSql))
  {
  }
}
