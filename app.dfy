/**
 * The web layer of app.py: the in-memory cache with a time-to-live
 * (`_cache_get`, `_cache_set`), the resolution of a requested tab against
 * the tab-to-table map (`index`, `api_tab`), the rows served for a tab with
 * their volunteer flag turned into a boolean (`fetch_rows_for_tab`), and the
 * tab menu built from the settings (`get_tabs_config`).
 *
 * Clock readings are parameters (whole seconds); the database query is the
 * function `db`, which gives the rows `SELECT * FROM <table> ORDER BY id DESC`
 * returns for a table.
 */
module App {
  import opened Optional
  import opened Strings
  import opened Config

  // ---------------------------------------------------------------- the cache

  /** An entry stored at `storedAt` has outlived the time-to-live at `now`. */
  predicate Expired(storedAt: int, now: int) {
    now - storedAt > CacheTtlSeconds
  }

  /** `_cache`: a key to the time its data was stored and the data. */
  class TtlCache<T> {
    var entries: map<string, (int, T)>

    constructor ()
      ensures entries == map[]
    {
      entries := map[];
    }

    /**
     * `_cache_get`: the data of a live entry; an absent key gives None, and
     * an expired entry is removed and gives None.
     */
    method Get(key: string, now: int) returns (data: Option<T>)
      modifies this
      ensures key !in old(entries) ==> data == None && entries == old(entries)
      ensures key in old(entries) && Expired(old(entries)[key].0, now) ==>
        data == None && entries == old(entries) - {key}
      ensures key in old(entries) && !Expired(old(entries)[key].0, now) ==>
        data == Some(old(entries)[key].1) && entries == old(entries)
    {
      if key !in entries {
        return None;
      }
      var (ts, d) := entries[key];
      if now - ts > CacheTtlSeconds {
        entries := entries - {key};
        return None;
      }
      return Some(d);
    }

    /** `_cache_set`: stores `(now, data)` under `key`, replacing any older entry. */
    method Set(key: string, now: int, data: T)
      modifies this
      ensures entries == old(entries)[key := (now, data)]
    {
      entries := entries[key := (now, data)];
    }
  }

  /** A cache holds live data for `key` at `now`. */
  predicate Live<T>(entries: map<string, (int, T)>, key: string, now: int) {
    key in entries && !Expired(entries[key].0, now)
  }

  /**
   * Data stored at `storedAt` is served for exactly the 60 seconds that
   * follow: at any `now` no later than `storedAt + 60` the key is live, and
   * one second later it is not.
   */
  lemma LiveWindow<T>(entries: map<string, (int, T)>, key: string, storedAt: int, data: T, now: int)
    ensures Live(entries[key := (storedAt, data)], key, now) <==> now <= storedAt + 60
  {
  }

  /** Expiry of one key leaves the others as they were. */
  lemma ExpiryKeepsOthers<T>(entries: map<string, (int, T)>, key: string, other: string)
    requires other in entries && other != key
    ensures other in entries - {key} && (entries - {key})[other] == entries[other]
  {
  }

  // ---------------------------------------------------------------- tabs

  /** `(s or "").strip().lower()` for a query or path value. */
  function NormalizeTab(arg: Option<string>): string {
    Lower(Strip(if arg.Some? then arg.value else ""))
  }

  /** `index`: the requested tab, normalised, or "home" when it is not a known tab. */
  function ResolveTab(arg: Option<string>): (tab: string)
    ensures tab in AllowedTabs
    ensures NormalizeTab(arg) in AllowedTabs ==> tab == NormalizeTab(arg)
    ensures NormalizeTab(arg) !in AllowedTabs ==> tab == "home"
  {
    var tab := NormalizeTab(arg);
    if tab !in AllowedTabs then "home" else tab
  }

  /** `api_tab` before the fetch: the normalised tab, or a 404 abort when it is not a known tab. */
  function ApiTab(arg: Option<string>): (r: Result<string>)
    ensures r.Ok? <==> NormalizeTab(arg) in AllowedTabs
    ensures r.Ok? ==> r.value == NormalizeTab(arg) && r.value in TableMap
    ensures r.Fail? ==> r.reason == NotFound
  {
    var tab := NormalizeTab(arg);
    if tab !in AllowedTabs then Fail(NotFound) else Ok(tab)
  }

  /** The reason of `abort(404)`. */
  const NotFound: string := "404 Not Found"

  /** No tab name is empty or has whitespace at either end. */
  lemma TabNamesTrimmed(t: string)
    requires t in TableMap
    ensures t != [] && !IsSpace(t[0]) && !IsSpace(t[|t| - 1])
  {
  }

  /**
   * Any capitalisation of a tab name, padded with any whitespace, resolves
   * to that tab, for the page and for the API alike.
   */
  lemma TabVariantsAccepted(pre: string, u: string, post: string)
    requires AllSpace(pre) && AllSpace(post)
    requires Lower(u) in TableMap
    ensures ResolveTab(Some(pre + u + post)) == Lower(u)
    ensures ApiTab(Some(pre + u + post)) == Ok(Lower(u))
  {
    var t := Lower(u);
    TabNamesTrimmed(t);
    assert t[0] == LowerChar(u[0]) && t[|t| - 1] == LowerChar(u[|u| - 1]);
    StripPadded(pre, u, post);
  }

  /** A missing or blank tab argument shows the home tab, and the API refuses it. */
  lemma BlankTabIsHome(arg: Option<string>)
    requires arg.None? || AllSpace(arg.value)
    ensures ResolveTab(arg) == "home" && ApiTab(arg) == Fail(NotFound)
  {
    if arg.Some? {
      StripPadded(arg.value, "", "");
      assert arg.value + "" + "" == arg.value;
    } else {
      StripPadded("", "", "");
    }
    assert Lower("") == "";
    NoBlankTab();
  }

  /** The empty string is no tab name. */
  lemma NoBlankTab()
    ensures "" !in TableMap
  {
  }

  /** The API serves a tab exactly when the page would show that same tab rather than fall back. */
  lemma ApiAgreesWithIndex(arg: Option<string>)
    ensures ApiTab(arg).Ok? ==> ResolveTab(arg) == ApiTab(arg).value
    ensures ApiTab(arg).Fail? ==> ResolveTab(arg) == "home"
  {
  }

  /** The tab ids of the web layer match the ids and tables of the import tool's menu. */
  lemma TabChoicesAgree(n: int)
    requires n in TabChoices
    ensures TabChoices[n].logicalId in TableMap
    ensures TableMap[TabChoices[n].logicalId] == TabChoices[n].table
  {
  }

  /** One entry of the tab menu. */
  datatype TabConfig = TabConfig(id: string, caption: string, icon: string)

  /** The menu in display order: tab id, the settings key of its label, its icon. */
  const TabLayout: seq<(string, string, string)> := [
    ("home", "tab_home", "bi bi-house"),
    ("docs", "tab_docs", "bi bi-file-text"),
    ("tasks", "tab_tasks", "bi bi-check2-square"),
    ("notes", "tab_notes", "bi bi-journal-text"),
    ("alerts", "tab_alerts", "bi bi-bell"),
    ("links", "tab_links", "bi bi-link-45deg"),
    ("hs", "tab_highschool", "bi bi-mortarboard")
  ]

  /** `get_tabs_config`: every settings key it reads must be present, as `settings[...]` raises otherwise. */
  function GetTabsConfig(settings: map<string, string>): (tabs: seq<TabConfig>)
    requires forall i :: 0 <= i < |TabLayout| ==> TabLayout[i].1 in settings
    ensures |tabs| == |TabLayout|
    ensures forall i :: 0 <= i < |tabs| ==>
      tabs[i].id == TabLayout[i].0 && tabs[i].caption == settings[TabLayout[i].1] && tabs[i].icon == TabLayout[i].2
  {
    seq(|TabLayout|, i requires 0 <= i < |TabLayout| => TabConfig(TabLayout[i].0, settings[TabLayout[i].1], TabLayout[i].2))
  }

  /** Every menu entry is a servable tab, and "home" comes first. */
  lemma TabLayoutAllowed()
    ensures forall i :: 0 <= i < |TabLayout| ==> TabLayout[i].0 in AllowedTabs
    ensures TabLayout[0].0 == "home"
  {
  }

  /** Every servable tab has a menu entry. */
  lemma TabLayoutCovers(t: string)
    requires t in AllowedTabs
    ensures exists i :: 0 <= i < |TabLayout| && TabLayout[i].0 == t
  {
    if t == "home" { assert TabLayout[0].0 == t; }
    else if t == "docs" { assert TabLayout[1].0 == t; }
    else if t == "tasks" { assert TabLayout[2].0 == t; }
    else if t == "notes" { assert TabLayout[3].0 == t; }
    else if t == "alerts" { assert TabLayout[4].0 == t; }
    else if t == "links" { assert TabLayout[5].0 == t; }
    else { assert TabLayout[6].0 == t; }
  }

  /** No tab appears twice in the menu. */
  lemma TabLayoutDistinct()
    ensures forall i, j :: 0 <= i < j < |TabLayout| ==> TabLayout[i].0 != TabLayout[j].0
  {
  }

  // ---------------------------------------------------------------- rows served for a tab

  /** A column value as SQLite hands it over, and the boolean the flag becomes. */
  datatype DbValue = DbNull | DbInt(n: int) | DbText(s: string) | DbBool(b: bool)

  /** `dict(r)` of one result row: column name to value. */
  type DbRow = map<string, DbValue>

  /** Python's `bool(v)`. */
  predicate IsTruthy(v: DbValue) {
    match v
    case DbNull => false
    case DbInt(n) => n != 0
    case DbText(s) => s != ""
    case DbBool(b) => b
  }

  /** `d["allow_valenteres"] = bool(d.get("allow_valenteres", 0))`. */
  function WithAllowFlag(d: DbRow): (r: DbRow)
    ensures "allow_valenteres" in r && r["allow_valenteres"].DbBool?
    ensures r["allow_valenteres"].b <==> "allow_valenteres" in d && IsTruthy(d["allow_valenteres"])
    ensures forall k :: k != "allow_valenteres" ==> (k in r <==> k in d)
    ensures forall k :: k in d && k != "allow_valenteres" ==> r[k] == d[k]
  {
    d["allow_valenteres" := DbBool(IsTruthy(if "allow_valenteres" in d then d["allow_valenteres"] else DbInt(0)))]
  }

  /** The loop of `fetch_rows_for_tab`: each row converted, in the order the query returned them. */
  method ConvertRows(rows: seq<DbRow>) returns (data: seq<DbRow>)
    ensures |data| == |rows|
    ensures forall i :: 0 <= i < |rows| ==> data[i] == WithAllowFlag(rows[i])
  {
    data := [];
    var i := 0;
    while i < |rows|
      invariant 0 <= i <= |rows|
      invariant |data| == i
      invariant forall j :: 0 <= j < i ==> data[j] == WithAllowFlag(rows[j])
    {
      var d := rows[i];
      d := d["allow_valenteres" := DbBool(IsTruthy(if "allow_valenteres" in d then d["allow_valenteres"] else DbInt(0)))];
      data := data + [d];
      i := i + 1;
    }
  }

  /** What the query result becomes: each row with its flag converted. */
  function Converted(rows: seq<DbRow>): (data: seq<DbRow>)
    ensures |data| == |rows|
  {
    seq(|rows|, i requires 0 <= i < |rows| => WithAllowFlag(rows[i]))
  }

  /** The cache key of a tab. */
  function TabKey(tab: string): string {
    "tab:" + tab
  }

  /** Different tabs never share a cache entry. */
  lemma TabKeysDistinct(t1: string, t2: string)
    requires t1 != t2
    ensures TabKey(t1) != TabKey(t2)
  {
    assert TabKey(t1)[4..] == t1 && TabKey(t2)[4..] == t2;
  }

  /**
   * `fetch_rows_for_tab`: a 404 for an unknown tab; otherwise the live cached
   * rows when there are any, and else the converted query result, which is
   * then cached. `now` is the clock at the lookup, `storedAt` at the store.
   */
  method FetchRowsForTab(cache: TtlCache<seq<DbRow>>, tab: string, db: string -> seq<DbRow>, now: int, storedAt: int)
    returns (res: Result<seq<DbRow>>)
    modifies cache
    ensures tab !in AllowedTabs ==> res == Fail(NotFound) && cache.entries == old(cache.entries)
    ensures tab in AllowedTabs && Live(old(cache.entries), TabKey(tab), now) ==>
      res == Ok(old(cache.entries)[TabKey(tab)].1) && cache.entries == old(cache.entries)
    ensures tab in AllowedTabs && !Live(old(cache.entries), TabKey(tab), now) ==>
      && res == Ok(Converted(db(TableMap[tab])))
      && cache.entries == old(cache.entries)[TabKey(tab) := (storedAt, Converted(db(TableMap[tab])))]
  {
    if tab !in AllowedTabs {
      return Fail(NotFound);
    }
    var key := TabKey(tab);
    var cached := cache.Get(key, now);
    if cached.Some? {
      return Ok(cached.value);
    }
    var table := TableMap[tab];
    var data := ConvertRows(db(table));
    assert data == Converted(db(table));
    cache.Set(key, storedAt, data);
    return Ok(data);
  }

  /** Within the time-to-live a second fetch of a tab serves what the first one stored. */
  lemma SecondFetchServesCache(entries: map<string, (int, seq<DbRow>)>, tab: string, data: seq<DbRow>, storedAt: int, now: int)
    requires storedAt <= now <= storedAt + CacheTtlSeconds
    ensures Live(entries[TabKey(tab) := (storedAt, data)], TabKey(tab), now)
    ensures entries[TabKey(tab) := (storedAt, data)][TabKey(tab)].1 == data
  {
  }

  /** The flag is served as a boolean that is true exactly for a non-zero, non-empty stored value. */
  lemma ConvertedFlags(rows: seq<DbRow>, i: nat)
    requires i < |rows|
    ensures var r := Converted(rows)[i];
      && r["allow_valenteres"].DbBool?
      && (r["allow_valenteres"].b <==> "allow_valenteres" in rows[i] && IsTruthy(rows[i]["allow_valenteres"]))
  {
  }
}
