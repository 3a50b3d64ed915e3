/**
 * The fixed tables of the import tool (update-db.py) and of the web layer
 * (app.py): the canonical column order, the header aliases, the truthy
 * tokens, the six content tabs and the tab-to-table map.
 */
module Config {

  /** The category every blank or unknown category falls back to ("general"). */
  const DefaultCategory: string := "כללי"

  /** Column order of every generated INSERT; `id` is left to the database. */
  const TableColumns: seq<string> := [
    "course_name", "teacher_name", "intended_for", "course_info", "requirments",
    "category", "allow_valenteres", "valentieres_age", "max_valetires", "additional_info"
  ]

  /**
   * Accepted header spellings per canonical column, as the ordered items of
   * the source's dict. In the source each alias group is a Python set, whose
   * iteration order is unspecified; here the aliases keep the written order.
   */
  const HeaderAliases: seq<(string, seq<string>)> := [
    ("course_name", ["course_name", "corese_name", "course", "course title", "שם קורס", "שם שיעור"]),
    ("teacher_name", ["teacher_name", "teacher", "מורה", "שם מורה"]),
    ("intended_for", ["intended_for", "target", "מיועד ל"]),
    ("course_info", ["course_info", "description", "about", "תיאור", "מידע על הקורס"]),
    ("requirments", ["requirments", "requirements", "דרישות"]),
    ("category", ["category", "קטגוריה"]),
    ("allow_valenteres", ["allow_valenteres", "allow_volunteers", "מתנדבים"]),
    ("valentieres_age", ["valentieres_age", "volunteers_age", "גיל מתנדבים"]),
    ("max_valetires", ["max_valetires", "max_volunteers", "מקס מתנדבים", "כמות מתנדבים מקס"]),
    ("additional_info", ["additional_info", "notes", "מידע נוסף"])
  ]

  /** Tokens `parse_bool` reads as true, compared after strip and lower. */
  const Truthy: set<string> := {"1", "true", "yes", "y", "on", "כן", "נכון"}

  /** One entry of the tab menu: Hebrew label, logical id, table, seed marker name. */
  datatype TabChoice = TabChoice(heLabel: string, logicalId: string, table: string, marker: string)

  const TabChoices: map<int, TabChoice> := map[
    1 := TabChoice("גן", "docs", "docs", "docs"),
    2 := TabChoice("בית א׳-ב׳", "tasks", "tasks", "tasks"),
    3 := TabChoice("בית ג׳-ד׳", "notes", "notes", "notes"),
    4 := TabChoice("בית ה׳-ו׳", "alerts", "alerts", "alerts"),
    5 := TabChoice("בית חט״ב", "links", "links", "links"),
    6 := TabChoice("תיכון", "hs", "highschool", "highschool")
  ]

  /** The web layer's logical tab id to table name. */
  const TableMap: map<string, string> := map[
    "home" := "home_items",
    "docs" := "docs",
    "tasks" := "tasks",
    "notes" := "notes",
    "alerts" := "alerts",
    "links" := "links",
    "hs" := "highschool"
  ]

  const AllowedTabs: set<string> := TableMap.Keys

  const CacheTtlSeconds: int := 60
}
