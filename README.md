# syllabooster: the seed import and the tab server, modelled in Dafny

syllabooster serves a school's course catalogue. It has one web tab per
age group. Two Python programs are modelled here:

- **`update-db.py`** replaces one tab's seed data from a CSV file. It
  resolves the CSV headers against a table of aliases. It normalises each
  record into the ten insert columns and remaps unknown categories to the
  default category `כללי` ("general"). It renders one multi-row
  `INSERT INTO <table>(...) VALUES ...;` statement and splices it into
  `seed.sql` in place of the table's existing INSERT.
- **`app.py`** is the Flask server. It resolves a requested tab against the
  tab-to-table map. It serves the tab's rows, turning the volunteer flag
  into a boolean, through an in-memory cache with a 60-second lifetime. It
  builds the tab menu from the settings.

The modules follow the programs' structure:

- `optional.dfy` (module `Optional`): `Option` and `Result` (a value or an error message).
- `strings.dfy` (module `Strings`): `str.strip`, ASCII `str.lower`, `str.find`, `str.join`, code-point order of `str`.
- `config.dfy` (module `Config`): `TABLE_COLUMNS`, `HEADER_ALIASES`, `TRUTHY`, `TAB_CHOICES`, `TABLE_MAP`, `ALLOWED_TABS`, `CACHE_TTL_SECONDS`.
- `headers.dfy` (module `Headers`): `normalize_headers`.
- `literals.dfy` (module `Literals`): `parse_bool`, `to_sql_literal`.
- `rows.dfy` (module `Rows`): the record loop of `read_csv_rows`.
- `categories.dfy` (module `Categories`): `map_categories` and its sorted report.
- `insert_sql.dfy` (module `InsertSql`): `generate_insert_sql`, plus a reader for the SQL it emits.
- `seed.dfy` (module `Seed`): `replace_seed_block`, with its regular expression written out as a matcher.
- `app.dfy` (module `App`): `_cache_get`, `_cache_set`, tab resolution in `index` and `api_tab`, `fetch_rows_for_tab`, `get_tabs_config`.

Each loop-driven function of the source is a `method` with a `while` loop. It
is proved equal to a specification function, and the promised properties
are proved about that function as lemmas. This applies to `normalize_headers`,
the record loop, `map_categories`, `generate_insert_sql` and the row
conversion of `fetch_rows_for_tab`. The cache is a class whose
`entries` map the methods update. Everything else is functions and lemmas.

What the generated SQL means is stated through a reader of SQL literal text.
`DecodeLiteral` reads one literal, and `ReadInsert` reads a whole statement.
Reading back what is generated gives, for every row in order, the ten values
the row's cells are meant to store (`InsertStatementReadsBack`).

The regular expression of `replace_seed_block` is
`INSERT\s+INTO\s+<table>\s*\([^;]+?\);\s*`, matched case-insensitively. It is
modelled as the backtracking matcher runs it. `MatchesWith` says what a match
is, and `MatchAt` is the matcher at one start. `MatchAtSound` and
`MatchAtComplete` prove the two agree. The search then takes the leftmost
start.

The model keeps these behaviours of the code:

- A non-numeric `max_valetires` is emitted as a quoted string, not NULL.
- A blank category is defaulted but not counted in the report.
- With an empty allowed-category list, unknown categories are kept.
- The first marker is used, and a second marker is not detected.
- Only the INSERT statement is replaced, not a marker-to-marker block. That
  statement may lie beyond the next marker.

## Model

| member | source | states |
|---|---|---|
| `Strings.Strip` | update-db.py:110 | the result is no longer than the input and has no whitespace at either end |
| `Strings.StripIsStripOf` | update-db.py:110 | `strip()` removes an all-whitespace prefix and suffix and nothing else |
| `Strings.StripTrimmed` | update-db.py:143 | a value with no whitespace at either end is unchanged by `strip()` |
| `Strings.StripPadded` | update-db.py:127 | a trimmed value padded with any whitespace strips back to itself |
| `Strings.Lower` | update-db.py:127 | each character is lower-cased on its own and the length is kept |
| `Strings.Join` | update-db.py:200-201 | `sep.join(parts)`; what it builds is stated by `InsertSql.JoinedOne`, `InsertSql.JoinedCons` and `InsertSql.InsertStatementReadsBack` |
| `Strings.Find` | update-db.py:213 | `find` returns the first position where the pattern occurs, and None only when it occurs nowhere |
| `Strings.LexLessIrreflexive` | update-db.py:178 | no name sorts before itself |
| `Strings.LexLessTransitive` | update-db.py:178 | name order is transitive |
| `Strings.LexLessTotal` | update-db.py:178 | of two different names, one sorts first |
| `Strings.LexLessAsymmetric` | update-db.py:178 | two names never each sort before the other |
| `Headers.IndexStripped` | update-db.py:89 | the stripped-header dict maps each stripped form to a header with that stripped form, and indexes every header |
| `Headers.FirstMatch` | update-db.py:94-97 | the first stripped header equal to the alias ignoring case; none before it; None when no header matches |
| `Headers.ScanHeaders` | update-db.py:94-97 | the header loop with its `break` finds exactly that first match |
| `Headers.ResolveAliases` | update-db.py:91-99 | the alias loop stops at the first alias some header matches and yields that header as given |
| `Headers.ResolveAll` | update-db.py:88-102 | the column loop builds the mapping of all columns that resolve |
| `Headers.HeaderMapping` | update-db.py:86-102 | the mapping `normalize_headers` returns; characterised by `Headers.HeaderMappingCharacterized` |
| `Headers.NormalizeHeaders` | update-db.py:86-102 | `normalize_headers` returns the header mapping over the alias table |
| `Headers.ResolveFieldSound` | update-db.py:92-99 | a resolved header is one of the input headers, and stripped and lower-cased it equals one of the aliases lower-cased |
| `Headers.ResolveFieldComplete` | update-db.py:92-99 | if some stripped header equals an alias ignoring case, the column resolves |
| `Headers.MappingOfEntry` | update-db.py:90-101 | a column is in the mapping exactly when one of its alias items resolves, and its value is what that item resolved to |
| `Headers.MappingOfCharacterized` | update-db.py:86-102 | a column is mapped iff some header matches one of its aliases after strip and lower; the value is such a header, unstripped |
| `Headers.HeaderMappingCharacterized` | update-db.py:86-102 | every key is a canonical column; a column is present iff a header matches one of its aliases; its value is a matching input header |
| `Headers.CanonicalNamesAreColumns` | update-db.py:40-65 | the alias table names exactly the ten insert columns, in order |
| `Literals.ParseBool` | update-db.py:124-128 | the result is 0 or 1, and 1 exactly when the value is present and its stripped, lower-cased form is a whole truthy token |
| `Literals.TruthyTokensAreTrimmed` | update-db.py:67 | no truthy token is empty or has whitespace at an end |
| `Literals.ParseBoolAcceptsVariants` | update-db.py:124-128 | any capitalisation of a truthy token, padded with whitespace, parses as 1 |
| `Literals.DigitChar` | update-db.py:117 | a digit below ten becomes the decimal character of that value |
| `Literals.NatToDecimal` | update-db.py:117 | `str(n)` is a non-empty run of digits without a leading zero |
| `Literals.NatToDecimalRoundTrip` | update-db.py:116-117 | the digits of `str(n)` read back as `n` |
| `Literals.IsIntLiteral` | update-db.py:116 | when `int(s)` succeeds: an optional sign and one to 4300 ASCII digits; `Literals.ParseIntFits` and `Literals.NonNumericStaysQuoted` state what follows from it |
| `Literals.ParseInt` | update-db.py:116 | the value of `int(s)`; `Literals.IntToDecimalRoundTrip` and `Literals.ParseIntFits` tie it to `str()` |
| `Literals.IntToDecimal` | update-db.py:117 | `str(int_val)`, also `str(allow)` at line 195; `Literals.IntToDecimalRoundTrip`, `Literals.IntegerDecodes` and `InsertSql.AllowSlotIsBareBit` state its output |
| `Literals.IntToDecimalRoundTrip` | update-db.py:116-117 | for `n` of at most 4300 digits, `str(n)` is an integer literal and `int(str(n)) == n` |
| `Literals.DigitsValueLength` | update-db.py:116-117 | the value of a digit string has no more digits than the string |
| `Literals.ParseIntFits` | update-db.py:116-117 | whatever `int()` accepts converts back with `str()` within the 4300-digit limit |
| `Literals.EscapeQuotes` | update-db.py:121 | after `replace("'", "''")` every quote stands in a doubled pair |
| `Literals.EscapeRoundTrip` | update-db.py:121-122 | un-doubling the quotes recovers the text |
| `Literals.ToSqlLiteral` | update-db.py:104-122 | `to_sql_literal` on a string cell or None; what it renders is stated by `Literals.ToSqlLiteralDecodes` and `InsertSql.ReadSqlLiteral` |
| `Literals.TrimmedLiteral` | update-db.py:110-122 | `to_sql_literal` once the cell is stripped; stated by `Literals.TrimmedLiteralDecodes` |
| `Literals.ToSqlLiteralDecodes` | update-db.py:104-122 | None reads back as NULL; a blank cell as NULL with `numeric_as_null`, else as `''`; an integer cell with `numeric_as_null` as its integer; any other cell as its stripped text |
| `Literals.TrimmedLiteralDecodes` | update-db.py:110-122 | the same for a cell that is already stripped, branch by branch |
| `Literals.IntegerDecodes` | update-db.py:116-117 | the unquoted decimal form reads back as the integer |
| `Literals.QuotedDecodes` | update-db.py:121-122 | the quoted, quote-doubled form reads back as the text |
| `Literals.NonNumericStaysQuoted` | update-db.py:114-122 | with `numeric_as_null`, a non-blank cell that `int()` refuses (not an integer, or more than 4300 digits) stays a quoted string, not NULL |
| `Rows.ReadCsvRows` | update-db.py:130-151 | no header line gives the error; otherwise the rows kept from the records under the header mapping |
| `Rows.KeepRecords` | update-db.py:136-151 | the record loop appends the normalised form of each record that is not skipped, in order |
| `Rows.NormalizeRecord` | update-db.py:138-150 | one loop pass yields the normalised row, or nothing where the source `continue`s |
| `Rows.ProjectColumns` | update-db.py:138-141 | the column loop builds the row of the ten insert columns through the mapping |
| `Rows.ProjectedOntoExtend` | update-db.py:139-141 | each pass of the column loop adds that column's cell |
| `Rows.StripIdempotent` | update-db.py:143 | stripping twice is stripping once |
| `Rows.NormalizeRow` | update-db.py:138-150 | one record's outcome; stated by `Rows.NormalizeRowKeptIff`, `Rows.NormalizeRowShape` and `Rows.NormalizeRowTrimmed` |
| `Rows.NormalizeRowKeptIff` | update-db.py:143-146 | a record is kept iff its course and teacher cells are non-empty after trimming |
| `Rows.Project` | update-db.py:140-141 | one column's cell, `raw.get(src, "")` or `""` when unmapped; stated by `Rows.ProjectedRowCells`, `Rows.KeptCells` and `Rows.KeptUnmapped` |
| `Rows.Finish` | update-db.py:144-149 | the skip and the category default; stated by `Rows.FinishKeeps` and `Rows.NormalizeRowShape` |
| `Rows.FinishKeeps` | update-db.py:144-150 | a kept row is the row itself, or the row with the default category when its own is blank |
| `Rows.ProjectedRowCells` | update-db.py:139-143 | the trimmed row has exactly the ten columns, each its trimmed projected cell |
| `Rows.NormalizeRowShape` | update-db.py:137-151 | a kept row has exactly the ten columns, each trimmed from its mapped header or "" when unmapped, and a non-blank category, defaulted when blank |
| `Rows.KeptColumns` | update-db.py:139-149 | a kept row has exactly the ten insert columns |
| `Rows.KeptCells` | update-db.py:139-143 | each non-category cell of a kept row is its trimmed projected cell |
| `Rows.KeptUnmapped` | update-db.py:140-141 | an unmapped column is kept as "" |
| `Rows.FinishDomain` | update-db.py:144-149 | the checks add at most the category column |
| `Rows.FinishOthers` | update-db.py:144-149 | the checks change no cell but the category |
| `Rows.KeptCategory` | update-db.py:147-149 | the category of a kept row is its trimmed cell, or the default when that is blank, and is never blank |
| `Rows.NormalizeRowTrimmed` | update-db.py:142-149 | every cell of a kept row, the default category included, is unchanged by `strip()` |
| `Rows.CellTrimmed` | update-db.py:143 | one cell of a kept row is unchanged by `strip()` |
| `Rows.CategoryTrimmed` | update-db.py:147-149 | the kept category is unchanged by `strip()` |
| `Rows.DefaultCategoryTrimmed` | update-db.py:149 | the default category has no whitespace at its ends |
| `Rows.SomesInOrder` | update-db.py:150 | the j-th appended value comes from the j-th present position, and positions increase |
| `Rows.KeptRowsInOrder` | update-db.py:137-151 | kept rows are in record order, and a record is kept exactly when it is not skipped |
| `Rows.SomesOfNothing` | update-db.py:144-146 | when every record is skipped, nothing is appended |
| `Rows.MissingRequiredColumnKeepsNothing` | update-db.py:139-146 | without a header for the course or the teacher, no error is raised and every record is skipped |
| `Categories.Classify` | update-db.py:169-177 | one row's category and counted name; stated by `Categories.ClassifyCounting` and `Categories.ClassifyRespectsAllowed` |
| `Categories.Bump` | update-db.py:174 | the counted name's count goes up by one, starting from 0; the other counts are unchanged |
| `Categories.TotalRemove` | update-db.py:174 | the dict's total is one entry's count plus the total of the rest |
| `Categories.TotalBump` | update-db.py:174 | counting one more row adds one to the total |
| `Categories.BeforeTransitive` | update-db.py:178 | the report order is transitive |
| `Categories.BeforeTotal` | update-db.py:178 | entries with different names are ordered one way or the other |
| `Categories.Insert` | update-db.py:178 | inserting adds exactly that entry and its count |
| `Categories.InsertMembers` | update-db.py:178 | the entries after inserting are the old ones and the new one |
| `Categories.InsertSorted` | update-db.py:178 | inserting an entry with a new name keeps the report sorted |
| `Categories.PrependSorted` | update-db.py:178 | an entry before all others can lead a sorted report |
| `Categories.HeadBeforeInserted` | update-db.py:178 | the head of a sorted report precedes whatever is inserted behind it |
| `Categories.SortReport` | update-db.py:178 | the report lists every dict entry exactly once, sorted by count descending and then name, with the dict's total as its sum |
| `Categories.SortStep` | update-db.py:178 | one insertion keeps the sort's progress invariant |
| `Categories.MapCategories` | update-db.py:164-179 | each row's category is replaced by its verdict; the report is sorted, names each unknown category once with its count, holds every unknown name, and sums to the number of remapped rows |
| `Categories.RecategorizeStep` | update-db.py:168-177 | each loop pass rewrites the current row and leaves the later ones alone |
| `Categories.Recategorize` | update-db.py:169-177 | a row with its category set to the verdict; stated by `Categories.ClassifyRespectsAllowed` and `Categories.MapCategories` |
| `Categories.ClassifyRow` | update-db.py:169-177 | the loop body's branches give the row's verdict |
| `Categories.CountingStep` | update-db.py:173-174 | one more row advances the dict and the remap count by that row's verdict |
| `Categories.TotalUnknowns` | update-db.py:166-178 | the counts add up to the number of remapped rows |
| `Categories.UnknownsCount` | update-db.py:173-174 | a name's count is the number of rows remapped under it, and a name is present iff that number is positive |
| `Categories.ClassifyRespectsAllowed` | update-db.py:167-177 | with a non-empty allowed list, every row ends allowed or default; with an empty one, nothing is counted and non-blank categories are kept stripped |
| `Categories.ClassifyCounting` | update-db.py:169-177 | a blank category becomes the default uncounted; a row is counted iff its stripped category is non-blank and not allowed, under that name |
| `Categories.ReportNamesDistinct` | update-db.py:178 | a sorted report whose entries carry their dict counts names no category twice |
| `InsertSql.RowValues` | update-db.py:188-199 | a row renders to exactly ten values |
| `InsertSql.AllowSlotIsBareBit` | update-db.py:185 | the volunteer slot is a bare `0` or `1` |
| `InsertSql.TuplesSnoc` | update-db.py:184-200 | each loop pass appends the current row's tuple |
| `InsertSql.InsertStatement` | update-db.py:181-201 | the statement `generate_insert_sql` returns; stated by `InsertSql.InsertStatementReadsBack` |
| `InsertSql.GenerateInsertSql` | update-db.py:181-201 | the statement is the header, one tuple per row in order joined by `,\n`, and `;\n` |
| `InsertSql.DigitRun` | update-db.py:117 | the length of the leading run of digits |
| `InsertSql.ReadQuotedEscaped` | update-db.py:121-122 | the quote-doubled text, closed by a quote, reads back as the text |
| `InsertSql.EscapedCons` | update-db.py:121 | escaping splits after the first escaped character |
| `InsertSql.DigitRunOf` | update-db.py:117 | the digits of `str(n)` end where the delimiter starts |
| `InsertSql.ReadIntegerLiteral` | update-db.py:195 | `str(n)` before a delimiter reads back as `n` |
| `InsertSql.ReadUnsignedOrNegative` | update-db.py:117 | an unsigned or negative integer literal before a delimiter reads back as its value |
| `InsertSql.ReadNullLiteral` | update-db.py:107 | `NULL` before a delimiter reads back as NULL |
| `InsertSql.ReadTextLiteral` | update-db.py:121-122 | a quoted literal before a delimiter reads back as its text |
| `InsertSql.ReadSqlLiteral` | update-db.py:104-122 | `to_sql_literal` before a delimiter reads back as the value the cell is meant to store |
| `InsertSql.DecodersAgree` | update-db.py:104-122 | the statement reader and the single-literal decoder agree on every literal `to_sql_literal` renders |
| `InsertSql.ReadTrimmedLiteral` | update-db.py:110-122 | the same for a stripped cell |
| `InsertSql.RenderSlot` | update-db.py:188-199 | one entry of `vals`; stated by `InsertSql.ReadSlot` and `InsertSql.AllowSlotIsBareBit` |
| `InsertSql.ReadSlot` | update-db.py:188-199 | each rendered value of a row reads back as the value its slot stores |
| `InsertSql.ReadSlotWith` | update-db.py:188-199 | the same, for one delimiter |
| `InsertSql.ReadLastValue` | update-db.py:200 | the last value before `)` reads back as a one-value list |
| `InsertSql.ReadNextValue` | update-db.py:200 | a value before `, ` and a readable list reads back as the longer list |
| `InsertSql.ReadJoinedValues` | update-db.py:200 | values joined by `, ` and closed by `)` read back as their list |
| `InsertSql.ReadRenderedTuple` | update-db.py:200 | a rendered tuple reads back as the row's ten values |
| `InsertSql.TupleBody` | update-db.py:200 | a tuple is its values joined by `, ` between parentheses |
| `InsertSql.ReadTuple` | update-db.py:200-201 | a readable tuple is read and reading goes on after it |
| `InsertSql.ReadNextTuple` | update-db.py:201 | a tuple before `,\n` and more tuples reads back as the longer list |
| `InsertSql.ReadJoinedTuples` | update-db.py:200-201 | the tuples joined by `,\n` and closed by `;\n` read back as every row's values, in order |
| `InsertSql.TuplesCons` | update-db.py:184-200 | the first row's tuple comes first |
| `InsertSql.JoinedOne` | update-db.py:201 | a single tuple joins to itself |
| `InsertSql.JoinedCons` | update-db.py:201 | joining puts the separator after the first tuple |
| `InsertSql.InsertStatementReadsBack` | update-db.py:181-201 | the statement starts with the header and reads back as exactly one ten-value tuple per row, in row order |
| `InsertSql.SplitAfter` | update-db.py:201 | the header is followed by the tuples and `;\n` |
| `Seed.SpaceRun` | update-db.py:219 | a greedy `\s*`: the run is all whitespace and stops before a non-space or the end |
| `Seed.NextSemicolon` | update-db.py:219 | the lazy `[^;]+?` meets the first `;` |
| `Seed.AfterTable` | update-db.py:219 | from the table name on, a match's parts lie in order and its trailing whitespace is greedy |
| `Seed.TryTable` | update-db.py:219 | backtracking the second `\s+` tries each table position from the longest run down |
| `Seed.MatchAt` | update-db.py:218-221 | a match at a start ends after it, within the text, greedy |
| `Seed.AtInto` | update-db.py:219 | a match from `INTO` ends after it, greedy |
| `Seed.LeftmostMatch` | update-db.py:223 | the search returns a start where the matcher succeeds |
| `Seed.SearchInsert` | update-db.py:218-223 | `search` returns a start and the match the matcher makes there |
| `Seed.Splice` | update-db.py:227-234 | the text before the match unchanged, the new SQL, and the text after the match unchanged |
| `Seed.SpaceRunSpaces` | update-db.py:219 | the measured run is all whitespace |
| `Seed.NextSemicolonFirst` | update-db.py:219 | no `;` lies before the one found |
| `Seed.AfterTableSound` | update-db.py:219 | what `AfterTable` returns matches the tail of the pattern |
| `Seed.AfterTableParts` | update-db.py:219 | where `AfterTable` puts each part of its match |
| `Seed.TailFromParts` | update-db.py:219 | parts lying so match the tail of the pattern |
| `Seed.TryTableSound` | update-db.py:219 | what the backtracking returns matches the tail of the pattern |
| `Seed.MatchAtSound` | update-db.py:218-221 | every match the matcher returns is a match of the pattern |
| `Seed.MatchAtHead` | update-db.py:219 | up to `INTO`, a found match is as the pattern says |
| `Seed.AtIntoHead` | update-db.py:219 | from `INTO`, a found match is as the pattern says |
| `Seed.SpacesWithin` | update-db.py:219 | part of a whitespace stretch is whitespace |
| `Seed.SpaceRunExact` | update-db.py:219 | a whitespace stretch ending before a non-space is exactly the greedy run |
| `Seed.SpaceRunAtLeast` | update-db.py:219 | the greedy run covers every whitespace stretch |
| `Seed.CiKeepsNonSpace` | update-db.py:220 | a character matching a non-space ignoring case is not whitespace |
| `Seed.SemicolonAt` | update-db.py:219 | the first `;` is the one with none before it |
| `Seed.AfterTableFinds` | update-db.py:219 | if the tail of the pattern matches, `AfterTable` finds a match |
| `Seed.TryTableFinds` | update-db.py:219 | backtracking reaches any table position that works |
| `Seed.MatchAtFromParts` | update-db.py:218-221 | reachable parts make the matcher succeed |
| `Seed.AtIntoFromParts` | update-db.py:219 | from `INTO`, a workable table position makes the matcher succeed |
| `Seed.MatchAtComplete` | update-db.py:218-221 | wherever the pattern can match, the matcher finds a match |
| `Seed.Reachable` | update-db.py:219 | the scans of a pattern match reach its `INTO` and table name |
| `Seed.MatchUnique` | update-db.py:219 | for a table name not starting with whitespace, a greedy match at a start is unique |
| `Seed.TailUnique` | update-db.py:219 | two greedy tails from the same table position are the same |
| `Seed.RunEndUnique` | update-db.py:219 | a whitespace run ends in one place |
| `Seed.SemicolonUnique` | update-db.py:219 | the first `;` lies in one place |
| `Seed.IntoFound` | update-db.py:219 | the run after `INSERT` stops at `INTO` |
| `Seed.LeftmostMatchSkips` | update-db.py:223 | the search passes over no start that matches |
| `Seed.LeftmostMatchFinds` | update-db.py:223 | the first start that matches is the one the search returns |
| `Seed.Marker` | update-db.py:212 | the marker line `-- ******** {table} ********`; used by `Seed.FirstMarkerFound` and `Seed.ReplaceSeedBlockNoMarker` |
| `Seed.FirstMarkerFound` | update-db.py:212-213 | `find` returns the marker's first occurrence |
| `Seed.MessagesDiffer` | update-db.py:215 | the marker and INSERT error messages differ |
| `Seed.ReplaceSeedBlockNoMarker` | update-db.py:212-215 | the marker error is raised exactly when the marker occurs nowhere |
| `Seed.ReplaceSeedBlockNoInsert` | update-db.py:217-225 | with the marker first at `start`, the INSERT error is raised exactly when the pattern matches nowhere from there on |
| `Seed.SearchFindsLeftmost` | update-db.py:218-223 | the search returns the leftmost match |
| `Seed.MatchAtIs` | update-db.py:218-223 | a greedy match is the one the matcher returns at its start |
| `Seed.ReplaceAfter` | update-db.py:217-234 | the search after the marker and the splice; stated by `Seed.ReplaceSeedBlockNoInsert` and `Seed.ReplaceSeedBlockSplices` |
| `Seed.ReplaceSeedBlock` | update-db.py:203-234 | `replace_seed_block`; stated by `Seed.ReplaceSeedBlockNoMarker`, `Seed.ReplaceSeedBlockNoInsert` and `Seed.ReplaceSeedBlockSplices` |
| `Seed.ReplaceSeedBlockSplices` | update-db.py:203-234 | the result is the text before the first INSERT after the first marker (marker included) unchanged, the new SQL, then the text after the match and its trailing whitespace unchanged |
| `Seed.SpliceFound` | update-db.py:227-234 | a found marker and match give the splice |
| `Seed.MarkerFoundThenAfter` | update-db.py:222-223 | once the marker is found, the search after it decides |
| `Seed.SpliceMatchOk` | update-db.py:228-234 | a successful search leads to the splice |
| `App.TtlCache.constructor` | app.py:20 | the cache starts empty |
| `App.TtlCache.Get` | app.py:42-51 | an absent key gives None with the cache unchanged; an entry older than the lifetime is removed, gives None, and leaves other keys alone; a live entry gives its data with the cache unchanged |
| `App.TtlCache.Set` | app.py:54-55 | stores `(now, data)` under the key, replacing any old entry, and changes no other key |
| `App.Expired` | app.py:48 | `(now - ts) > CACHE_TTL_SECONDS`; stated by `App.LiveWindow` |
| `App.LiveWindow` | app.py:48 | data stored at `t` is live up to `t + 60` inclusive and expired after |
| `App.ExpiryKeepsOthers` | app.py:49 | removing an expired key keeps every other entry |
| `App.ResolveTab` | app.py:131-133 | the tab shown is always allowed: the trimmed, lower-cased request when allowed, otherwise "home" |
| `App.ApiTab` | app.py:147-149 | the API accepts exactly the allowed normalised tabs and aborts with 404 otherwise |
| `App.TabNamesTrimmed` | app.py:22-30 | no tab name is empty or has whitespace at an end |
| `App.NormalizeTab` | app.py:131 | `(tab or "").strip().lower()`, also at app.py:147; stated by `App.TabVariantsAccepted` and `App.BlankTabIsHome` |
| `App.TabVariantsAccepted` | app.py:131-133 | any capitalisation of a tab name, padded with whitespace, resolves to that tab on the page and in the API |
| `App.BlankTabIsHome` | app.py:131-133 | a missing or blank tab shows "home", and the API refuses it |
| `App.NoBlankTab` | app.py:22-31 | the empty string is not a tab |
| `App.ApiAgreesWithIndex` | app.py:145-149 | the API serves a tab exactly when the page shows that same tab |
| `App.TabChoicesAgree` | update-db.py:30-37 | each import choice's logical id is a web tab whose table is the choice's table |
| `App.GetTabsConfig` | app.py:84-94 | seven entries in fixed order, each with its id, its label from the settings and its icon |
| `App.TabLayoutAllowed` | app.py:84-94 | every menu id is an allowed tab, and "home" is first |
| `App.TabLayoutCovers` | app.py:84-94 | every allowed tab has a menu entry |
| `App.TabLayoutDistinct` | app.py:86-93 | no id appears twice in the menu |
| `App.IsTruthy` | app.py:114 | Python's `bool()` of a stored value: false for NULL, 0 and the empty string; stated for served rows by `App.WithAllowFlag` and `App.ConvertedFlags` |
| `App.WithAllowFlag` | app.py:114 | the flag becomes a boolean, true iff present and truthy; no other field changes |
| `App.ConvertRows` | app.py:110-116 | the loop converts every row, in query order |
| `App.Converted` | app.py:110-116 | as many rows are served as the query returned |
| `App.TabKey` | app.py:101 | `f"tab:{tab}"`; stated by `App.TabKeysDistinct` |
| `App.TabKeysDistinct` | app.py:101 | different tabs have different cache keys |
| `App.FetchRowsForTab` | app.py:97-118 | an unknown tab aborts with 404; a live cache entry is served unchanged; otherwise the converted query result is served and cached |
| `App.SecondFetchServesCache` | app.py:101-104 | within the lifetime, a second fetch serves what the first one stored |
| `App.ConvertedFlags` | app.py:114 | every served row's flag is a boolean, true iff the stored value is truthy |

## Left out

- Command-line parsing, the interactive tab prompt, console output and `main` (update-db.py:69-76, 253-321): console I/O. The "no data rows" exit in `main` is part of that.
- `backup_file`: a filesystem copy named by a wall-clock timestamp.
- The file side of `read_csv_rows` (opening, BOM decoding, `csv.DictReader`): library I/O. The input is a header list plus one header-to-cell map per record. A cell is None where the reader fills a short line.
- `get_allowed_categories`, `rebuild_db`, `preview_rows`: SQLite calls. The allowed-category list is a parameter of `map_categories`.
- Literals.ToSqlLiteral: the `int`/`float` branch is not modelled. Every cell reaching it in the source is a string or None.
- Literals.IsIntLiteral: `int()` also accepts underscores between digits and non-ASCII digits. The model accepts an optional sign and one to 4300 ASCII digits only. It keeps Python's default limit of 4300 digits for integer string conversion: a longer digit string makes `int()` raise ValueError, and the cell stays quoted.
- Strings.Lower: only ASCII letters are lower-cased. Python's `str.lower()` also folds other scripts, including U+212A KELVIN SIGN to `k`. So app.py:131 resolves `?tab=tas\u212As` to `tasks`, where `App.ResolveTab` gives `home`. Header matching and `parse_bool` are not affected: no header alias and no TRUTHY token contains a `k`. `re.IGNORECASE` likewise lets `\u017f` (long s), `\u0131` (dotless i) and the KELVIN SIGN match `s`, `i` and `k` in `INSERT INTO` and in the table name, which `Seed.SearchInsert` does not. The Hebrew names themselves have no case.
- Headers.HeaderMapping: each alias group is a Python set, whose iteration order is unspecified. The model uses the written order. The characterisation lemmas hold for every order, because they say only "some matching header".
- Seed.MatchUnique: requires the table name not to start with whitespace, as all six table names are identifiers. Seed.SearchFindsLeftmost and Seed.ReplaceSeedBlockSplices inherit that requirement. The soundness and error-case lemmas hold for any table name.
- Seed.SearchInsert: only the matching of the pattern is modelled, not `re.escape` of the table name. The name is compared literally, ignoring ASCII case.
- In app.py: the Flask application and its routes, `render_template`, `force_utf8_headers`, `_connect`, `fetch_settings` and the `/health` route are web and database plumbing. The database query is the function parameter `db`.
- App.TtlCache.Get and App.FetchRowsForTab: `time.time()` is a float clock read at the lookup and again at the store. It is modelled as two whole-second parameters, `now` and `storedAt`.
- App.IsTruthy: SQLite may also return floats and blobs. The model covers NULL, integers, text and booleans.
- The JSON encoding of the payload in `api_tab`, and the key order within a served row: a row is a map.
