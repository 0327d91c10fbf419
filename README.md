# SQuery: the statement builder and the parameter binding

SQuery is a small SQLite helper for Unity. Its core is `TableQuery`, a builder
object whose methods change its fields in place. The builder holds:

- the WHERE text and its arguments;
- ORDER BY, GROUP BY, LIMIT/offset and DISTINCT;
- a column/value map;
- a list of key columns.

From that state it renders INSERT, UPDATE, DELETE, SELECT and count statements
that use `@name` placeholders. It hands each statement to the driver with a
positional argument list. The driver side (`SQuery.CreateCommand`) scans the
text for `@name` placeholders (`ExtractParamers`). It then binds the i-th
distinct name to the i-th argument.

This project models that core and proves what the rendering and binding
promise:

- every statement binds each generated placeholder to the value it belongs to;
- the key-derived WHERE has the shape the code produces;
- `InsertOrUpdate` issues the insert first and the update exactly on fallback;
- the LIMIT clause carries back what `Limit` stored.

The model has one module per concern:

- `Text`: joining with a separator, and decimal rendering and parsing.
- `Types`: argument values, statements, commands, errors and driver outcomes.
- `Placeholders`: the `ExtractParamers` scanner. It comes as a state machine, as
  the method with the source's loop, and as an independent token-level reading
  proved equal to it. Composition lemmas cover text assembled from pieces.
- `Binding`: the binding loop of `CreateCommand`, as a method proved against a
  `Bind` function. `ExecuteNonQuery` runs over an abstract driver.
- `LikeEscape`: `EscapeLikeSpecialChrs`, as the source's nested loop proved
  against a function. A reading of LIKE patterns states what the escaping
  achieves.
- `Render`: the text each renderer produces, as pure functions.
- `UpsertPolicy`: the key-derived WHERE and the insert-then-update policy.
- `TableQueries`: the class `TableQuery`. Its fields are changed in place by its
  methods. Each renderer is a method with the source's loop, proved to produce
  the `Render` function's text.
- `Alignment`: the names each rendered statement yields when scanned, and how
  they bind.

The database is a parameter `driver: Driver`. It says whether `Open()`
succeeds, and what the driver answers to each prepared command: a row count or
a SqliteException. `ExecuteNonQuery` opens the connection before it binds, as
the source does, so a failed open is a SqliteException even for a statement
that would not bind. The C# dictionary becomes `Entries`, a sequence of
(column, value) pairs in enumeration order. `ISQueryRow`
arguments become the entries that its `ToValues()` returns.

## Model

| member | source | states |
|---|---|---|
| Placeholders.ExtractParameters | Assets/SQuery/SQuery.cs:37-64 | the character loop with the `inTag` flag and name buffer returns exactly `Extract(queryStr)` |
| Placeholders.ExtractIsOutside | Assets/SQuery/SQuery.cs:37-64 | the scanner equals an independent token reading on every input: skip to '@', read the longest name run, '@' restarts the name, a name still open at the end of input is dropped |
| Placeholders.ExtractNamesWellFormed | Assets/SQuery/SQuery.cs:49-57 | every extracted name is non-empty and made only of characters in 'A'..'z', '_' or '0'..'9' |
| Placeholders.NoTagNoNames | Assets/SQuery/SQuery.cs:42-47 | a text without '@' yields no names |
| Placeholders.TagQuirks | Assets/SQuery/SQuery.cs:43-46 | an '@' inside a tag discards the partial name (`@a@b ` yields `b`), and a name at the very end of the text is not emitted |
| Placeholders.RangeQuirk | Assets/SQuery/SQuery.cs:50 | the range 'A'..'z' also admits '[' and ']', so `@a[1] ` yields `a[1]` |
| Placeholders.TwoPlaceholders | Assets/SQuery/SQuery.cs:37-64 | `a=@x AND b=@y;` yields `x` then `y` |
| Placeholders.ScanAppend | Assets/SQuery/SQuery.cs:42-61 | scanning a concatenation is scanning its halves in turn |
| Placeholders.ScanTerminated | Assets/SQuery/SQuery.cs:53-58 | a text followed by a non-name character yields its names plus the name it leaves open |
| Placeholders.ScanTaggedList | Assets/SQuery/SQuery.cs:42-61 | a separator-joined list of `pre@name` items, each `pre` free of '@', yields the item names in order |
| Binding.BindParameters | Assets/SQuery/SQuery.cs:103-115 | the binding loop returns `Bind(names, args)`; it fails with IndexOutOfRange exactly when there are more distinct names than arguments |
| Binding.BindRepeated | Assets/SQuery/SQuery.cs:106 | a name already bound consumes no argument |
| Binding.BindFresh | Assets/SQuery/SQuery.cs:106-111 | a new name takes the next unused argument, or fails when none is left |
| Binding.CreateCommand | Assets/SQuery/SQuery.cs:66-118 | the prepared command keeps the raw text and carries `Bind(Extract(text), args)` |
| Binding.CommandParameters | Assets/SQuery/SQuery.cs:103-115 | a prepared command names each placeholder of its text exactly once, and names nothing else |
| Binding.DedupMembers | Assets/SQuery/SQuery.cs:105-106 | the bound names are exactly the names that occur |
| Binding.DedupDistinct | Assets/SQuery/SQuery.cs:106 | no name is bound twice |
| Binding.ExecuteNonQuery | Assets/SQuery/SQuery.cs:120-127 | the connection is opened first: a failed open fails with DriverFailure whatever the statement; IndexOutOfRange comes exactly when the connection opens and the text has more distinct placeholders than arguments; a row count comes only from the driver's answer to the bound command |
| Binding.BoundExecutes | Assets/SQuery/SQuery.cs:120-127 | once the command binds, ExecuteNonQuery can fail only with DriverFailure (a failed open or a SqliteException) |
| LikeEscape.EscapeLikeSpecialChrs | Assets/SQuery/SQuery.cs:233-249 | the nested loop over the characters and the Targets returns `Escaped(source, escapeChar)` |
| LikeEscape.EscapedAppend | Assets/SQuery/SQuery.cs:237-246 | escaping works character by character over a concatenation |
| LikeEscape.EscapedLength | Assets/SQuery/SQuery.cs:237-246 | exactly one escape character is added per '%' or '_' |
| LikeEscape.EscapedReadsLiterally | Assets/SQuery/SQuery.cs:233-249 | for a literal without the escape character, the escaped text read as a LIKE ... ESCAPE pattern matches exactly that literal |
| LikeEscape.EscapeCharLeftBare | Assets/SQuery/SQuery.cs:235-243 | the escape character is not escaped: `\%` becomes `\\%`, whose '%' reads as a wildcard again |
| LikeEscape.EscapedWithEscapeCharReadsLiterally | Assets/SQuery/SQuery.cs:233-249 | the corrected escaping, which also escapes the escape character, reads back as the literal for every input |
| LikeEscape.EscapingsAgree | Assets/SQuery/SQuery.cs:233-249 | the corrected escaping and the source's agree on every literal without the escape character |
| Render.KeyPositionsExact | Assets/SQuery/SQuery.cs:583-592 | the key positions are exactly the indices of entries whose column is a key, increasing |
| Render.NonKeyEntriesMembers | Assets/SQuery/SQuery.cs:425-426 | the SET list holds exactly the entries whose column is not a key, and nothing else |
| Render.LimitClauseReadsBack | Assets/SQuery/SQuery.cs:522-528 | for a positive count, the text after " LIMIT " reads back as the stored offset (0 when not positive) and count |
| Render.LimitOffsetFirst | Assets/SQuery/SQuery.cs:522-528 | Limit(10, 20) renders as ` LIMIT 20,10`, offset first |
| Render.OrderByAccumulates | Assets/SQuery/SQuery.cs:324-331 | OrderBy calls started from an empty clause build the comma-joined list of their terms, in call order |
| Render.WhereAndChain | Assets/SQuery/SQuery.cs:307-317 | WhereAnd calls on an empty WHERE give `(c1) AND (c2) ...`, each call's arguments following those of the calls before it |
| UpsertPolicy.UpsertNeedWhere | Assets/SQuery/SQuery.cs:450-472 | "need WHERE" is raised exactly when there are no values or no WHERE can be derived, and then nothing is executed |
| UpsertPolicy.UpsertWithoutKeysOrWhere | Assets/SQuery/SQuery.cs:453-469 | with neither a WHERE nor key columns, InsertOrUpdate always fails with "need WHERE" |
| UpsertPolicy.UpsertRunsUpdateOnlyOnFallback | Assets/SQuery/SQuery.cs:454-466 | the insert runs first; the update runs at most once, exactly when the insert raised a SqliteException or counted below 1; the result comes from the statement that ran last |
| UpsertPolicy.ExecuteNeverNeedsWhere | Assets/SQuery/SQuery.cs:120-127 | execution never reports the "need WHERE" failure, so that failure comes only from the precondition check |
| UpsertPolicy.KeyWhereEmpty | Assets/SQuery/SQuery.cs:583-594 | the derived WHERE is empty exactly when no value's column is a key |
| TableQueries.TableQuery.constructor | Assets/SQuery/SQuery.cs:253-277 | a new builder has an empty WHERE, map, ORDER BY, GROUP BY and key list, limit and offset 0, and DISTINCT off |
| TableQueries.TableQuery.Reset | Assets/SQuery/SQuery.cs:279-290 | every part of the statement is emptied except the key columns, which are kept |
| TableQueries.TableQuery.Keys | Assets/SQuery/SQuery.cs:292-296 | the key list is replaced |
| TableQueries.TableQuery.Where | Assets/SQuery/SQuery.cs:298-306 | the WHERE text and arguments are replaced |
| TableQueries.TableQuery.WhereAnd | Assets/SQuery/SQuery.cs:308-317 | on an empty WHERE it is Where("(c)", args); otherwise " AND (c)" is appended and the arguments follow the old ones |
| TableQueries.TableQuery.Values | Assets/SQuery/SQuery.cs:319-322 | the map is replaced |
| TableQueries.TableQuery.OrderBy | Assets/SQuery/SQuery.cs:324-331 | a `field ASC` or `field DESC` term is appended, after ", " when the clause is not empty |
| TableQueries.TableQuery.SetOrderBy | Assets/SQuery/SQuery.cs:333-337 | the ORDER BY clause is replaced |
| TableQueries.TableQuery.GroupBy | Assets/SQuery/SQuery.cs:339-342 | the GROUP BY text is replaced |
| TableQueries.TableQuery.Limit | Assets/SQuery/SQuery.cs:344-348 | the count and offset are stored |
| TableQueries.TableQuery.Distinct | Assets/SQuery/SQuery.cs:350-353 | DISTINCT is switched on |
| TableQueries.TableQuery.InsertValues | Assets/SQuery/SQuery.cs:355-370 | the loop renders `INSERT INTO t VALUES(@insArg1, ...);`, one placeholder per value; the values are the arguments |
| TableQueries.TableQuery.Insert | Assets/SQuery/SQuery.cs:377-406 | the loop renders the column list and the placeholder list in map order; the map's values are the arguments |
| TableQueries.TableQuery.Update | Assets/SQuery/SQuery.cs:418-443 | SET for the non-key columns, numbered upArg1...; their values, then the WHERE arguments only when there is a WHERE text |
| TableQueries.TableQuery.SetClause | Assets/SQuery/SQuery.cs:420-432 | the SET loop skips key columns and numbers the others from 1 |
| TableQueries.TableQuery.AppendWhereArgs | Assets/SQuery/SQuery.cs:436-438 | the WHERE arguments are copied after the SET values, in order |
| TableQueries.TableQuery.Delete | Assets/SQuery/SQuery.cs:474-485 | `DELETE FROM t[ WHERE w];`, with the WHERE arguments passed whether or not there is a WHERE text |
| TableQueries.TableQuery.CreateSelectQuery | Assets/SQuery/SQuery.cs:487-532 | the clauses in their fixed order: DISTINCT, projection (`*` when no columns, `count(...)` when counting), FROM, WHERE, GROUP BY, ORDER BY, LIMIT [offset,]count, then ';' |
| TableQueries.TableQuery.AppendLimit | Assets/SQuery/SQuery.cs:522-528 | LIMIT only for a positive count, with the offset first only when positive |
| TableQueries.TableQuery.Select | Assets/SQuery/SQuery.cs:534-537 | the select query goes to the driver with the WHERE arguments |
| TableQueries.TableQuery.Count | Assets/SQuery/SQuery.cs:639-642 | the count query goes to the driver with no arguments at all |
| TableQueries.TableQuery.SelectOne | Assets/SQuery/SQuery.cs:602-605 | Limit(1), which also sets the offset to 0, then the select query |
| TableQueries.TableQuery.SetWhereForCheckKey | Assets/SQuery/SQuery.cs:574-595 | with key columns and no WHERE text, the WHERE becomes `k=@kcArgI` joined by " AND " over the key entries, I being the entry's position among all entries, with the key values as arguments; otherwise nothing changes |
| TableQueries.TableQuery.KeyConditionLoop | Assets/SQuery/SQuery.cs:580-592 | the loop builds exactly the key conditions and their arguments |
| TableQueries.TableQuery.GetColumnsAndSetWhereForCheckKey | Assets/SQuery/SQuery.cs:543-572 | a fresh array of the columns in map order; the WHERE is derived as by SetWhereForCheckKey when enabled, and is untouched otherwise |
| TableQueries.TableQuery.GetColumnsFromCreator | Assets/SQuery/SQuery.cs:539-541 | the columns only; the WHERE is untouched |
| TableQueries.TableQuery.SelectOneOf | Assets/SQuery/SQuery.cs:597-600 | the row's columns and the derived WHERE, which stays in the builder, then SelectOne |
| TableQueries.TableQuery.SelectOf | Assets/SQuery/SQuery.cs:617-620 | the row's columns and the derived WHERE, which stays in the builder, then Select |
| TableQueries.TableQuery.InsertRow | Assets/SQuery/SQuery.cs:372-375 | the row's values replace the map, then Insert() |
| TableQueries.TableQuery.UpdateRow | Assets/SQuery/SQuery.cs:412-416 | the row's values replace the map, the WHERE is derived from the keys, then Update() |
| TableQueries.TableQuery.InsertOrUpdate | Assets/SQuery/SQuery.cs:450-472 | the WHERE is derived, and the result and the statements issued, in order, are those of the `Upsert` policy |
| TableQueries.TableQuery.InsertOrUpdateRow | Assets/SQuery/SQuery.cs:445-448 | the row's values replace the map, then InsertOrUpdate() |
| TableQueries.AppendJoined | Assets/SQuery/SQuery.cs:499-504 | the `first`-flag loop appends the parts with the separator before all but the first |
| Alignment.ExtractInsert | Assets/SQuery/SQuery.cs:377-406 | the INSERT text yields insArg1..insArgN, one per value, when the table and column names hold no '@' |
| Alignment.ExtractInsertValues | Assets/SQuery/SQuery.cs:355-370 | the INSERT ... VALUES text yields insArg1..insArgN |
| Alignment.ExtractUpdate | Assets/SQuery/SQuery.cs:418-443 | the UPDATE text yields upArg1..upArgM for the M non-key columns, then the WHERE text's names |
| Alignment.ExtractDelete | Assets/SQuery/SQuery.cs:474-485 | the DELETE text yields the WHERE text's names |
| Alignment.ExtractSelect | Assets/SQuery/SQuery.cs:487-532 | the SELECT or count text yields the WHERE text's names |
| Alignment.KeyWhereNames | Assets/SQuery/SQuery.cs:583-592 | the derived WHERE yields kcArgP for each key position P |
| Alignment.InsertNamesDistinct | Assets/SQuery/SQuery.cs:396 | the generated insert names are pairwise distinct |
| Alignment.KeyNamesAreNotUpdateNames | Assets/SQuery/SQuery.cs:430 | no kcArg name coincides with an upArg name |
| Alignment.InsertBinds | Assets/SQuery/SQuery.cs:377-406 | Insert's command binds, and the i-th column's value is bound to insArg(i+1) |
| Alignment.InsertValuesBinds | Assets/SQuery/SQuery.cs:355-370 | Insert(params)'s command binds, and the i-th value is bound to insArg(i+1) |
| Alignment.UpdateBinds | Assets/SQuery/SQuery.cs:418-443 | when the WHERE names no upArg name, upArgK is bound to the K-th non-key value and the WHERE names are bound to the WHERE arguments as they would be on their own |
| Alignment.UpArgOneClosed | Assets/SQuery/SQuery.cs:37-64 | the WHERE fragment `x=@upArg1` names upArg1 once anything that cannot continue a name follows it |
| Alignment.UpdateWhereCapturesSetName | Assets/SQuery/SQuery.cs:418-443 | a caller's WHERE that names upArg1 is bound to the first SET value, and the WHERE's own arguments are left unbound |
| Alignment.DeleteBinds | Assets/SQuery/SQuery.cs:474-485 | the WHERE names are bound to the WHERE arguments |
| Alignment.SelectBinds | Assets/SQuery/SQuery.cs:534-537 | the WHERE names are bound to the WHERE arguments |
| Alignment.KeyUpdateBinds | Assets/SQuery/SQuery.cs:418-443 | the update on the key-derived WHERE binds |
| Alignment.KeyWhereBinds | Assets/SQuery/SQuery.cs:574-595 | the derived WHERE binds, and kcArgP is bound to the value of the key entry at position P |
| Alignment.UpsertOnKeysBinds | Assets/SQuery/SQuery.cs:445-472 | InsertOrUpdate with keys and no WHERE never runs out of arguments; when some value's column is a key, its only possible failure is DriverFailure; when none is, it fails with "need WHERE" |
| Alignment.CountShortOfArguments | Assets/SQuery/SQuery.cs:639-642 | as written, Count fails with IndexOutOfRange whenever its WHERE text names a placeholder |
| Alignment.CountWithWhereExample | Assets/SQuery/SQuery.cs:639-642 | on `WHERE id=@id` with argument 1, Count fails while Select binds id to 1 |
| Alignment.CountBindsLikeSelect | Assets/SQuery/SQuery.cs:534-537 | with the WHERE arguments passed, the count query binds exactly as the select query on the same state |
| Text.ParseNatToString | Assets/SQuery/SQuery.cs:365 | the decimal rendering of a number reads back as that number |
| Text.NatToStringInjective | Assets/SQuery/SQuery.cs:365 | distinct numbers render differently, so the generated names are distinct |

## Left out

- Connections, `ExecuteScalar`, `ExecuteQuery` and `QueryResult` are left out: they are driver plumbing. `Open` is modelled only by whether it succeeds. The driver answers a prepared command with a row count or a SqliteException.
- `Open` succeeds or fails the same way for every statement that one `Driver` runs. So when the insert in `InsertOrUpdate` cannot open, the model's update cannot open either. A database that becomes reachable between the two calls is not modelled.
- `TableQueries.TableQuery.Select`: modelled as the statement handed to `ExecuteQuery`; the cursor it returns is not modelled.
- `TableQueries.TableQuery.Count`: modelled as the statement handed to `ExecuteScalar`; the scalar's conversion to an int is not modelled.
- Reading rows back (`ParseFromDB`, the cursor loops of `SelectOne<T>` and `Select<T>`) is left out. The model keeps the statement those methods hand to the driver, and the WHERE they leave behind.
- `CopyFromStreamingAssets`, the schema version calls and the date helpers are left out: they are file system and formatting code outside the builder.
- Logging (`Debug.Log`) is left out, because it has no effect on results.
- `FastString` is modelled as an immutable string that the methods re-assign.
- The dictionary is modelled as a sequence of entries in enumeration order. `Dictionary` order is insertion order only in practice. The model does not require the distinct keys a dictionary has: every property holds for any sequence of entries.
- `Values` stores the caller's dictionary itself, so later changes to it show through. The model stores a copy, so aliasing is not modelled.
- Null dictionaries, null column arrays and null keys are not modelled: the model's sequences are never null.
- `SqliteParameterCollection.Contains` is modelled as exact string equality. The real driver may compare names without regard to case.
- Floating-point and date arguments cannot be represented: `Value` has only null, integer, text, boolean and blob cases.
- An argument is a single value. The driver's type mapping of values to parameters is not modelled.
- `InsertOrUpdate` catches only a SqliteException. Other driver exceptions are not distinguished: every driver failure is one `DriverFailure`.
- Table names, column names, GROUP BY and ORDER BY texts are assumed free of '@' in the alignment lemmas. A name with '@' would add placeholders of its own.
- The INSERT text follows the code, `INSERT INTO t(a, b) VALUES(...)`, with no space before the column list.

## Findings

| source | as written | input that shows it | evidently intended | confidence | as-written member | corrected member |
|---|---|---|---|---|---|---|
| Assets/SQuery/SQuery.cs:639-642 | Count renders the WHERE text but calls ExecuteScalar with no arguments | Where("id=@id", 1), then Count(): once the connection opens, binding the placeholder `id` finds no argument (IndexOutOfRange) | pass the WHERE arguments, as Select does | not executed | Alignment.CountWithWhereExample | Alignment.CountBindsLikeSelect |
| Assets/SQuery/SQuery.cs:233-249 | only '%' and '_' are escaped, not the escape character itself | the literal `\%` with escape character `\` becomes `\\%`, where `\\` reads as a literal backslash and `%` as a wildcard | also escape the escape character | not executed | LikeEscape.EscapeCharLeftBare | LikeEscape.EscapedWithEscapeCharReadsLiterally |
