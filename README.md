# freemed-server: patient search builder and table registry, in Dafny

This project models two parts of the freemed-server data-access layer.

**The patient endpoints** (`api/patient.go`).
- `PatientSearch` turns a JSON object of search criteria into three things:
  - a list `k` of SQL clauses;
  - a parallel list `v` of bound values;
  - an archive suffix.
- It then assembles the search query, capped at 20 rows.
- Each free-text criterion (`city`, `dmv`, `email`, `first_name`, `last_name`, `patient_id`, `ssn`, `zip`) with a non-empty string adds one fixed `LIKE` clause and binds its value.
- A non-zero numeric `age` adds a clause with the age written into the text.
- `archive: true` drops the default "not archived" filter.
- Every other criterion is ignored.
- `PatientEmrAttachments` and `PatientInformation` reject an empty patient id and otherwise choose a query and its arguments.

**The table registry** (`db.go`, `model_appttemplate.go`, `model_billkey.go`, `model/patient_ids.go`).
- At start-up, each record-type file appends a table definition to a package-level list.
- `model/patient_ids.go` also puts an entry into the EMR module map.
- `initDb` walks the list in order and registers each definition with the mapper. An empty key becomes `Id`, and the key is auto-incremented.

How the model is laid out:
- SQL text is a template (`SqlText`): literal pieces plus positional-parameter markers. `Render` gives the Go string, and `Params` counts the `?` markers.
- The criteria map is a sequence of `(name, value)` pairs. Because Go map order is unspecified, order-independence is proved as a lemma.
- Go's `fmt.Sprintf` with one `int` operand is modelled in `GoFmt`, because the search handler passes its whole query, clauses included, to `fmt.Sprintf` as the format.
- The search loop (`SearchFilter.BuildFilter`) and the bootstrap loop (`Db.InitDb`) are methods with loop invariants. Each is proved against a specification function (`Clauses`/`Bounds`/`Archive`, `Bootstrap`), and the lemmas are about those functions.
- The package-level lists and the module map are classes (`Db.TableRegistry`, `EmrModules.EmrModuleRegistry`). Their methods update a `seq` field or a `map` field.

Facts about the code that the model keeps:
- The search clauses are joined in the order the criteria are visited; they are not sorted.
- The `%` wildcards are part of the SQL text; the bound value is the bare search string.
- The age is written into the clause text with `%d` and is not bound.
- A request whose only criterion is `archive` is not rejected (see Findings).
- The query text is not the clauses followed by `LIMIT 20` whenever a free-text criterion is used (see Findings).
- Duplicate table names are not detected at bootstrap.

## Model

| member | source | states |
|---|---|---|
| `SearchFilter.TextColumn` | api/patient.go:175-213 | a free-text criterion's column is non-empty and has no `%`, so the column name itself passes through `fmt` unchanged |
| `SearchFilter.TextKeysExactly` | api/patient.go:175-213 | exactly the eight criteria `city`, `dmv`, `email`, `first_name`, `last_name`, `patient_id`, `ssn` and `zip` have a column |
| `SearchFilter.Archive` | api/patient.go:161-174 | the archive suffix after the loop is either the default `AND p.ptarchive = 0` filter or empty |
| `SearchFilter.Contribute` | api/patient.go:164-217 | `archive` = `true` is the only criterion that includes archived patients. A criterion adds a clause iff it is a free-text name with a non-empty string or `age` with a non-zero number. A free-text clause is the fixed `LIKE` clause of its column and binds exactly the criterion's value. The age clause binds nothing. A clause has one `?` iff it binds a value. |
| `SearchFilter.LikeClause` | api/patient.go:175-213 | a free-text clause has exactly one positional parameter |
| `SearchFilter.AgeClause` | api/patient.go:165-169 | the age clause has no positional parameter |
| `SearchFilter.BuildFilter` | api/patient.go:158-218 | The loop yields `Clauses`, `Bounds` and `Archive` of the criteria in the order visited. `\|k\|` is the number of usable criteria. The `?` count across `k` equals `\|v\|`, and `\|v\| <= \|k\|`. The suffix is `""` iff `archive` is `true`, otherwise `" AND p.ptarchive = 0 "`. |
| `SearchFilter.EntryEffect` | api/patient.go:162-218 | A usable free-text criterion appends its fixed clause to `k` and its value to `v` in lockstep. A usable age appends a clause and no value. Any other criterion changes neither list. Only `archive` = `true` changes the suffix. |
| `SearchFilter.ClauseCount` | api/patient.go:162-218 | the number of clauses equals the number of usable criteria |
| `SearchFilter.PlaceholdersMatchBindings` | api/patient.go:175-213 | the bound values fill the `?` markers across `k` one for one, and there are never more bound values than clauses |
| `SearchFilter.ArchiveSuffix` | api/patient.go:161-174 | the suffix is `""` exactly when some criterion is `archive` with boolean `true`; any other value keeps the default |
| `SearchFilter.BoundsAreTextValues` | api/patient.go:175-213 | every bound value is the non-empty string of some free-text criterion |
| `SearchFilter.TextValuesBound` | api/patient.go:175-213 | the value of every usable free-text criterion is bound |
| `SearchFilter.TextClauseIgnoresValue` | api/patient.go:175-213 | a free-text clause does not depend on the searched value and renders as `<column> LIKE '%' + ? + '%'` |
| `SearchFilter.AgeClauseDeterminesAge` | api/patient.go:165-169 | two ages with the same clause are equal: the clause text carries the age exactly |
| `SearchFilter.GatherPermutation` | api/patient.go:162-218 | permuting the criteria permutes everything gathered from them per entry |
| `SearchFilter.ContributionsProject` | api/patient.go:162-218 | the (clause, bound value) pairs carry both lists: `k` is their clauses in order, and `v` is their bound values, where present, in order |
| `SearchFilter.OrderIndependent` | api/patient.go:162-218 | any visiting order yields the same multiset of (clause, bound value) pairs, the same clause and value multisets, and the same archive suffix |
| `SearchFilter.LikeClauseText` | api/patient.go:175-213 | a free-text clause reads `<column> LIKE '%' + ? + '%'` |
| `SearchFilter.LikeClauseMarkers` | api/patient.go:175-213 | a free-text clause's text has exactly one `?`, and it is the clause's one parameter marker |
| `SearchFilter.AgeClauseMarkers` | api/patient.go:167 | the age clause's text has no `?` and the clause has no parameter marker |
| `SearchFilter.AgeClauseText` | api/patient.go:167 | an age clause reads `FLOOR( ( TO_DAYS(NOW()) - TO_DAYS(p.ptdob) ) / 365 ) = ` followed by the age in decimal |
| `PatientApi.AgeClauseSprintf` | api/patient.go:167 | `fmt.Sprintf` of the age format and the age is exactly the age clause's text |
| `Decimal.FormatInt` | api/patient.go:167 | The `%d` text is the shortest decimal numeral. It starts with `-` iff the number is negative, and only digits follow the sign. Its first digit is `0` only for zero, and zero is written `0`. |
| `Decimal.ParseFormat` | api/patient.go:167 | reading back the `%d` text of an integer gives that integer |
| `Decimal.FormatIntInjective` | api/patient.go:167 | distinct integers have distinct `%d` texts |
| `GoFmt.Scan` | api/patient.go:221 | Reading a format gives a result iff every directive is one the model covers. The operand counts as used afterwards iff it was used before or the format has a directive other than `%%`. Text without `%` is copied unchanged. |
| `GoFmt.Sprintf` | api/patient.go:221 | a result exists iff every directive is covered; a format without `%` is copied and the unused operand is reported as `%!(EXTRA int=...)` |
| `GoFmt.ScanDecimal` | api/patient.go:221 | `%d` writes the operand in decimal, or `%!d(MISSING)` once it is used up |
| `GoFmt.ScanQuote` | api/patient.go:221 | `%'` writes `%!'(int=<operand>)`, or `%!'(MISSING)` once the operand is used up, and it uses the operand |
| `GoFmt.SprintfTrailingDecimal` | api/patient.go:167 | text without `%` followed by `%d` formats as the text followed by the operand in decimal |
| `GoFmt.ScanConcat` | api/patient.go:221 | a complete piece followed by more format is read as the piece, then the rest from the operand state the piece leaves |
| `GoFmt.CompleteConcat` | api/patient.go:221 | two complete pieces make a complete piece, which uses the operand iff one of them does |
| `GoFmt.JoinComplete` | api/patient.go:221 | `strings.Join` of complete pieces with a separator without `%` is complete, and it uses the operand iff one part does |
| `SqlText.JoinParams` | api/patient.go:221 | joining clauses with `" AND "` adds no positional parameter |
| `SqlText.RenderJoin` | api/patient.go:221 | rendering a joined template is `strings.Join` of the rendered clauses |
| `SqlText.RenderJoinFirst` | api/patient.go:221 | text before a non-empty join is followed directly by the first clause |
| `SqlText.RenderEmptyJoin` | api/patient.go:221 | text around an empty join renders as the two texts side by side |
| `PatientApi.SearchQuery` | api/patient.go:221 | the search query consumes exactly as many arguments as its clauses |
| `PatientApi.LimitText` | api/patient.go:156-221 | the row cap 20 is written as `20` |
| `PatientApi.SearchQueryText` | api/patient.go:221 | The query text is, in order: the select and `WHERE`, then the clauses joined with `" AND "`, then `" AND pa.active = 1 "`, then the archive suffix, then `ORDER BY p.ptlname, p.ptfname, p.ptmname LIMIT 20`. |
| `PatientApi.WhereStartsWithClause` | api/patient.go:221 | with at least one clause, `WHERE` is followed directly by the first clause |
| `PatientApi.EmptyWhere` | api/patient.go:221 | with no clause, `WHERE` is followed directly by `" AND pa.active = 1 "` |
| `PatientApi.SearchFormat` | api/patient.go:221 | the format handed to `fmt.Sprintf` ends in `ORDER BY p.ptlname, p.ptfname, p.ptmname LIMIT %d` |
| `PatientApi.SearchFormatIntended` | api/patient.go:221 | the format and the intended query text agree on everything before the row cap, which the format writes as `%d` and the intended text as `20` |
| `PatientApi.SearchText` | api/patient.go:221 | The text `fmt.Sprintf` writes exists iff every directive of the format is covered. It is the intended query text when no clause has a `%` and the suffix is one the handler builds. |
| `PatientApi.LikeClauseScan` | api/patient.go:221 | Inside the format, a free-text clause is a complete piece that uses the operand. Its first `%'` writes the row cap as a bad verb, or `MISSING` when an earlier clause took it. Its second `%'` writes `MISSING`. |
| `PatientApi.ClausesFormat` | api/patient.go:162-221 | every built clause is a complete format piece; no value is bound iff no clause has a `%` iff no clause uses the operand |
| `PatientApi.SearchTextParts` | api/patient.go:221 | The text sent is the select and `WHERE`, then the clauses as `fmt` reads them, then the tail. The tail ends in `20`, or in `%!d(MISSING)` when a clause used the operand. Clauses without `%` are copied. |
| `PatientApi.SearchTextAsIntended` | api/patient.go:221 | For every request the text sent exists. It equals the intended query text iff no free-text criterion is used. Otherwise it ends in `... LIMIT %!d(MISSING)`. |
| `PatientApi.TextSearchMangled` | api/patient.go:221 | For one free-text criterion such as `{"city": "Paris"}`, the intended text reads `pa.city LIKE '%' + ? + '%' ... LIMIT 20`. The text sent reads `pa.city LIKE '%!'(int=20) + ? + '%!'(MISSING) ... LIMIT %!d(MISSING)`. |
| `PatientApi.PatientSearch` | api/patient.go:142-224 | A body that fails to decode gets 400 and no query. An empty criteria object gets 400, and its query is still run. Otherwise the `fmt.Sprintf` text of the built clauses and suffix is run with the bound values. That text is the intended query, with one argument per `?`, when no free-text criterion is used. Otherwise it ends in `LIMIT %!d(MISSING)`. |
| `PatientApi.PatientSearchFixed` | api/patient.go:151-221 | A request with no usable criterion gets 400 and runs no query. The clauses are joined into the query text as they are, with `LIMIT 20` written separately. Every query that runs has a clause right after `WHERE` and one argument per `?`. |
| `PatientApi.EmptyCriteriaStillQueries` | api/patient.go:151-221 | for `{}` the query text sent reads `WHERE  AND pa.active = 1 ...` |
| `PatientApi.ArchiveOnlyQueriesEmptyWhere` | api/patient.go:151-221 | `{"archive": true}` builds no clause, drops the archive filter, and sends a query text reading `WHERE  AND pa.active = 1  ORDER BY ...` |
| `PatientApi.PatientEmrAttachments` | api/patient.go:41-59 | An empty id gets 400 before any query. Otherwise the id is the first argument. The id is the only argument iff the module is empty, else the arguments are `[id, module]`. Either way there is one argument per `?`. |
| `PatientApi.PatientInformation` | api/patient.go:90-122 | an empty id gets 400 before any query; otherwise both `?` of the query are filled with the id |
| `Db.Mapping` | db.go:40-45 | the registered key is never empty: a non-empty key is kept and an empty key becomes `Id` |
| `Db.Bootstrap` | db.go:39-46 | one registration per table definition |
| `Db.TableRegistry.constructor` | db.go:18 | the table list starts empty |
| `Db.TableRegistry.Append` | model_appttemplate.go:16 | appending adds exactly one definition at the end and keeps the others; the same append is at model_billkey.go:19 and model/patient_ids.go:25-29 |
| `Db.InitDb` | db.go:27-54 | A failed open stops the program before any registration. A failed table creation stops it after. Otherwise the result is the registrations of the list, one per definition, in order. The list is only read. |
| `Db.BootstrapAt` | db.go:39-46 | the i-th registration carries the i-th definition's table name and record type unchanged, its resolved key, and auto-increment on |
| `Db.BootstrapAppend` | db.go:39-46 | a definition appended later is registered last, and the earlier registrations are unchanged |
| `Db.BootstrapKeys` | db.go:40-43 | every registered key is the definition's key, or `Id` when that key is empty |
| `Db.DuplicatesRegistered` | db.go:39-46 | two definitions with the same table name are both registered, each at its own position |
| `EmrModules.EmrModuleRegistry.Put` | model/patient_ids.go:30-33 | the map gains, or has overwritten, exactly the given key, and every other key keeps its entry |
| `PatientIds.Init` | model/patient_ids.go:24-34 | One `patient_ids` definition keyed by `Id` is appended to the table list. The map entry under `""` becomes the module named `""`, and nothing else changes. |
| `PatientIds.TableRegistration` | model/patient_ids.go:25-29 | the list grows by one, earlier definitions stay in place, and the new one is `patient_ids` keyed by `Id` |
| `PatientIds.PatientIdBootstrap` | model/patient_ids.go:25-29 | once walked, the definition is registered last with key `Id` as written |
| `PatientIds.ModuleRegistration` | model/patient_ids.go:30-33 | the `""` entry exists, is named `""` and holds `PatientIdModel`; every other key keeps its entry |
| `ApptTemplate.Init` | model_appttemplate.go:15-17 | exactly one `appttemplate` definition keyed by `Id` is appended, and earlier definitions are kept |
| `ApptTemplate.ApptTemplateBootstrap` | model_appttemplate.go:16 | the definition is registered last, keyed by `Id` as written, so the default is not used, and earlier registrations are unchanged |
| `Billkey.Init` | model_billkey.go:18-20 | exactly one `billkey` definition keyed by `Id` is appended, and earlier definitions are kept |
| `Billkey.BillkeyBootstrap` | model_billkey.go:19 | the definition is registered last, keyed by `Id` as written, so the default is not used, and earlier registrations are unchanged |
| `Startup.StartMain` | db.go:18-54 | Starting from an empty list, the two table files append in file-name order. The bootstrap then registers `appttemplate` and then `billkey`, both keyed by `Id` and auto-incremented, unless opening or table creation fails. |

## Left out

- The gin HTTP layer is not modelled: JSON binding, `Abort*`, JSON responses and route registration. A request body is an optional decoded criteria list, where "absent" means binding failed. Route parameters are plain strings.
- Running queries is not modelled: `DbMap.Select`/`SelectOne`, their rows and the 500 answer on a query error. Each handler ends with the query and arguments it would run.
- The meaning of the SQL text is not modelled. Clause and query text are literal pieces around parameter markers.
- `SearchFilter.Value`: JSON numbers are `float64` in the source. Here `age` is an unbounded integer. The model leaves out the `float64` to `int64` truncation of a non-integral age (0.5 passes the non-zero check and is written as `0`) and `int64` overflow.
- Go maps have distinct keys and no order. The model takes any sequence of pairs, and its properties hold for any order and for repeated names.
- `Db.InitDb` covers `sql.Open`, the gorp dialect and `CreateTablesIfNotExists` only through their failure flags. What gorp does with the registrations is not modelled; for example, it replaces an earlier mapping of the same Go type. The model returns the registrations in the order they are made.
- `Db.RecordType`: a record type is an opaque Go type name. The record structs and the serialisation tags of the result structs are not modelled.
- The `common` package is not part of this model. `EmrModuleType` has the two fields that `model/patient_ids.go:30-33` sets.
- The code that walks the model package's own `DbTables` list is not part of this model. `PatientIds.PatientIdBootstrap` states what a bootstrap of that list would register. The main package's `initDb` walks only its own list.
- `PatientApi.SearchFrom` uses the table names `patient` and `patient_address` for `model.TABLE_PATIENT` and `model.TABLE_PATIENT_ADDRESS`. Those constants are defined in files that are not part of this model. The names are the ones the information query uses.
- `Startup.StartMain` assumes the two table files of this model are the only `init` functions of the main package that append to the list.
- `GoFmt.Sprintf`: the model covers one integer operand and the directives `%%`, `%d` and `%v`. The bad-verb and `EXTRA` reports name the operand's type as `int`, which is the row cap's type. The age operand is an `int64`, but its format has only `%d`, which does not write the type. It also covers the verbs that cannot print an integer, except `%T` and `%w`. Flags, widths, precisions, argument indexes, the other integer verbs (`%x`, `%c`, ...), `%T` (which writes the operand's type) and `%w` give no result. None of them occurs in the search format.
- `PatientApi.PatientSearch`: when a free-text criterion is used, the text sent is not proved to have one `?` per bound value. That text is not valid SQL anyway (see Findings).
- Logging is left out.
- `ui/js/app.js` is left out because it is page set-up with no logic to model.

## Findings

| source | as written | input that shows it | evidently intended | confidence | as-written member | corrected member |
|---|---|---|---|---|---|---|
| api/patient.go:151-154 | an empty criteria object sets "400 Bad Request" but the handler does not return; it goes on to build and run a query whose `WHERE` is followed directly by `AND` | `{}` | return after the abort; no query is run | high; not executed | `PatientApi.PatientSearch`, `PatientApi.EmptyCriteriaStillQueries` | `PatientApi.PatientSearchFixed` |
| api/patient.go:151-221 | the check counts criteria, not usable ones. With no usable criterion, the query reads `WHERE  AND pa.active = 1 ...`, which is not valid SQL. The log message says "no usable search parameters found". | `{"archive": true}` | reject the request when no clause was built | medium; not executed | `PatientApi.PatientSearch`, `PatientApi.ArchiveOnlyQueriesEmptyWhere` | `PatientApi.PatientSearchFixed` |
| api/patient.go:221 | The joined clauses are part of the format string given to `fmt.Sprintf`. `fmt` reads each `%'` of a `LIKE` wildcard as a directive, and the first one takes the row cap. The query text becomes `pa.city LIKE '%!'(int=20) + ? + '%!'(MISSING) ... LIMIT %!d(MISSING)`: the wildcards and the row cap are lost, and the SQL is malformed. | `{"city": "Paris"}` | the clauses copied unchanged, followed by `LIMIT 20` | high; not executed | `PatientApi.PatientSearch`, `PatientApi.TextSearchMangled`, `PatientApi.SearchTextAsIntended` | `PatientApi.PatientSearchFixed` |
