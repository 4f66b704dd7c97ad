/**
 * The patient endpoints: search, attachment listing and patient information.
 *
 * Each handler is modelled up to the point where it hands a query and its
 * positional arguments to the database: the outcome says whether the request was
 * answered with "400 Bad Request" and which query, if any, is run with which
 * arguments. Running the query, and the "500" it may cause, are outside the model.
 */
module PatientApi {

  import opened Options
  import opened SqlText
  import opened Decimal
  import opened SearchFilter
  import opened GoFmt

  // ----- search -----

  /** The row cap of a search. */
  const SearchLimit := 20

  /** Table names of the patient and address records. */
  const TablePatient := "patient"
  const TablePatientAddress := "patient_address"

  /** The columns of a search result. */
  const LastNameColumn := "p.ptlname AS last_name, "
  const FirstNameColumn := "p.ptfname AS first_name, "
  const MiddleNameColumn := "p.ptmname AS middle_name, "
  const PatientIdColumn := "p.ptid AS patient_id, "
  const AgeColumn := AgeYears + " AS age, "
  const BirthColumn := "p.ptdob AS date_of_birth, "
  const IdColumn := "p.id AS id"

  /** The patient joined with its addresses. */
  const SearchJoin := " p LEFT OUTER JOIN " + TablePatientAddress + " pa ON p.id = pa.patient"

  const SearchFrom :=
    "SELECT " + LastNameColumn + FirstNameColumn + MiddleNameColumn + PatientIdColumn
    + AgeColumn + BirthColumn + IdColumn + " FROM " + TablePatient + SearchJoin
  const Where := " WHERE "
  const ActiveFilter := " AND pa.active = 1 "
  const SortColumns := "p.ptlname, p.ptfname, p.ptmname"
  const OrderBy := " ORDER BY " + SortColumns + " LIMIT "

  /** The search query: the clauses joined with `AND`, the active-address filter, the
      archive suffix, the sort order and the row cap. */
  function SearchQuery(k: seq<Template>, archive: string): (q: Template)
    ensures Params(q) == TotalParams(k)
  {
    JoinParams(k, " AND ");
    [Text(SearchFrom + Where)] + Join(k, " AND ")
      + [Text(ActiveFilter + archive + OrderBy + FormatInt(SearchLimit))]
  }

  /** `%d` writes the row cap as `20`. */
  lemma LimitText()
    ensures FormatInt(SearchLimit) == "20"
  {
    assert NatText(2) == "2";
    assert NatText(20) == NatText(2) + [DigitChar(0)];
  }

  /** The text of the search query, in order: the clauses joined with " AND ", then the
      active-address filter, then the archive suffix, then the sort order and `LIMIT 20`. */
  lemma SearchQueryText(k: seq<Template>, archive: string)
    ensures Render(SearchQuery(k, archive)) ==
              (SearchFrom + Where) + JoinStrings(RenderAll(k), " AND ")
              + (ActiveFilter + archive + OrderBy + "20")
  {
    RenderBetween(SearchFrom + Where, Join(k, " AND "), ActiveFilter + archive + OrderBy + FormatInt(SearchLimit));
    RenderJoin(k, " AND ");
    LimitText();
  }

  /** With at least one clause, `WHERE` is followed directly by the first clause. */
  lemma WhereStartsWithClause(k: seq<Template>, archive: string)
    requires |k| >= 1
    ensures (SearchFrom + Where) + Render(k[0]) <= Render(SearchQuery(k, archive))
  {
    RenderJoinFirst(SearchFrom + Where, k, " AND ", ActiveFilter + archive + OrderBy + FormatInt(SearchLimit));
  }

  /** With no clause, `WHERE` is followed directly by the `AND` of the active-address
      filter: the query text reads `... WHERE  AND pa.active = 1 ...`. */
  lemma EmptyWhere(archive: string)
    ensures Render(SearchQuery([], archive)) ==
              (SearchFrom + Where) + (ActiveFilter + archive + OrderBy + "20")
  {
    RenderEmptyJoin(SearchFrom + Where, " AND ", ActiveFilter + archive + OrderBy + FormatInt(SearchLimit));
    LimitText();
  }

  // ----- the query text as written: the clauses are part of the `fmt.Sprintf` format -----

  /** The format string that the handler passes to `fmt.Sprintf` with the row cap: the
      joined clauses are spliced into it, so their `%` wildcards are read as directives. */
  function SearchFormat(k: seq<Template>, archive: string): (f: string)
    ensures EndsWith(f, OrderBy + "%d")
  {
    LimitSwap(SearchFrom + Where, JoinStrings(RenderAll(k), " AND "), ActiveFilter + archive, OrderBy);
    (SearchFrom + Where) + JoinStrings(RenderAll(k), " AND ") + (ActiveFilter + archive + OrderBy + "%d")
  }

  /** Everything the search query text has before its row cap. */
  function QueryHead(k: seq<Template>, archive: string): string
  {
    (SearchFrom + Where) + JoinStrings(RenderAll(k), " AND ") + (ActiveFilter + archive + OrderBy)
  }

  /** The format and the intended query text share everything before the row cap,
      which the format writes as `%d` and the intended text as `20`. */
  lemma SearchFormatIntended(k: seq<Template>, archive: string)
    ensures SearchFormat(k, archive) == QueryHead(k, archive) + "%d"
    ensures Render(SearchQuery(k, archive)) == QueryHead(k, archive) + "20"
  {
    var x, j, t := SearchFrom + Where, JoinStrings(RenderAll(k), " AND "), ActiveFilter + archive + OrderBy;
    SearchQueryText(k, archive);
    Regroup(x, j, t, "%d");
    Regroup(x, j, t, "20");
  }

  lemma Regroup(x: string, j: string, t: string, e: string)
    ensures x + j + (t + e) == (x + j + t) + e
  {
  }

  /** A format made of text and a closing `%d` ends with its last text and `%d`. */
  lemma LimitSwap(x: string, j: string, a: string, o: string)
    ensures EndsWith(x + j + (a + o + "%d"), o + "%d")
  {
    var f := x + j + (a + o + "%d");
    assert f == (x + j + a) + (o + "%d");
  }

  /** The query text the handler sends, as written. It exists exactly when every
      directive of the format is one `fmt` is modelled for here, and it is the intended
      query text when no clause has a `%` and the suffix is one the handler builds. */
  function SearchText(k: seq<Template>, archive: string): (r: Option<string>)
    ensures r.Some? <==> Covered(SearchFormat(k, archive))
    ensures AllPlain(k) && (archive == "" || archive == ArchiveDefault) ==>
              r == Some(Render(SearchQuery(k, archive)))
  {
    PlainSearchText(k, archive);
    Sprintf(SearchFormat(k, archive), SearchLimit)
  }

  /** Without a `%` in the clauses, formatting only writes the row cap. */
  lemma PlainSearchText(k: seq<Template>, archive: string)
    ensures AllPlain(k) && (archive == "" || archive == ArchiveDefault) ==>
              Sprintf(SearchFormat(k, archive), SearchLimit) == Some(Render(SearchQuery(k, archive)))
  {
    if AllPlain(k) && (archive == "" || archive == ArchiveDefault) {
      var x, j, y := SearchFrom + Where, JoinStrings(RenderAll(k), " AND "), ActiveFilter + archive + OrderBy;
      GoFmt.JoinPlain(RenderAll(k), " AND ");
      SearchFromPlain();
      SearchTailPlain(archive);
      PlainFormat(x, j, y);
      SearchQueryText(k, archive);
      assert SearchFormat(k, archive) == x + j + (y + "%d");
      assert Render(SearchQuery(k, archive)) == x + j + (y + "20");
    }
  }

  /** A format of plain text ending in `%d` writes the text and then the row cap. */
  lemma PlainFormat(x: string, j: string, y: string)
    requires '%' !in x && '%' !in j && '%' !in y
    ensures Sprintf(x + j + (y + "%d"), SearchLimit) == Some(x + j + (y + "20"))
  {
    PlainComplete(j);
    var joined := FormatParts(x, j, y);
    assert joined == j && !Consumes(j);
    assert x + (j + (y + "20")) == x + j + (y + "20");
  }

  lemma AgeColumnPlain()
    ensures '%' !in AgeColumn
  {
    assert '%' !in AgeDays;
  }

  lemma NameColumnsPlain()
    ensures '%' !in LastNameColumn && '%' !in FirstNameColumn && '%' !in MiddleNameColumn
  {
  }

  lemma OtherColumnsPlain()
    ensures '%' !in PatientIdColumn && '%' !in BirthColumn && '%' !in IdColumn
  {
  }

  lemma SearchJoinPlain()
    ensures '%' !in SearchJoin
  {
    assert '%' !in TablePatientAddress;
  }

  lemma SearchFromPlain()
    ensures '%' !in SearchFrom + Where
  {
    AgeColumnPlain();
    NameColumnsPlain();
    OtherColumnsPlain();
    SearchJoinPlain();
  }

  /** `s` ends with `suffix`. */
  predicate EndsWith(s: string, suffix: string)
  {
    |suffix| <= |s| && s[|s| - |suffix|..] == suffix
  }

  lemma SearchTailPlain(archive: string)
    requires archive == "" || archive == ArchiveDefault
    ensures '%' !in ActiveFilter + archive + OrderBy
  {
    assert '%' !in ArchiveDefault;
    assert '%' !in SortColumns;
  }

  /** A free-text clause is a complete format piece that takes the operand. Its first
      `%'` prints the operand as a bad verb, or reports it missing if an earlier clause
      took it, and its second `%'` reports the operand missing. */
  lemma LikeClauseScan(column: string, arg: int, used: bool)
    requires '%' !in column
    ensures Complete(Render(LikeClause(column))) && Consumes(Render(LikeClause(column)))
    ensures Scan(Render(LikeClause(column)), arg, used) ==
              Some(Scanned(column + " LIKE '" + (WildcardText(arg, used) + (" + ? + '" + "%!'(MISSING)")), true))
  {
    var a, tail := column + " LIKE '", "%'" + (" + ? + '" + "%'");
    LikeClauseText(column);
    LikeClauseSplit(column);
    WildcardsScan(" + ? + '", arg, used);
    PlainComplete(a);
    ScanConcat(a, tail, arg, used);
    CompleteConcat(a, tail, arg);
  }

  /** What the first `%'` of a free-text clause writes. */
  function WildcardText(arg: int, used: bool): string
  {
    if used then "%!'(MISSING)" else "%!'(int=" + FormatInt(arg) + ")"
  }

  lemma LikeClauseSplit(column: string)
    ensures column + " LIKE '%' + " + "?" + " + '%'" == column + " LIKE '" + ("%'" + (" + ? + '" + "%'"))
  {
    assert " LIKE '%' + " + "?" + " + '%'" == " LIKE '" + ("%'" + (" + ? + '" + "%'"));
  }

  /** The second wildcard of a free-text clause, after text `c`, once the operand is used. */
  lemma WildcardTail(c: string, arg: int)
    requires '%' !in c
    ensures Complete(c + "%'")
    ensures Scan(c + "%'", arg, true) == Some(Scanned(c + "%!'(MISSING)", true))
  {
    PlainComplete(c);
    ScanQuote(arg, true);
    ScanConcat(c, "%'", arg, true);
    CompleteConcat(c, "%'", arg);
  }

  /** The two wildcards of a free-text clause, read as directives around text `c`. */
  lemma WildcardsScan(c: string, arg: int, used: bool)
    requires '%' !in c
    ensures Complete("%'" + (c + "%'")) && Consumes("%'" + (c + "%'"))
    ensures Scan("%'" + (c + "%'"), arg, used) == Some(Scanned(WildcardText(arg, used) + (c + "%!'(MISSING)"), true))
  {
    WildcardTail(c, arg);
    ScanQuote(arg, used);
    ScanConcat("%'", c + "%'", arg, used);
    CompleteConcat("%'", c + "%'", arg);
  }

  /** The age clause is what `fmt.Sprintf` writes for its `%d` format and the age. */
  lemma AgeClauseSprintf(age: int)
    ensures Sprintf(AgeExpression + "%d", age) == Some(Render(AgeClause(age)))
  {
    assert '%' !in AgeDays;
    assert '%' !in AgeExpression;
    SprintfTrailingDecimal(AgeExpression, age);
    AgeClauseText(age);
  }

  /** An age clause has no `%`: the format copies it unchanged. */
  lemma AgeClausePlain(age: int)
    ensures '%' !in Render(AgeClause(age))
  {
    var digits := FormatInt(age);
    assert '%' !in AgeDays;
    assert '%' !in AgeExpression;
    assert '%' !in digits;
    AgeClauseText(age);
  }

  /** Every clause of `k` is a complete format piece. */
  predicate AllComplete(k: seq<Template>)
  {
    forall i :: 0 <= i < |k| ==> Complete(Render(k[i]))
  }

  /** No clause of `k` has a `%`. */
  predicate AllPlain(k: seq<Template>)
  {
    forall i :: 0 <= i < |k| ==> '%' !in Render(k[i])
  }

  /** Some clause of `k` takes the operand. */
  predicate AnyConsumes(k: seq<Template>)
  {
    exists i :: 0 <= i < |k| && Consumes(Render(k[i]))
  }

  lemma ClauseListAppend(a: seq<Template>, b: seq<Template>)
    ensures AllComplete(a + b) == (AllComplete(a) && AllComplete(b))
    ensures AllPlain(a + b) == (AllPlain(a) && AllPlain(b))
    ensures AnyConsumes(a + b) == (AnyConsumes(a) || AnyConsumes(b))
  {
    var ab := a + b;
    assert forall i :: 0 <= i < |a| ==> ab[i] == a[i];
    assert forall i :: 0 <= i < |b| ==> ab[|a| + i] == b[i];
    if AnyConsumes(ab) {
      var i :| 0 <= i < |ab| && Consumes(Render(ab[i]));
      if i >= |a| {
        assert ab[i] == b[i - |a|];
      }
    }
    if AllComplete(a) && AllComplete(b) {
      forall i | 0 <= i < |ab| ensures Complete(Render(ab[i])) {
        if i >= |a| {
          assert ab[i] == b[i - |a|];
        }
      }
    }
    if AllPlain(a) && AllPlain(b) {
      forall i | 0 <= i < |ab| ensures '%' !in Render(ab[i]) {
        if i >= |a| {
          assert ab[i] == b[i - |a|];
        }
      }
    }
  }

  /** A free-text criterion's clause list as format pieces. */
  lemma TextClauseFormat(column: string)
    requires '%' !in column
    ensures AllComplete([LikeClause(column)]) && AnyConsumes([LikeClause(column)])
    ensures !AllPlain([LikeClause(column)])
  {
    LikeClauseScan(column, 0, false);
    var r := Render(LikeClause(column));
    assert [LikeClause(column)][0] == LikeClause(column);
    assert Scan(r, 0, false).value.used;
  }

  /** An age criterion's clause list as format pieces. */
  lemma AgeClauseFormat(age: int)
    ensures AllComplete([AgeClause(age)]) && !AnyConsumes([AgeClause(age)])
    ensures AllPlain([AgeClause(age)])
  {
    AgeClausePlain(age);
    var r := Render(AgeClause(age));
    PlainComplete(r);
    assert [AgeClause(age)][0] == AgeClause(age);
    assert Scan(r, 0, false) == Some(Scanned(r, false));
  }

  /** What one criterion's clause does inside the format: it is complete, and it takes
      the operand (and has a `%` at all) exactly when the criterion binds a value. */
  lemma EntryFormat(e: Entry)
    ensures AllComplete(ClauseOf(e))
    ensures AllPlain(ClauseOf(e)) <==> BoundOf(e) == []
    ensures AnyConsumes(ClauseOf(e)) <==> BoundOf(e) != []
  {
    var c := Contribute(e.0, e.1);
    if c.Filter? && IsTextKey(e.0) {
      TextClauseFormat(TextColumn(e.0).value);
    } else if c.Filter? {
      AgeClauseFormat(e.1.n);
    }
  }

  /** Over a whole request: every clause is a complete format piece; no value is bound
      iff no clause has a `%` iff no clause takes the operand. */
  lemma {:induction false} ClausesFormat(p: seq<Entry>)
    ensures AllComplete(Clauses(p))
    ensures AllPlain(Clauses(p)) <==> Bounds(p) == []
    ensures AnyConsumes(Clauses(p)) <==> Bounds(p) != []
  {
    if p != [] {
      var init, e := p[..|p| - 1], p[|p| - 1];
      ClausesFormat(init);
      EntryFormat(e);
      ClauseListAppend(Clauses(init), ClauseOf(e));
    }
  }

  /** The joined clauses as one format piece. */
  lemma JoinedFormat(k: seq<Template>)
    requires AllComplete(k)
    ensures Complete(JoinStrings(RenderAll(k), " AND "))
    ensures Consumes(JoinStrings(RenderAll(k), " AND ")) == AnyConsumes(k)
    ensures AllPlain(k) ==> '%' !in JoinStrings(RenderAll(k), " AND ")
  {
    var ss := RenderAll(k);
    JoinComplete(ss, " AND ");
    if exists i :: 0 <= i < |ss| && Consumes(ss[i]) {
      var i :| 0 <= i < |ss| && Consumes(ss[i]);
      assert Consumes(Render(k[i]));
    }
    if AnyConsumes(k) {
      var i :| 0 <= i < |k| && Consumes(Render(k[i]));
      assert Consumes(ss[i]);
    }
    if AllPlain(k) {
      GoFmt.JoinPlain(ss, " AND ");
    }
  }

  /** The search text as written: the clauses are read as format pieces; the `%d` of
      the row cap writes `20` unless a clause took the operand first, in which case it
      writes `%!d(MISSING)`. */
  lemma SearchTextParts(k: seq<Template>, archive: string) returns (joined: string)
    requires AllComplete(k)
    requires archive == "" || archive == ArchiveDefault
    ensures SearchText(k, archive) ==
              Some((SearchFrom + Where) + (joined + ((ActiveFilter + archive + OrderBy)
                + (if AnyConsumes(k) then "%!d(MISSING)" else "20"))))
    ensures AllPlain(k) ==> joined == JoinStrings(RenderAll(k), " AND ")
    ensures Scan(JoinStrings(RenderAll(k), " AND "), SearchLimit, false) == Some(Scanned(joined, AnyConsumes(k)))
  {
    SearchFromPlain();
    SearchTailPlain(archive);
    JoinedFormat(k);
    joined := FormatParts(SearchFrom + Where, JoinStrings(RenderAll(k), " AND "), ActiveFilter + archive + OrderBy);
  }

  /** A format made of plain text, a complete piece and plain text ending in `%d`. */
  lemma FormatParts(x: string, j: string, y: string) returns (joined: string)
    requires '%' !in x && '%' !in y && Complete(j)
    ensures Sprintf(x + j + (y + "%d"), SearchLimit) ==
              Some(x + (joined + (y + (if Consumes(j) then "%!d(MISSING)" else "20"))))
    ensures '%' !in j ==> joined == j
    ensures Scan(j, SearchLimit, false) == Some(Scanned(joined, Consumes(j)))
  {
    var used := Consumes(j);
    joined := Scan(j, SearchLimit, false).value.text;
    var tail := LimitScan(y, used);
    ScanConcat(j, y + "%d", SearchLimit, false);
    CompleteConcat(j, y + "%d", SearchLimit);
    PlainComplete(x);
    ScanConcat(x, j + (y + "%d"), SearchLimit, false);
    assert x + j + (y + "%d") == x + (j + (y + "%d"));
  }

  /** The end of the format: plain text and then the `%d` of the row cap. */
  lemma LimitScan(y: string, used: bool) returns (tail: string)
    requires '%' !in y
    ensures Complete(y + "%d")
    ensures tail == y + (if used then "%!d(MISSING)" else "20")
    ensures Scan(y + "%d", SearchLimit, used) == Some(Scanned(tail, true))
  {
    LimitText();
    PlainComplete(y);
    ScanDecimal(SearchLimit, used);
    ScanConcat(y, "%d", SearchLimit, used);
    CompleteConcat(y, "%d", SearchLimit);
    tail := y + (if used then "%!d(MISSING)" else "20");
  }

  /** The query text sent as written is the intended text exactly when no free-text
      criterion is used. Otherwise the wildcards of the first free-text clause take the
      row cap and the query ends in `LIMIT %!d(MISSING)` instead of `LIMIT 20`. */
  lemma SearchTextAsIntended(p: seq<Entry>)
    ensures SearchText(Clauses(p), Archive(p)).Some?
    ensures (SearchText(Clauses(p), Archive(p)) == Some(Render(SearchQuery(Clauses(p), Archive(p)))))
              <==> Bounds(p) == []
    ensures Bounds(p) != [] ==>
              EndsWith(SearchText(Clauses(p), Archive(p)).value, ActiveFilter + Archive(p) + OrderBy + "%!d(MISSING)")
  {
    var k, archive := Clauses(p), Archive(p);
    ClausesFormat(p);
    ArchiveSuffix(p);
    var joined := SearchTextParts(k, archive);
    SearchQueryText(k, archive);
    CompareTexts(SearchFrom + Where, joined, JoinStrings(RenderAll(k), " AND "), ActiveFilter + archive + OrderBy, AnyConsumes(k));
  }

  /** The text sent against the intended text: they agree iff the row cap was written. */
  lemma CompareTexts(x: string, joined: string, j: string, y: string, consumes: bool)
    requires !consumes ==> joined == j
    ensures (x + (joined + (y + (if consumes then "%!d(MISSING)" else "20"))) == x + j + (y + "20")) <==> !consumes
    ensures consumes ==> EndsWith(x + (joined + (y + "%!d(MISSING)")), y + "%!d(MISSING)")
  {
    var sent := x + (joined + (y + (if consumes then "%!d(MISSING)" else "20")));
    var intended := x + j + (y + "20");
    if consumes {
      assert sent == (x + joined) + (y + "%!d(MISSING)");
      assert sent[|sent| - 1] == ')';
      assert intended[|intended| - 1] == '0';
    }
  }

  /** What a search request ends in: whether "400 Bad Request" was set, and the query
      text and arguments sent to the database, if any. */
  datatype SearchRun = SearchRun(badRequest: bool, select: Option<Select>)

  datatype Select = Select(sql: string, args: seq<Value>)

  /** The search handler as written. A body that does not decode is rejected. An empty
      criteria object is rejected too, but the handler goes on and runs the query. The
      query text is produced by `fmt.Sprintf` with the clauses inside its format: it is
      the intended text when no free-text criterion is used, and otherwise it has lost
      its row cap. */
  method PatientSearch(body: Option<seq<Entry>>) returns (run: SearchRun)
    ensures body.None? ==> run == SearchRun(true, None)
    ensures body.Some? ==> run.badRequest == (|body.value| == 0) && run.select.Some?
    ensures body.Some? ==>
              SearchText(Clauses(body.value), Archive(body.value)) == Some(run.select.value.sql) &&
              run.select.value.args == Bounds(body.value)
    ensures body.Some? && Bounds(body.value) == [] ==>
              run.select.value.sql == Render(SearchQuery(Clauses(body.value), Archive(body.value))) &&
              Params(SearchQuery(Clauses(body.value), Archive(body.value))) == |run.select.value.args|
    ensures body.Some? && Bounds(body.value) != [] ==>
              EndsWith(run.select.value.sql, ActiveFilter + Archive(body.value) + OrderBy + "%!d(MISSING)")
  {
    if body.None? {
      return SearchRun(true, None);
    }
    var params := body.value;
    var badRequest := false;
    if |params| < 1 {
      badRequest := true;
    }
    var k, v, archive := BuildFilter(params);
    SearchTextAsIntended(params);
    var sql := SearchText(k, archive);
    run := SearchRun(badRequest, Some(Select(sql.value, v)));
  }

  /** The search handler as intended: a request from which no clause can be built is
      rejected and no query is run; the row cap is written into the text on its own, so
      the clauses keep their wildcards; every query that is run has a clause after
      `WHERE` and one argument per `?`. */
  method PatientSearchFixed(body: Option<seq<Entry>>) returns (run: SearchRun)
    ensures run.badRequest <==> run.select.None?
    ensures body.None? ==> run.badRequest
    ensures body.Some? ==> (run.badRequest <==> UsableCount(body.value) == 0)
    ensures body.Some? && run.select.Some? ==>
              run.select.value == Select(Render(SearchQuery(Clauses(body.value), Archive(body.value))), Bounds(body.value))
    ensures body.Some? ==> Params(SearchQuery(Clauses(body.value), Archive(body.value))) == |Bounds(body.value)|
    ensures body.Some? && run.select.Some? ==>
              |Clauses(body.value)| >= 1 &&
              (SearchFrom + Where) + Render(Clauses(body.value)[0]) <= run.select.value.sql
  {
    if body.None? {
      return SearchRun(true, None);
    }
    var params := body.value;
    var k, v, archive := BuildFilter(params);
    if |k| < 1 {
      return SearchRun(true, None);
    }
    WhereStartsWithClause(k, archive);
    run := SearchRun(false, Some(Select(Render(SearchQuery(k, archive)), v)));
  }

  /** An empty criteria object is answered with "400" and still runs a query whose
      `WHERE` has no clause before its first `AND`. */
  lemma EmptyCriteriaStillQueries()
    ensures Clauses([]) == [] && Bounds([]) == [] && Archive([]) == ArchiveDefault
    ensures SearchText(Clauses([]), Archive([])) ==
              Some((SearchFrom + Where) + (ActiveFilter + ArchiveDefault + OrderBy + "20"))
  {
    SearchTextAsIntended([]);
    EmptyWhere(ArchiveDefault);
  }

  /** `{"archive": true}` passes the emptiness check, builds no clause, and runs a query
      whose `WHERE` has no clause before its first `AND`. */
  lemma ArchiveOnlyQueriesEmptyWhere()
    ensures UsableCount([("archive", Bool(true))]) == 0
    ensures Clauses([("archive", Bool(true))]) == [] && Archive([("archive", Bool(true))]) == ""
    ensures SearchText(Clauses([("archive", Bool(true))]), Archive([("archive", Bool(true))])) ==
              Some((SearchFrom + Where) + (ActiveFilter + "" + OrderBy + "20"))
  {
    var p := [("archive", Bool(true))];
    assert p[..0] == [];
    assert Contribute("archive", Bool(true)) == IncludeArchived;
    SearchTextAsIntended(p);
    EmptyWhere("");
  }

  /** A search by one free-text criterion, such as `{"city": "Paris"}`: the intended
      query matches the column against the bound value and ends in `LIMIT 20`; the query
      sent has both wildcards replaced by `fmt` error text, the first having taken the
      row cap, and ends in `LIMIT %!d(MISSING)`. */
  lemma TextSearchMangled(name: string, value: string)
    requires IsTextKey(name) && value != ""
    ensures Bounds([(name, Str(value))]) == [Str(value)]
    ensures Render(SearchQuery(Clauses([(name, Str(value))]), Archive([(name, Str(value))]))) ==
              (SearchFrom + Where) + (TextColumn(name).value + " LIKE '%' + " + "?" + " + '%'")
              + (ActiveFilter + Archive([(name, Str(value))]) + OrderBy + "20")
    ensures SearchText(Clauses([(name, Str(value))]), Archive([(name, Str(value))])) ==
              Some((SearchFrom + Where) + ((TextColumn(name).value + " LIKE '" + ("%!'(int=20)" + (" + ? + '" + "%!'(MISSING)")))
                   + ((ActiveFilter + Archive([(name, Str(value))]) + OrderBy) + "%!d(MISSING)")))
    ensures Archive([(name, Str(value))]) == ArchiveDefault
  {
    var p := [(name, Str(value))];
    var column := TextColumn(name).value;
    TextCriterion(name, value);
    OneTextClause(column, Archive(p));
    WildcardCap();
  }

  /** The first wildcard of the query takes the row cap. */
  lemma WildcardCap()
    ensures WildcardText(SearchLimit, false) == "%!'(int=20)"
  {
    LimitText();
  }

  /** The filter built from one usable free-text criterion. */
  lemma TextCriterion(name: string, value: string)
    requires IsTextKey(name) && value != ""
    ensures Clauses([(name, Str(value))]) == [LikeClause(TextColumn(name).value)]
    ensures Bounds([(name, Str(value))]) == [Str(value)]
    ensures Archive([(name, Str(value))]) == ArchiveDefault
  {
    EntryEffect([], name, Str(value));
    assert [] + [(name, Str(value))] == [(name, Str(value))];
  }

  /** The search for one free-text clause, as intended and as sent. */
  lemma OneTextClause(column: string, archive: string)
    requires '%' !in column
    requires archive == "" || archive == ArchiveDefault
    ensures Render(SearchQuery([LikeClause(column)], archive)) ==
              (SearchFrom + Where) + (column + " LIKE '%' + " + "?" + " + '%'") + (ActiveFilter + archive + OrderBy + "20")
    ensures SearchText([LikeClause(column)], archive) ==
              Some((SearchFrom + Where) + ((column + " LIKE '" + (WildcardText(SearchLimit, false) + (" + ? + '" + "%!'(MISSING)")))
                   + ((ActiveFilter + archive + OrderBy) + "%!d(MISSING)")))
  {
    var c := LikeClause(column);
    SingleJoin(c);
    LikeClauseText(column);
    SearchQueryText([c], archive);
    TextClauseFormat(column);
    var joined := SearchTextParts([c], archive);
    LikeClauseScan(column, SearchLimit, false);
    assert joined == column + " LIKE '" + (WildcardText(SearchLimit, false) + (" + ? + '" + "%!'(MISSING)"));
    assert SearchText([c], archive) == Some((SearchFrom + Where) + (joined + ((ActiveFilter + archive + OrderBy) + "%!d(MISSING)")));
  }

  lemma SingleJoin(c: Template)
    ensures JoinStrings(RenderAll([c]), " AND ") == Render(c)
  {
    assert RenderAll([c]) == [Render(c)];
  }

  // ----- attachments and patient information -----

  /** What a lookup handler ends in: "400 Bad Request", or a query run with string arguments. */
  datatype Lookup = BadRequest | Run(query: Template, args: seq<string>)

  const AttachmentsFrom :=
    "SELECT p.patient AS patient, p.module AS module, p.oid AS oid, p.annotation AS annotation, "
    + "p.summary AS summary, p.stamp AS stamp, DATE_FORMAT(p.stamp, '%m/%d/%Y') AS date_mdy, "
    + "m.module_name AS type, m.module_class AS module_namespace, p.locked AS locked, p.id AS id "
    + "FROM patient_emr p LEFT OUTER JOIN modules m ON m.module_table = p.module"

  /** Every attachment of one patient, from modules that are not hidden. */
  const AttachmentsQuery: Template :=
    [Text(AttachmentsFrom + " WHERE p.patient = "), Param, Text(" AND m.module_hidden = 0")]

  /** The attachments of one patient in one module. */
  const ModuleAttachmentsQuery: Template :=
    [Text(AttachmentsFrom + " WHERE p.patient = "), Param, Text(" AND p.module = "), Param,
     Text(" AND m.module_hidden = 0")]

  /** Lists a patient's attachments, all of them when the module is empty, else one
      module's. An empty patient id is rejected before any query. */
  function PatientEmrAttachments(id: string, moduleName: string): (r: Lookup)
    ensures r.BadRequest? <==> id == ""
    ensures r.Run? ==> Params(r.query) == |r.args|
    ensures r.Run? ==> |r.args| >= 1 && r.args[0] == id
    ensures r.Run? ==> (moduleName == "" <==> r.args == [id])
    ensures r.Run? && moduleName != "" ==> r.args == [id, moduleName]
  {
    if id == "" then BadRequest
    else if moduleName == "" then Run(AttachmentsQuery, [id])
    else Run(ModuleAttachmentsQuery, [id, moduleName])
  }

  /** The patient information query; the patient id is bound twice, for the allergy
      check and for the patient itself. */
  const InformationQuery: Template := [
    Text("SELECT "
      + "CONCAT( p.ptlname, ', ', p.ptfname, IF(NOT ISNULL(p.ptmname), CONCAT(' ', p.ptmname), '') ) AS patient_name"
      + ", p.ptid AS patient_id"
      + ", p.ptdob AS date_of_birth"
      + ", p.ptprimarylanguage AS language"
      + ", DATE_FORMAT(p.ptdob, '%m/%d/%Y') AS date_of_birth_mdy"
      + ", CASE WHEN ( ( TO_DAYS(NOW()) - TO_DAYS(p.ptdob) ) / 365) >= 2 THEN CONCAT(FLOOR( ( TO_DAYS(NOW()) - TO_DAYS(p.ptdob) ) / 365),' years') ELSE CONCAT(FLOOR( ( TO_DAYS(NOW()) - TO_DAYS(p.ptdob) ) / 30),' months') END AS age"
      + ", pa.line1 AS address_line_1"
      + ", pa.line2 AS address_line_2"
      + ", pa.city AS city"
      + ", pa.stpr AS state"
      + ", pa.postal AS postal"
      + ", CONCAT( pa.city, ', ', pa.stpr, ' ', pa.postal ) AS csz"
      + ", CASE WHEN p.id IN ( SELECT al.patient FROM allergies al WHERE al.patient="),
    Param,
    Text(" AND active = 'active' ) THEN 'true' ELSE 'false' END AS hasallergy"
      + ", CONCAT( phy.phylname, ', ', phy.phyfname, ' ', phy.phymname ) AS pcp"
      + ", CONCAT( fac.psrname, ' (', fac.psrcity, ', ', fac.psrstate,')' ) AS facility"
      + ", CONCAT( ph.phname, ' (', ph.phcity, ', ', ph.phstate,')' ) AS pharmacy "
      + "FROM patient p "
      + "LEFT OUTER JOIN patient_address pa ON ( pa.patient = p.id AND pa.active = TRUE ) "
      + "LEFT OUTER JOIN physician phy ON ( phy.id = p.ptpcp) "
      + "LEFT OUTER JOIN facility fac ON ( fac.id = p.ptprimaryfacility) "
      + "LEFT OUTER JOIN pharmacy ph ON ( ph.id = p.ptpharmacy) "
      + "WHERE p.id = "),
    Param,
    Text(" GROUP BY p.id")
  ]

  /** Looks up one patient's information. An empty patient id is rejected before any
      query; otherwise the id fills both parameters. */
  function PatientInformation(id: string): (r: Lookup)
    ensures r.BadRequest? <==> id == ""
    ensures r.Run? ==> Params(r.query) == |r.args| == 2
    ensures r.Run? ==> forall i :: 0 <= i < |r.args| ==> r.args[i] == id
  {
    if id == "" then BadRequest else Run(InformationQuery, [id, id])
  }
}
