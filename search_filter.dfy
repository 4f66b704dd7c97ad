/**
 * The search predicate builder of the patient search endpoint.
 *
 * The client posts a JSON object of search criteria. Each recognised criterion
 * contributes at most one SQL clause to a list `k` and at most one bound value to a
 * parallel list `v`; the `archive` criterion instead switches off the default
 * "not archived" filter. Dispatch is by criterion name; a value of the wrong JSON
 * type, an empty string or a zero age contributes nothing, and so does an
 * unrecognised name.
 *
 * A Go map has no iteration order, so the criteria are a sequence of
 * (name, value) pairs here and the order-independence of the result is a lemma.
 */
module SearchFilter {

  import opened Options
  import opened SqlText
  import opened Decimal

  /** A decoded JSON value: `encoding/json` gives strings, `float64` numbers and booleans;
      everything else (null, arrays, objects) is `Other`. Numbers are integral here. */
  datatype Value = Str(s: string) | Num(n: int) | Bool(b: bool) | Other

  /** One search criterion: its name and its decoded value. */
  type Entry = (string, Value)

  /** The default suffix that hides archived patients. */
  const ArchiveDefault := " AND p.ptarchive = 0 "

  /** The names of the free-text criteria. */
  const TextKeys: set<string> := {"city", "dmv", "email", "first_name", "last_name", "patient_id", "ssn", "zip"}

  /** The column each free-text criterion is matched against; `None` for every other
      name. A column name has no `%`, so it passes through `fmt` formatting unchanged. */
  function TextColumn(name: string): (r: Option<string>)
    ensures r.Some? ==> r.value != "" && '%' !in r.value && '?' !in r.value
  {
    match name
    case "city" => Some("pa.city")
    case "dmv" => Some("p.dmv")
    case "email" => Some("p.pemail")
    case "first_name" => Some("p.ptfname")
    case "last_name" => Some("p.ptlname")
    case "patient_id" => Some("p.ptid")
    case "ssn" => Some("p.ssn")
    case "zip" => Some("pa.zip")
    case _ => None
  }

  /** The names of the free-text criteria. */
  predicate IsTextKey(name: string)
  {
    TextColumn(name).Some?
  }

  /** Exactly the eight free-text criteria have a column. */
  lemma TextKeysExactly(name: string)
    ensures IsTextKey(name) <==> name in TextKeys
  {
  }

  /** The patient's age in days, and in whole years. */
  const AgeDays := "( TO_DAYS(NOW()) - TO_DAYS(p.ptdob) )"
  const AgeYears := "FLOOR( " + AgeDays + " / 365 )"

  /** The start of the age clause: the age in whole years compared for equality. */
  const AgeExpression := AgeYears + " = "

  /** `<column> LIKE '%' + ? + '%'`: a partial match on `column` with one bound value. */
  function LikeClause(column: string): (c: Template)
    ensures Params(c) == 1
  {
    [Text(column + " LIKE '%' + "), Param, Text(" + '%'")]
  }

  /** The age clause: the age is written into the text with `%d`; nothing is bound. */
  function AgeClause(age: int): (c: Template)
    ensures Params(c) == 0
  {
    [Text(AgeExpression + FormatInt(age))]
  }

  /** What one criterion does to the filter being built. */
  datatype Contribution =
    | Skip
    | Filter(clause: Template, bound: Option<Value>)
    | IncludeArchived

  /** The criteria that add a clause: a free-text name with a non-empty string, or
      `age` with a non-zero number. */
  predicate Usable(name: string, value: Value)
  {
    || (IsTextKey(name) && value.Str? && value.s != "")
    || (name == "age" && value.Num? && value.n != 0)
  }

  /** The effect of one criterion, by name. */
  function Contribute(name: string, value: Value): (c: Contribution)
    ensures c.IncludeArchived? <==> name == "archive" && value == Bool(true)
    ensures c.Filter? <==> Usable(name, value)
    ensures c.Filter? && IsTextKey(name) ==>
              c.clause == LikeClause(TextColumn(name).value) && c.bound == Some(value)
    ensures c.Filter? && !IsTextKey(name) ==>
              name == "age" && c.clause == AgeClause(value.n) && c.bound == None
    ensures c.Filter? ==> Params(c.clause) == (if c.bound.Some? then 1 else 0)
  {
    if name == "age" then
      if value.Num? && value.n != 0 then Filter(AgeClause(value.n), None) else Skip
    else if name == "archive" then
      if value.Bool? && value.b then IncludeArchived else Skip
    else
      match TextColumn(name)
      case Some(column) => if value.Str? && value.s != "" then Filter(LikeClause(column), Some(value)) else Skip
      case None => Skip
  }

  // ----- the filter of a whole request, as left folds over the criteria -----

  /** Concatenates `f` of every entry, in order. */
  function Gather<T>(p: seq<Entry>, f: Entry -> seq<T>): seq<T>
  {
    if p == [] then [] else Gather(p[..|p| - 1], f) + f(p[|p| - 1])
  }

  function ClauseOf(e: Entry): seq<Template>
  {
    match Contribute(e.0, e.1)
    case Filter(clause, _) => [clause]
    case _ => []
  }

  function BoundOf(e: Entry): seq<Value>
  {
    match Contribute(e.0, e.1)
    case Filter(_, Some(value)) => [value]
    case _ => []
  }

  function PairOf(e: Entry): seq<(Template, Option<Value>)>
  {
    match Contribute(e.0, e.1)
    case Filter(clause, bound) => [(clause, bound)]
    case _ => []
  }

  /** The clause list `k` after the loop. */
  function Clauses(p: seq<Entry>): seq<Template>
  {
    Gather(p, ClauseOf)
  }

  /** The bound-value list `v` after the loop. */
  function Bounds(p: seq<Entry>): seq<Value>
  {
    Gather(p, BoundOf)
  }

  /** Each clause paired with the value bound for it, if any. */
  function Contributions(p: seq<Entry>): seq<(Template, Option<Value>)>
  {
    Gather(p, PairOf)
  }

  /** The archive suffix after the loop: the default filter, or nothing. */
  function Archive(p: seq<Entry>): (r: string)
    ensures r == "" || r == ArchiveDefault
  {
    if p == [] then ArchiveDefault
    else if Contribute(p[|p| - 1].0, p[|p| - 1].1).IncludeArchived? then ""
    else Archive(p[..|p| - 1])
  }

  /** The number of usable criteria. */
  function UsableCount(p: seq<Entry>): nat
  {
    if p == [] then 0
    else UsableCount(p[..|p| - 1]) + (if Usable(p[|p| - 1].0, p[|p| - 1].1) then 1 else 0)
  }

  // ----- the loop of the handler -----

  /** Builds the clause list, the bound-value list and the archive suffix, visiting
      the criteria in the order given. */
  method BuildFilter(params: seq<Entry>) returns (k: seq<Template>, v: seq<Value>, archive: string)
    ensures k == Clauses(params) && v == Bounds(params) && archive == Archive(params)
    ensures |k| == UsableCount(params)
    ensures TotalParams(k) == |v| <= |k|
    ensures archive == "" <==> ("archive", Bool(true)) in params
    ensures archive != "" ==> archive == ArchiveDefault
  {
    k, v, archive := [], [], ArchiveDefault;
    for i := 0 to |params|
      invariant k == Clauses(params[..i])
      invariant v == Bounds(params[..i])
      invariant archive == Archive(params[..i])
    {
      assert params[..i + 1][..i] == params[..i];
      var name, value := params[i].0, params[i].1;
      if name == "age" {
        if value.Num? && value.n != 0 {
          k := k + [AgeClause(value.n)];
        }
      } else if name == "archive" {
        if value.Bool? && value.b {
          archive := "";
        }
      } else {
        var column := TextColumn(name);
        if column.Some? && value.Str? && value.s != "" {
          k := k + [LikeClause(column.value)];
          v := v + [value];
        }
      }
    }
    assert params[..|params|] == params;
    ClauseCount(params);
    PlaceholdersMatchBindings(params);
    ArchiveSuffix(params);
  }

  // ----- properties of the specification -----

  /** Every usable criterion adds exactly one clause, and nothing else does. */
  lemma {:induction false} ClauseCount(p: seq<Entry>)
    ensures |Clauses(p)| == UsableCount(p)
  {
    if p != [] {
      ClauseCount(p[..|p| - 1]);
    }
  }

  /** The query consumes exactly the bound values: one per `?` across `k`; and there are
      never more bound values than clauses. */
  lemma {:induction false} PlaceholdersMatchBindings(p: seq<Entry>)
    ensures TotalParams(Clauses(p)) == |Bounds(p)|
    ensures |Bounds(p)| <= |Clauses(p)|
  {
    if p != [] {
      var init := p[..|p| - 1];
      PlaceholdersMatchBindings(init);
      TotalParamsAppend(Clauses(init), ClauseOf(p[|p| - 1]));
    }
  }

  /** The archive suffix is `""` exactly when some criterion is `archive` with the
      boolean `true`; otherwise it keeps its default. */
  lemma {:induction false} ArchiveSuffix(p: seq<Entry>)
    ensures Archive(p) == "" <==> ("archive", Bool(true)) in p
    ensures Archive(p) != "" ==> Archive(p) == ArchiveDefault
  {
    if p != [] {
      var init := p[..|p| - 1];
      ArchiveSuffix(init);
      assert p == init + [p[|p| - 1]];
    }
  }

  /** One more criterion: a usable free-text criterion appends its fixed clause to `k`
      and its value to `v` in lockstep; a usable age appends its clause and no value;
      anything else leaves both lists as they were. Only `archive` set to `true`
      changes the archive suffix, to `""`. */
  lemma EntryEffect(p: seq<Entry>, name: string, value: Value)
    ensures IsTextKey(name) && Usable(name, value) ==>
              Clauses(p + [(name, value)]) == Clauses(p) + [LikeClause(TextColumn(name).value)] &&
              Bounds(p + [(name, value)]) == Bounds(p) + [value]
    ensures name == "age" && Usable(name, value) ==>
              Clauses(p + [(name, value)]) == Clauses(p) + [AgeClause(value.n)] &&
              Bounds(p + [(name, value)]) == Bounds(p)
    ensures !Usable(name, value) ==>
              Clauses(p + [(name, value)]) == Clauses(p) && Bounds(p + [(name, value)]) == Bounds(p)
    ensures Archive(p + [(name, value)]) ==
              if name == "archive" && value == Bool(true) then "" else Archive(p)
  {
    assert (p + [(name, value)])[..|p|] == p;
  }

  /** Every bound value is the non-empty string of a free-text criterion. */
  lemma BoundsAreTextValues(p: seq<Entry>)
    ensures forall j :: 0 <= j < |Bounds(p)| ==>
              Bounds(p)[j].Str? && Bounds(p)[j].s != "" &&
              exists i :: 0 <= i < |p| && IsTextKey(p[i].0) && p[i].1 == Bounds(p)[j]
  {
    forall j | 0 <= j < |Bounds(p)|
      ensures Bounds(p)[j].Str? && Bounds(p)[j].s != "" &&
              exists i :: 0 <= i < |p| && IsTextKey(p[i].0) && p[i].1 == Bounds(p)[j]
    {
      var i := BoundSource(p, j);
    }
  }

  /** The criterion a bound value comes from. */
  lemma {:induction false} BoundSource(p: seq<Entry>, j: nat) returns (i: nat)
    requires j < |Bounds(p)|
    ensures i < |p| && IsTextKey(p[i].0) && p[i].1 == Bounds(p)[j]
    ensures Bounds(p)[j].Str? && Bounds(p)[j].s != ""
  {
    var init, last := p[..|p| - 1], p[|p| - 1];
    assert Bounds(p) == Bounds(init) + BoundOf(last);
    if j < |Bounds(init)| {
      i := BoundSource(init, j);
      assert p[i] == init[i];
    } else {
      EntryBound(last);
      i := |p| - 1;
    }
  }

  /** An entry binds at most its own value, and only a non-empty free-text string. */
  lemma EntryBound(e: Entry)
    ensures BoundOf(e) == [] || (BoundOf(e) == [e.1] && IsTextKey(e.0) && e.1.Str? && e.1.s != "")
  {
  }

  /** The value of every usable free-text criterion is bound. */
  lemma {:induction false} TextValuesBound(p: seq<Entry>)
    ensures forall i :: 0 <= i < |p| && IsTextKey(p[i].0) && Usable(p[i].0, p[i].1) ==>
              p[i].1 in Bounds(p)
  {
    if p != [] {
      var init := p[..|p| - 1];
      TextValuesBound(init);
      assert Bounds(p) == Bounds(init) + BoundOf(p[|p| - 1]);
      forall i | 0 <= i < |p| && IsTextKey(p[i].0) && Usable(p[i].0, p[i].1)
        ensures p[i].1 in Bounds(p)
      {
        if i < |init| {
          assert init[i] == p[i];
        }
      }
    }
  }

  /** The clause of a free-text criterion is a constant of its name: it does not depend
      on the value searched for, which is only ever bound. */
  lemma TextClauseIgnoresValue(name: string, s1: string, s2: string)
    requires IsTextKey(name) && s1 != "" && s2 != ""
    ensures Contribute(name, Str(s1)).Filter? && Contribute(name, Str(s2)).Filter?
    ensures Contribute(name, Str(s1)).clause == Contribute(name, Str(s2)).clause
    ensures Render(Contribute(name, Str(s1)).clause) == TextColumn(name).value + " LIKE '%' + ? + '%'"
  {
    LikeClauseText(TextColumn(name).value);
  }

  /** The text of a free-text clause. */
  lemma LikeClauseText(column: string)
    ensures Render(LikeClause(column)) == column + " LIKE '%' + " + "?" + " + '%'"
  {
    var head := Text(column + " LIKE '%' + ");
    assert [head][..0] == [];
    assert Render([head]) == column + " LIKE '%' + ";
    assert [head, Param][..1] == [head];
    assert Render([head, Param]) == column + " LIKE '%' + " + "?";
    assert LikeClause(column)[..2] == [head, Param];
  }

  /** The `?` characters of a free-text clause's text are its parameter markers: there
      is exactly one. */
  lemma LikeClauseMarkers(column: string)
    requires '?' !in column
    ensures multiset(Render(LikeClause(column)))['?'] == Params(LikeClause(column)) == 1
  {
    var head, tail := column + " LIKE '%' + ", " + '%'";
    assert '?' !in " LIKE '%' + ";
    NoMarker(head);
    NoMarker(tail);
    LikeClauseText(column);
    assert Render(LikeClause(column)) == head + "?" + tail;
    assert multiset(head + "?" + tail) == multiset(head) + multiset("?") + multiset(tail);
  }

  /** The age clause's text has no `?`, and the clause has no parameter marker. */
  lemma AgeClauseMarkers(age: int)
    ensures multiset(Render(AgeClause(age)))['?'] == Params(AgeClause(age)) == 0
  {
    var digits := FormatInt(age);
    forall i | 0 <= i < |digits|
      ensures digits[i] != '?'
    {
    }
    assert '?' !in AgeDays;
    assert '?' !in AgeExpression;
    NoMarker(AgeExpression + digits);
    AgeClauseText(age);
  }

  lemma NoMarker(s: string)
    requires '?' !in s
    ensures multiset(s)['?'] == 0
  {
  }

  /** The text of an age clause. */
  lemma AgeClauseText(age: int)
    ensures Render(AgeClause(age)) == AgeExpression + FormatInt(age)
  {
    assert AgeClause(age)[..0] == [];
  }

  /** The age clause determines the age: the integer written into it is the one asked for. */
  lemma AgeClauseDeterminesAge(a: int, b: int)
    requires AgeClause(a) == AgeClause(b)
    ensures a == b
  {
    var ta, tb := AgeExpression + FormatInt(a), AgeExpression + FormatInt(b);
    assert AgeClause(a)[0].text == ta && AgeClause(b)[0].text == tb;
    assert ta[|AgeExpression|..] == FormatInt(a);
    assert tb[|AgeExpression|..] == FormatInt(b);
    FormatIntInjective(a, b);
  }

  // ----- order independence -----

  lemma {:induction false} GatherAppend<T>(p: seq<Entry>, q: seq<Entry>, f: Entry -> seq<T>)
    ensures Gather(p + q, f) == Gather(p, f) + Gather(q, f)
    decreases |q|
  {
    if q == [] {
      assert p + q == p;
    } else {
      var q' := q[..|q| - 1];
      assert (p + q)[..|p + q| - 1] == p + q';
      GatherAppend(p, q', f);
    }
  }

  /** The clause of each pair, in order. */
  function ClauseParts(cs: seq<(Template, Option<Value>)>): seq<Template>
  {
    if cs == [] then [] else ClauseParts(cs[..|cs| - 1]) + [cs[|cs| - 1].0]
  }

  /** The bound value of each pair that has one, in order. */
  function BoundParts(cs: seq<(Template, Option<Value>)>): seq<Value>
  {
    if cs == [] then []
    else BoundParts(cs[..|cs| - 1]) + (if cs[|cs| - 1].1.Some? then [cs[|cs| - 1].1.value] else [])
  }

  /** The pairs hold the loop's two lists: `k` is their clauses, and `v` is their bound
      values where there is one, both in order. */
  lemma {:induction false} ContributionsProject(p: seq<Entry>)
    ensures Clauses(p) == ClauseParts(Contributions(p))
    ensures Bounds(p) == BoundParts(Contributions(p))
  {
    if p != [] {
      var init, last := p[..|p| - 1], p[|p| - 1];
      ContributionsProject(init);
      EntryParts(last);
      PartsStep(Contributions(init), PairOf(last));
    }
  }

  /** What one entry gathers, read off its pair. */
  lemma EntryParts(e: Entry)
    ensures |PairOf(e)| <= 1
    ensures ClauseOf(e) == ClauseParts(PairOf(e))
    ensures BoundOf(e) == BoundParts(PairOf(e))
  {
    var d := PairOf(e);
    if d != [] {
      assert d[..0] == [];
    }
  }

  /** Extending the pairs by at most one pair extends both projections by its parts. */
  lemma PartsStep(cs: seq<(Template, Option<Value>)>, d: seq<(Template, Option<Value>)>)
    requires |d| <= 1
    ensures ClauseParts(cs + d) == ClauseParts(cs) + ClauseParts(d)
    ensures BoundParts(cs + d) == BoundParts(cs) + BoundParts(d)
  {
    if d == [] {
      assert cs + d == cs;
    } else {
      assert (cs + d)[..|cs + d| - 1] == cs;
      assert d[..0] == [];
    }
  }

  /** Permuting the entries permutes what they gather. */
  lemma {:induction false} GatherPermutation<T>(p: seq<Entry>, q: seq<Entry>, f: Entry -> seq<T>)
    requires multiset(p) == multiset(q)
    ensures multiset(Gather(p, f)) == multiset(Gather(q, f))
    decreases |p|
  {
    if p == [] {
      assert |q| == |multiset(q)| == 0;
    } else {
      var x := p[|p| - 1];
      var p' := p[..|p| - 1];
      assert p == p' + [x];
      assert x in multiset(q);
      var j :| 0 <= j < |q| && q[j] == x;
      var q' := q[..j] + q[j + 1..];
      GatherRemove(q, j, f);
      MultisetRemove(q, j);
      GatherPermutation(p', q', f);
    }
  }

  lemma MultisetRemove(q: seq<Entry>, j: nat)
    requires j < |q|
    ensures multiset(q[..j] + q[j + 1..]) == multiset(q) - multiset{q[j]}
  {
    assert q == q[..j] + [q[j]] + q[j + 1..];
  }

  /** Taking one entry out of a list takes what it gathers out of the list's gathering. */
  lemma GatherRemove<T>(q: seq<Entry>, j: nat, f: Entry -> seq<T>)
    requires j < |q|
    ensures multiset(Gather(q, f)) == multiset(Gather(q[..j] + q[j + 1..], f)) + multiset(f(q[j]))
  {
    var before, after := q[..j], q[j + 1..];
    assert q == before + [q[j]] + after;
    GatherAround(before, q[j], after, f);
    GatherAppend(before, after, f);
  }

  lemma GatherAround<T>(before: seq<Entry>, x: Entry, after: seq<Entry>, f: Entry -> seq<T>)
    ensures Gather(before + [x] + after, f) == Gather(before, f) + f(x) + Gather(after, f)
  {
    GatherAppend(before + [x], after, f);
    GatherAppend(before, [x], f);
    assert Gather([x], f) == f(x) by {
      assert [x][..0] == [];
    }
  }

  /** Visiting the criteria in any order gives the same clauses paired with the same
      bound values, the same clause and bound-value multisets, and the same archive suffix. */
  lemma OrderIndependent(p: seq<Entry>, q: seq<Entry>)
    requires multiset(p) == multiset(q)
    ensures multiset(Contributions(p)) == multiset(Contributions(q))
    ensures multiset(Clauses(p)) == multiset(Clauses(q))
    ensures multiset(Bounds(p)) == multiset(Bounds(q))
    ensures Archive(p) == Archive(q)
  {
    GatherPermutation(p, q, PairOf);
    GatherPermutation(p, q, ClauseOf);
    GatherPermutation(p, q, BoundOf);
    ArchiveSuffix(p);
    ArchiveSuffix(q);
    assert ("archive", Bool(true)) in p <==> ("archive", Bool(true)) in multiset(p);
    assert ("archive", Bool(true)) in q <==> ("archive", Bool(true)) in multiset(q);
  }
}
