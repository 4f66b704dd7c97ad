/**
 * SQL text with its positional parameters made explicit.
 *
 * The handlers build SQL as Go strings in which each `?` is a positional parameter
 * that the database driver fills, in order, from the argument list passed beside
 * the query. Here such a string is a template: a sequence of literal text pieces
 * and parameter markers. `Render` gives back the Go string (a marker renders as `?`),
 * and `Params` counts the markers, that is, how many arguments the query consumes.
 */
module SqlText {

  datatype Piece = Text(text: string) | Param

  type Template = seq<Piece>

  /** The SQL string as the Go code spells it. */
  function Render(t: Template): string
  {
    if t == [] then "" else Render(t[..|t| - 1]) + PieceText(t[|t| - 1])
  }

  function PieceText(p: Piece): string
  {
    match p
    case Text(s) => s
    case Param => "?"
  }

  /** The number of positional parameters of `t`. */
  function Params(t: Template): nat
  {
    multiset(t)[Param]
  }

  /** Sum of the parameter counts of a list of templates. */
  function TotalParams(ts: seq<Template>): nat
  {
    if ts == [] then 0 else TotalParams(ts[..|ts| - 1]) + Params(ts[|ts| - 1])
  }

  /** `strings.Join` over templates: the separator is literal text between neighbours. */
  function Join(ts: seq<Template>, sep: string): Template
  {
    if |ts| == 0 then []
    else if |ts| == 1 then ts[0]
    else Join(ts[..|ts| - 1], sep) + [Text(sep)] + ts[|ts| - 1]
  }

  /** `strings.Join` over strings. */
  function JoinStrings(ss: seq<string>, sep: string): string
  {
    if |ss| == 0 then ""
    else if |ss| == 1 then ss[0]
    else JoinStrings(ss[..|ss| - 1], sep) + sep + ss[|ss| - 1]
  }

  function RenderAll(ts: seq<Template>): (ss: seq<string>)
    ensures |ss| == |ts|
    ensures forall i :: 0 <= i < |ts| ==> ss[i] == Render(ts[i])
  {
    seq(|ts|, i requires 0 <= i < |ts| => Render(ts[i]))
  }

  lemma {:induction false} RenderAppend(a: Template, b: Template)
    ensures Render(a + b) == Render(a) + Render(b)
    decreases |b|
  {
    if b == [] {
      assert a + b == a;
    } else {
      var b' := b[..|b| - 1];
      assert (a + b)[..|a + b| - 1] == a + b';
      RenderAppend(a, b');
    }
  }

  lemma {:induction false} TotalParamsAppend(ts: seq<Template>, us: seq<Template>)
    ensures TotalParams(ts + us) == TotalParams(ts) + TotalParams(us)
    decreases |us|
  {
    if us == [] {
      assert ts + us == ts;
    } else {
      var us' := us[..|us| - 1];
      assert (ts + us)[..|ts + us| - 1] == ts + us';
      TotalParamsAppend(ts, us');
    }
  }

  /** Joining adds no parameter of its own: the joined template consumes exactly the
      arguments its parts consume. */
  lemma {:induction false} JoinParams(ts: seq<Template>, sep: string)
    ensures Params(Join(ts, sep)) == TotalParams(ts)
  {
    if |ts| == 1 {
      assert ts[..0] == [];
    } else if |ts| > 1 {
      JoinParams(ts[..|ts| - 1], sep);
    }
  }

  /** A non-empty join starts with its first part. */
  lemma {:induction false} JoinStartsWithFirst(ts: seq<Template>, sep: string)
    requires |ts| >= 1
    ensures ts[0] <= Join(ts, sep)
  {
    if |ts| > 1 {
      JoinStartsWithFirst(ts[..|ts| - 1], sep);
    }
  }

  /** Rendering a joined template is Go's `strings.Join` of the rendered parts. */
  lemma {:induction false} RenderJoin(ts: seq<Template>, sep: string)
    ensures Render(Join(ts, sep)) == JoinStrings(RenderAll(ts), sep)
  {
    if |ts| > 1 {
      var init := ts[..|ts| - 1];
      RenderJoin(init, sep);
      RenderSeparated(Join(init, sep), sep, ts[|ts| - 1]);
      assert RenderAll(ts)[..|ts| - 1] == RenderAll(init);
    }
  }

  /** Two templates with literal text between them render with that text between. */
  lemma RenderSeparated(a: Template, sep: string, b: Template)
    ensures Render(a + [Text(sep)] + b) == Render(a) + sep + Render(b)
  {
    RenderAppend(a + [Text(sep)], b);
    RenderAppend(a, [Text(sep)]);
    assert [Text(sep)][..0] == [];
  }

  /** Literal text around a template renders around its rendering. */
  lemma RenderBetween(before: string, t: Template, after: string)
    ensures Render([Text(before)] + t + [Text(after)]) == before + Render(t) + after
  {
    RenderAppend([Text(before)] + t, [Text(after)]);
    RenderAppend([Text(before)], t);
    assert [Text(before)][..0] == [];
    assert [Text(after)][..0] == [];
  }

  /** Literal text before a non-empty join is followed directly by the first part. */
  lemma RenderJoinFirst(before: string, ts: seq<Template>, sep: string, after: string)
    requires |ts| >= 1
    ensures before + Render(ts[0]) <= Render([Text(before)] + Join(ts, sep) + [Text(after)])
  {
    JoinStartsWithFirst(ts, sep);
    RenderPrefix(before, ts[0], Join(ts, sep), after);
  }

  /** Literal text before a template that starts with `first` is followed by `first`. */
  lemma RenderPrefix(before: string, first: Template, t: Template, after: string)
    requires first <= t
    ensures before + Render(first) <= Render([Text(before)] + t + [Text(after)])
  {
    RenderBetween(before, t, after);
    RenderPrefixOf(first, t);
  }

  /** A template that starts with `first` renders starting with `first`'s text. */
  lemma RenderPrefixOf(first: Template, t: Template)
    requires first <= t
    ensures Render(first) <= Render(t)
  {
    var rest := t[|first|..];
    assert t == first + rest;
    RenderAppend(first, rest);
  }

  /** Literal text around an empty join renders as the two texts side by side. */
  lemma RenderEmptyJoin(before: string, sep: string, after: string)
    ensures Render([Text(before)] + Join([], sep) + [Text(after)]) == before + after
  {
    RenderBetween(before, [], after);
  }
}
