/**
 * Go's `fmt.Sprintf` applied to a format string and a single integer operand.
 *
 * The operand's Go type shows only in the bad-verb and `EXTRA` reports, which are
 * written here for type `int`, the type of the search's row cap. The age clause
 * formats an `int64`, but its format is plain text and one `%d`, which writes the
 * same decimal text for either type.
 *
 * The format is read left to right. Text outside directives is copied. `%%` writes
 * `%` and uses no operand. Any other directive takes the next operand:
 * - `%d` and `%v` write it in decimal;
 * - a verb that cannot print an integer, other than `T` and `w`, writes
 *   `%!<verb>(int=<value>)`;
 * - once the operand is used up, a directive writes `%!<verb>(MISSING)`.
 * A lone `%` at the end writes `%!(NOVERB)`. An operand no directive took is
 * reported at the end as `%!(EXTRA int=<value>)`.
 *
 * Flags, widths, precisions, argument indexes, the other integer verbs (`%x`,
 * `%c`, ...), `%T` and `%w` are outside this model: a format that uses one has no
 * result here.
 */
module GoFmt {

  import opened Options
  import opened Decimal
  import opened SqlText

  /** The text written so far and whether the operand has been used. */
  datatype Scanned = Scanned(text: string, used: bool)

  /** Characters that Go reads after `%` as a flag, an argument index, a width or a
      precision rather than as the verb. */
  predicate IsVerbModifier(c: char)
  {
    c in "#0+- [*.123456789"
  }

  /** Verbs whose output this model does not give: those other than `d` and `v` with
      which Go prints an integer, `T`, which prints the operand's type, and `w`, which
      `Sprintf` treats differently from one Go release to the next. */
  predicate IsUncoveredVerb(c: char)
  {
    c in "boOxXcqUTw"
  }

  /** Every directive of `s` is one this model covers. */
  predicate Covered(s: string)
    decreases |s|
  {
    if s == [] then true
    else if s[0] != '%' || |s| == 1 then Covered(s[1..])
    else !IsVerbModifier(s[1]) && !IsUncoveredVerb(s[1]) && Covered(s[2..])
  }

  /** `s` ends with a `%` that has no verb after it. */
  predicate OpenEnd(s: string)
    decreases |s|
  {
    if s == [] then false
    else if s[0] != '%' then OpenEnd(s[1..])
    else if |s| == 1 then true
    else OpenEnd(s[2..])
  }

  /** `s` has a directive that asks for an operand, that is, one other than `%%`. */
  predicate Consumes(s: string)
    decreases |s|
  {
    if s == [] then false
    else if s[0] != '%' then Consumes(s[1..])
    else if |s| == 1 then false
    else s[1] != '%' || Consumes(s[2..])
  }

  /** A piece of format that this model covers and that does not stop inside a
      directive, so that it can be followed by any other such piece. */
  predicate Complete(s: string)
  {
    Covered(s) && !OpenEnd(s)
  }

  /** `r` with `prefix` written before its text. */
  function After(prefix: string, r: Option<Scanned>): Option<Scanned>
  {
    match r
    case None => None
    case Some(x) => Some(Scanned(prefix + x.text, x.used))
  }

  /** Writes the directives and text of `s`; `used` says whether the operand `arg`
      was taken by an earlier directive. */
  function Scan(s: string, arg: int, used: bool): (r: Option<Scanned>)
    ensures r.Some? <==> Covered(s)
    ensures r.Some? ==> r.value.used == (used || Consumes(s))
    ensures '%' !in s ==> r == Some(Scanned(s, used))
    decreases |s|
  {
    if s == [] then Some(Scanned("", used))
    else if s[0] != '%' then
      assert s == [s[0]] + s[1..];
      After([s[0]], Scan(s[1..], arg, used))
    else if |s| == 1 then Some(Scanned("%!(NOVERB)", used))
    else if s[1] == '%' then After("%", Scan(s[2..], arg, used))
    else if IsVerbModifier(s[1]) || IsUncoveredVerb(s[1]) then None
    else if used then After("%!" + [s[1]] + "(MISSING)", Scan(s[2..], arg, true))
    else if s[1] == 'd' || s[1] == 'v' then After(FormatInt(arg), Scan(s[2..], arg, true))
    else After("%!" + [s[1]] + "(int=" + FormatInt(arg) + ")", Scan(s[2..], arg, true))
  }

  /** `fmt.Sprintf(format, arg)` for an `int` operand; `None` when the format uses a
      directive outside this model. */
  function Sprintf(format: string, arg: int): (r: Option<string>)
    ensures r.Some? <==> Covered(format)
    ensures '%' !in format ==> r == Some(format + "%!(EXTRA int=" + FormatInt(arg) + ")")
  {
    match Scan(format, arg, false)
    case None => None
    case Some(x) => Some(if x.used then x.text else x.text + "%!(EXTRA int=" + FormatInt(arg) + ")")
  }

  /** `%d` writes the operand in decimal, or reports it missing once it is used up. */
  lemma ScanDecimal(arg: int, used: bool)
    ensures Scan("%d", arg, used) == Some(Scanned(if used then "%!d(MISSING)" else FormatInt(arg), true))
  {
    var s := "%d";
    assert s[0] == '%' && |s| == 2 && s[1] == 'd';
    assert Scan(s[2..], arg, true) == Some(Scanned("", true));
    assert !IsVerbModifier('d') && !IsUncoveredVerb('d');
    if used {
      assert "%!" + [s[1]] + "(MISSING)" + "" == "%!d(MISSING)";
    } else {
      assert FormatInt(arg) + "" == FormatInt(arg);
    }
  }

  /** `%'` is not a verb Go prints an integer with: it writes the operand as a bad verb,
      or reports it missing once it is used up. */
  lemma ScanQuote(arg: int, used: bool)
    ensures Scan("%'", arg, used) ==
              Some(Scanned(if used then "%!'(MISSING)" else "%!'(int=" + FormatInt(arg) + ")", true))
    ensures Complete("%'") && Consumes("%'")
  {
    var s := "%'";
    assert s[0] == '%' && |s| == 2 && s[1] == '\'';
    assert Scan(s[2..], arg, true) == Some(Scanned("", true));
    assert !IsVerbModifier('\'') && !IsUncoveredVerb('\'');
    if used {
      assert "%!" + [s[1]] + "(MISSING)" + "" == "%!'(MISSING)";
    } else {
      BadQuoteText(FormatInt(arg));
    }
  }

  lemma BadQuoteText(digits: string)
    ensures "%!" + ['\''] + "(int=" + digits + ")" + "" == "%!'(int=" + digits + ")"
  {
  }

  /** Text with no `%` followed by one `%d` writes the text and the operand in decimal. */
  lemma SprintfTrailingDecimal(text: string, arg: int)
    requires '%' !in text
    ensures Sprintf(text + "%d", arg) == Some(text + FormatInt(arg))
  {
    PlainComplete(text);
    ScanConcat(text, "%d", arg, false);
    ScanDecimal(arg, false);
  }

  /** Text with no `%` is a complete piece. */
  lemma {:induction false} PlainComplete(s: string)
    requires '%' !in s
    ensures Complete(s)
    decreases |s|
  {
    if s != [] {
      assert s == [s[0]] + s[1..];
      PlainComplete(s[1..]);
    }
  }

  /** A complete piece followed by more format is read as the piece and then the rest:
      the rest starts from the operand state the piece leaves. */
  lemma {:induction false} ScanConcat(a: string, b: string, arg: int, used: bool)
    requires Complete(a)
    ensures Scan(a + b, arg, used) == After(Scan(a, arg, used).value.text, Scan(b, arg, Scan(a, arg, used).value.used))
    ensures OpenEnd(a + b) == OpenEnd(b)
    decreases |a|
  {
    if a == [] {
      assert a + b == b;
      match Scan(b, arg, used)
      case None =>
      case Some(x) => assert "" + x.text == x.text;
    } else if a[0] != '%' {
      assert (a + b)[1..] == a[1..] + b;
      ScanConcat(a[1..], b, arg, used);
      AfterAfter([a[0]], Scan(a[1..], arg, used).value.text, Scan(b, arg, Scan(a, arg, used).value.used));
    } else {
      assert (a + b)[2..] == a[2..] + b;
      if a[1] == '%' {
        ScanConcat(a[2..], b, arg, used);
        AfterAfter("%", Scan(a[2..], arg, used).value.text, Scan(b, arg, Scan(a, arg, used).value.used));
      } else {
        ScanConcat(a[2..], b, arg, true);
        var head := if used then "%!" + [a[1]] + "(MISSING)"
                    else if a[1] == 'd' || a[1] == 'v' then FormatInt(arg)
                    else "%!" + [a[1]] + "(int=" + FormatInt(arg) + ")";
        AfterAfter(head, Scan(a[2..], arg, true).value.text, Scan(b, arg, Scan(a, arg, used).value.used));
      }
    }
  }

  lemma AfterAfter(p: string, q: string, r: Option<Scanned>)
    ensures After(p, After(q, r)) == After(p + q, r)
  {
    match r
    case None =>
    case Some(x) => assert p + (q + x.text) == (p + q) + x.text;
  }

  /** Two complete pieces make a complete piece, which takes the operand iff one of
      them does. */
  lemma CompleteConcat(a: string, b: string, arg: int)
    requires Complete(a) && Complete(b)
    ensures Complete(a + b)
    ensures Consumes(a + b) == (Consumes(a) || Consumes(b))
  {
    ScanConcat(a, b, arg, false);
  }

  /** `strings.Join` of complete pieces with a separator without `%` is complete, and
      it takes the operand iff one of its parts does. */
  lemma {:induction false} JoinComplete(ss: seq<string>, sep: string)
    requires forall i :: 0 <= i < |ss| ==> Complete(ss[i])
    requires '%' !in sep
    ensures Complete(JoinStrings(ss, sep))
    ensures Consumes(JoinStrings(ss, sep)) <==> exists i :: 0 <= i < |ss| && Consumes(ss[i])
  {
    if |ss| == 0 {
      PlainComplete("");
    } else if |ss| > 1 {
      var init := ss[..|ss| - 1];
      JoinComplete(init, sep);
      PlainComplete(sep);
      CompleteConcat(JoinStrings(init, sep), sep, 0);
      CompleteConcat(JoinStrings(init, sep) + sep, ss[|ss| - 1], 0);
      assert Scan(sep, 0, false) == Some(Scanned(sep, false));
      if exists i :: 0 <= i < |ss| && Consumes(ss[i]) {
        var i :| 0 <= i < |ss| && Consumes(ss[i]);
        if i < |ss| - 1 {
          assert Consumes(init[i]);
        }
      }
    }
  }

  /** `strings.Join` of texts without `%`, with a separator without `%`, has no `%`. */
  lemma {:induction false} JoinPlain(ss: seq<string>, sep: string)
    requires forall i :: 0 <= i < |ss| ==> '%' !in ss[i]
    requires '%' !in sep
    ensures '%' !in JoinStrings(ss, sep)
  {
    if |ss| > 1 {
      JoinPlain(ss[..|ss| - 1], sep);
    }
  }
}
