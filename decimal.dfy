/**
 * Decimal text of integers, as Go's `%d` verb writes an `int64` (a leading `-` for
 * negative values, no leading zeros), together with the parser that reads it back.
 * The search builder writes the requested age into its clause text with `%d`.
 */
module Decimal {

  import opened Options

  function DigitChar(d: nat): (c: char)
    requires d < 10
    ensures '0' <= c <= '9'
  {
    (48 + d) as char
  }

  function DigitValue(c: char): (r: Option<nat>)
    ensures r.Some? <==> '0' <= c <= '9'
    ensures r.Some? ==> r.value < 10 && DigitChar(r.value) == c
  {
    if '0' <= c <= '9' then Some(c as int - 48) else None
  }

  /** The shortest decimal numeral of `n`. */
  function NatText(n: nat): (s: string)
    ensures |s| >= 1
    ensures forall i :: 0 <= i < |s| ==> '0' <= s[i] <= '9'
    ensures s[0] == '0' ==> n == 0
  {
    if n < 10 then [DigitChar(n)] else NatText(n / 10) + [DigitChar(n % 10)]
  }

  /** What `fmt.Sprintf("%d", n)` produces. */
  function FormatInt(n: int): (s: string)
    ensures |s| >= 1 && (n < 0 ==> |s| >= 2)
    ensures n < 0 <==> s[0] == '-'
    ensures forall i :: (if n < 0 then 1 else 0) <= i < |s| ==> '0' <= s[i] <= '9'
    ensures s[if n < 0 then 1 else 0] == '0' ==> n == 0
    ensures n == 0 ==> s == "0"
  {
    if n < 0 then "-" + NatText(-n) else NatText(n)
  }

  /** Reads a non-empty run of decimal digits; anything else is `None`. */
  function ParseNat(s: string): (r: Option<nat>)
    ensures r.Some? ==> |s| >= 1
  {
    if |s| == 0 then None
    else if |s| == 1 then DigitValue(s[0])
    else
      match (ParseNat(s[..|s| - 1]), DigitValue(s[|s| - 1]))
      case (Some(high), Some(low)) => Some(high * 10 + low)
      case _ => None
  }

  /** Reads an optionally negative decimal numeral. */
  function ParseInt(s: string): (r: Option<int>)
  {
    if |s| >= 1 && s[0] == '-' then
      match ParseNat(s[1..])
      case Some(m) => Some(-(m as int))
      case None => None
    else
      match ParseNat(s)
      case Some(m) => Some(m)
      case None => None
  }

  lemma {:induction false} ParseNatText(n: nat)
    ensures ParseNat(NatText(n)) == Some(n)
  {
    if n >= 10 {
      var high := NatText(n / 10);
      ParseNatText(n / 10);
      assert NatText(n) == high + [DigitChar(n % 10)];
      assert NatText(n)[..|NatText(n)| - 1] == high;
      assert DigitValue(DigitChar(n % 10)) == Some(n % 10);
    } else {
      assert DigitValue(DigitChar(n)) == Some(n);
    }
  }

  /** Reading back what `FormatInt` wrote gives the original integer. */
  lemma ParseFormat(n: int)
    ensures ParseInt(FormatInt(n)) == Some(n)
  {
    if n < 0 {
      ParseNatText(-n);
      ParseNegative(NatText(-n));
    } else {
      ParseNatText(n);
      ParseUnsigned(NatText(n));
    }
  }

  lemma ParseNegative(t: string)
    requires ParseNat(t).Some?
    ensures ParseInt("-" + t) == Some(-(ParseNat(t).value as int))
  {
    assert ("-" + t)[1..] == t;
  }

  lemma ParseUnsigned(t: string)
    requires ParseNat(t).Some?
    ensures ParseInt(t) == Some(ParseNat(t).value as int)
  {
    assert DigitValue(t[0]).Some? by { NatDigitsFirst(t); }
  }

  /** A numeral that reads as a number starts with a digit. */
  lemma {:induction false} NatDigitsFirst(t: string)
    requires ParseNat(t).Some?
    ensures DigitValue(t[0]).Some?
  {
    if |t| > 1 {
      NatDigitsFirst(t[..|t| - 1]);
    }
  }

  /** Distinct integers have distinct decimal texts. */
  lemma FormatIntInjective(a: int, b: int)
    requires FormatInt(a) == FormatInt(b)
    ensures a == b
  {
    ParseFormat(a);
    ParseFormat(b);
  }
}
