/**
 * Hand-written recognisers for the two flag-token grammars and the
 * declaration-key patterns of integrity.js.
 *
 *   numeric flag:  ^(!==|===|<|<=|>|>=) -?\d+(\.\d+)?$
 *   string flag:   ^(!==|===) .+$
 *
 * A recognised token is split at its first space: the operator is the
 * text before it, the operand the whole remainder.
 */
module Tokens {
  import opened Wrappers
  import opened Values

  /** `s.indexOf(c)`: the first position of `c` in `s`, or -1. */
  function IndexOf(s: string, c: char): (i: int)
    ensures -1 <= i < |s|
    ensures 0 <= i ==> s[i] == c && c !in s[..i]
    ensures i == -1 <==> c !in s
  {
    if s == [] then -1
    else if s[0] == c then 0
    else
      var j := IndexOf(s[1..], c);
      if j == -1 then -1
      else
        assert s[..j + 1] == [s[0]] + s[1..][..j];
        j + 1
  }

  /** The first occurrence is the only one `IndexOf` can return. */
  lemma IndexOfFirst(s: string, c: char, k: int)
    requires 0 <= k < |s| && s[k] == c && c !in s[..k]
    ensures IndexOf(s, c) == k
  {
    assert s[..k + 1][k] == c;
  }

  /** `/pat/.test(s)` for a pattern without metacharacters: `pat` occurs in `s`. */
  predicate Contains(s: string, pat: string)
  {
    exists i :: 0 <= i <= |s| && pat <= s[i..]
  }

  predicate IsDigit(c: char)
  {
    '0' <= c <= '9'
  }

  /** `\d+`: one or more decimal digits. */
  predicate IsDigits(s: string)
  {
    |s| > 0 && forall i :: 0 <= i < |s| ==> IsDigit(s[i])
  }

  /** The value of a string of decimal digits (0 for the empty string). */
  function DigitsValue(s: string): nat
    requires forall i :: 0 <= i < |s| ==> IsDigit(s[i])
  {
    if s == [] then 0
    else
      var c := s[|s| - 1];
      assert IsDigit(c);
      10 * DigitsValue(s[..|s| - 1]) + (c as int - '0' as int)
  }

  function Pow10(n: nat): (p: nat)
    ensures p >= 1
  {
    if n == 0 then 1 else 10 * Pow10(n - 1)
  }

  /** The value of fraction digits: `"25"` is 25/100. */
  function Fraction(f: string): real
    requires forall i :: 0 <= i < |f| ==> IsDigit(f[i])
  {
    DigitsValue(f) as real / Pow10(|f|) as real
  }

  lemma {:induction false} DigitsBelowPow10(s: string)
    requires forall i :: 0 <= i < |s| ==> IsDigit(s[i])
    ensures DigitsValue(s) < Pow10(|s|)
  {
    if s != [] {
      var c := s[|s| - 1];
      assert IsDigit(c);
      DigitsBelowPow10(s[..|s| - 1]);
    }
  }

  /** Fraction digits add less than one: the whole digits are the literal's integer part. */
  lemma FractionBelowOne(f: string)
    requires forall i :: 0 <= i < |f| ==> IsDigit(f[i])
    ensures 0.0 <= Fraction(f) < 1.0
  {
    DigitsBelowPow10(f);
    RatioBelowOne(DigitsValue(f) as real, Pow10(|f|) as real);
  }

  lemma RatioBelowOne(x: real, p: real)
    requires 0.0 <= x < p
    ensures 0.0 <= x / p < 1.0
  {
    assert (x / p) * p == x;
  }

  /** `\d+(\.\d+)?`: digits and an optional fraction. */
  predicate IsUnsignedLiteral(body: string)
  {
    var d := IndexOf(body, '.');
    if d < 0 then IsDigits(body)
    else IsDigits(body[..d]) && IsDigits(body[d + 1..])
  }

  /** The value of an unsigned literal, as an exact real. */
  function UnsignedValue(body: string): real
    requires IsUnsignedLiteral(body)
  {
    var d := IndexOf(body, '.');
    if d < 0 then DigitsValue(body) as real
    else DigitsValue(body[..d]) as real + Fraction(body[d + 1..])
  }

  /** `-?\d+(\.\d+)?`: an optional minus sign, then an unsigned literal. */
  predicate IsNumLiteral(s: string)
  {
    if |s| > 0 && s[0] == '-' then IsUnsignedLiteral(s[1..]) else IsUnsignedLiteral(s)
  }

  /** `+s` for a numeric literal, as an exact real. */
  function LiteralValue(s: string): real
    requires IsNumLiteral(s)
  {
    if |s| > 0 && s[0] == '-' then -UnsignedValue(s[1..]) else UnsignedValue(s)
  }

  /** The text of an unsigned literal: whole digits, and a fraction when `f` is not empty. */
  function UnsignedText(d: string, f: string): string
  {
    if f == [] then d else d + "." + f
  }

  /** The text of a literal: a minus sign when `neg`, then the unsigned text. */
  function LiteralText(neg: bool, d: string, f: string): string
  {
    if neg then "-" + UnsignedText(d, f) else UnsignedText(d, f)
  }

  lemma DigitsHaveNoDot(d: string)
    requires IsDigits(d)
    ensures '.' !in d
  {
  }

  lemma WholeLiteral(d: string)
    requires IsDigits(d)
    ensures IsUnsignedLiteral(d) && UnsignedValue(d) == DigitsValue(d) as real
  {
    DigitsHaveNoDot(d);
  }

  lemma DotAfterDigits(d: string, f: string)
    requires IsDigits(d)
    ensures IndexOf(d + "." + f, '.') == |d|
  {
    var body := d + "." + f;
    DigitsHaveNoDot(d);
    assert body[..|d|] == d;
    IndexOfFirst(body, '.', |d|);
  }

  lemma FractionLiteral(d: string, f: string)
    requires IsDigits(d) && IsDigits(f)
    ensures IsUnsignedLiteral(d + "." + f)
    ensures UnsignedValue(d + "." + f) == DigitsValue(d) as real + Fraction(f)
  {
    var body := d + "." + f;
    DotAfterDigits(d, f);
    assert body[..|d|] == d;
    assert body[|d| + 1..] == f;
  }

  /** Digits, then a fraction when `f` is not empty: the whole value plus the fraction over a power of ten. */
  lemma UnsignedParts(d: string, f: string)
    requires IsDigits(d)
    requires f == [] || IsDigits(f)
    ensures IsUnsignedLiteral(UnsignedText(d, f))
    ensures UnsignedValue(UnsignedText(d, f)) ==
      DigitsValue(d) as real + Fraction(f)
  {
    if f == [] {
      assert UnsignedText(d, f) == d;
      WholeLiteral(d);
    } else {
      assert UnsignedText(d, f) == d + "." + f;
      FractionLiteral(d, f);
    }
  }

  /** An unsigned literal starts with a digit. */
  lemma UnsignedStartsWithDigit(body: string)
    requires IsUnsignedLiteral(body)
    ensures |body| > 0 && IsDigit(body[0])
  {
    var d := IndexOf(body, '.');
    if d >= 0 {
      assert IsDigit(body[..d][0]);
    }
  }

  lemma NegatedLiteral(s: string)
    requires |s| > 0 && s[0] == '-' && IsUnsignedLiteral(s[1..])
    ensures IsNumLiteral(s) && LiteralValue(s) == -UnsignedValue(s[1..])
  {
  }

  /** An unsigned literal starts with a digit, so a leading `-` is always the sign. */
  lemma SignedLiteral(body: string)
    requires IsUnsignedLiteral(body)
    ensures IsNumLiteral(body) && LiteralValue(body) == UnsignedValue(body)
    ensures IsNumLiteral("-" + body) && LiteralValue("-" + body) == -UnsignedValue(body)
  {
    UnsignedStartsWithDigit(body);
    assert ("-" + body)[1..] == body;
    NegatedLiteral("-" + body);
  }

  /**
   * Unary `+` on a literal of the grammar: the whole digits plus the
   * fraction digits over a power of ten, negated under a minus sign
   * (`"-0.5"` reads as -0.5; `"-0"` as 0).
   */
  lemma LiteralParts(neg: bool, d: string, f: string)
    requires IsDigits(d)
    requires f == [] || IsDigits(f)
    ensures IsNumLiteral(LiteralText(neg, d, f))
    ensures LiteralValue(LiteralText(neg, d, f)) ==
      var magnitude := DigitsValue(d) as real + Fraction(f);
      if neg then -magnitude else magnitude
  {
    UnsignedParts(d, f);
    SignedLiteral(UnsignedText(d, f));
  }

  /** The whole digits of an unsigned literal are the integer part of its value. */
  lemma LiteralWholePart(d: string, f: string)
    requires IsDigits(d)
    requires f == [] || IsDigits(f)
    ensures IsNumLiteral(LiteralText(false, d, f)) && LiteralValue(LiteralText(false, d, f)).Floor == DigitsValue(d)
  {
    LiteralParts(false, d, f);
    FractionBelowOne(f);
  }

  /** The decimal spelling of a natural number. */
  function NatText(n: nat): (s: string)
    ensures IsDigits(s)
  {
    var d := ['0' + (n % 10) as char];
    if n < 10 then d else NatText(n / 10) + d
  }

  /** The decimal spelling of an integer, with a minus sign when negative. */
  function IntText(n: int): string
  {
    if n < 0 then "-" + NatText(-n) else NatText(n)
  }

  lemma {:induction false} NatTextValue(n: nat)
    ensures DigitsValue(NatText(n)) == n
  {
    var d := ['0' + (n % 10) as char];
    if n >= 10 {
      var s := NatText(n / 10) + d;
      assert s[..|s| - 1] == NatText(n / 10);
      NatTextValue(n / 10);
    }
  }

  /** Literal parsing inverts integer spelling: `+String(n) === n`. */
  lemma IntTextRoundTrip(n: int)
    ensures IsNumLiteral(IntText(n))
    ensures LiteralValue(IntText(n)) == n as real
  {
    var m: nat := if n < 0 then -n else n;
    var t := NatText(m);
    NatTextValue(m);
    assert IndexOf(t, '.') == -1 by {
      assert forall i :: 0 <= i < |t| ==> t[i] != '.';
    }
    if n < 0 {
      assert IntText(n)[1..] == t;
    }
  }

  /**
   * The operator table lookup `this.number[text]` for the six operator
   * keys, by length and then character.
   */
  function ParseOp(text: string): (r: Option<Op>)
    ensures r.Some? ==> OpText(r.value) == text
  {
    if |text| == 1 then
      if text[0] == '<' then Some(Lt)
      else if text[0] == '>' then Some(Gt)
      else None
    else if |text| == 2 && text[1] == '=' then
      if text[0] == '<' then Some(Le)
      else if text[0] == '>' then Some(Ge)
      else None
    else if |text| == 3 && text[1] == '=' && text[2] == '=' then
      if text[0] == '!' then Some(Ne)
      else if text[0] == '=' then Some(Eq)
      else None
    else None
  }

  lemma ParseOpText(op: Op)
    ensures ParseOp(OpText(op)) == Some(op)
    ensures ' ' !in OpText(op)
  {
  }

  /**
   * The numeric-flag grammar: on a match, the operator and the literal
   * text after the first space.
   */
  function MatchNumericFlag(t: string): (r: Option<(Op, string)>)
    ensures r.Some? ==> t == OpText(r.value.0) + " " + r.value.1 && IsNumLiteral(r.value.1)
  {
    var i := IndexOf(t, ' ');
    if i < 0 then None
    else
      match ParseOp(t[..i])
      case None => None
      case Some(op) =>
        if IsNumLiteral(t[i + 1..]) then
          assert t == t[..i] + " " + t[i + 1..];
          Some((op, t[i + 1..]))
        else None
  }

  /** Every token of the numeric-flag grammar is recognised, with its parts. */
  lemma NumericFlagComplete(op: Op, lit: string)
    requires IsNumLiteral(lit)
    ensures MatchNumericFlag(OpText(op) + " " + lit) == Some((op, lit))
  {
    var t := OpText(op) + " " + lit;
    var k := |OpText(op)|;
    ParseOpText(op);
    assert t[..k] == OpText(op);
    IndexOfFirst(t, ' ', k);
    assert t[k + 1..] == lit;
  }

  /** JS `.` does not match these: line feed, carriage return, line and paragraph separator. */
  predicate IsLineTerminator(c: char)
  {
    c == '\n' || c == '\r' || c == '\U{2028}' || c == '\U{2029}'
  }

  /** `.+`: one or more characters, none a line terminator. */
  predicate IsLineText(s: string)
  {
    |s| > 0 && forall i :: 0 <= i < |s| ==> !IsLineTerminator(s[i])
  }

  /**
   * The string-flag grammar: on a match, the operator (`!==` or `===`)
   * and the whole remainder after the first space, spaces included.
   */
  function MatchStringFlag(t: string): (r: Option<(Op, string)>)
    ensures r.Some? ==> (r.value.0 == Ne || r.value.0 == Eq)
    ensures r.Some? ==> t == OpText(r.value.0) + " " + r.value.1 && IsLineText(r.value.1)
  {
    var i := IndexOf(t, ' ');
    if i < 0 then None
    else
      match ParseOp(t[..i])
      case Some(op) =>
        if (op == Ne || op == Eq) && IsLineText(t[i + 1..]) then
          assert t == t[..i] + " " + t[i + 1..];
          Some((op, t[i + 1..]))
        else None
      case None => None
  }

  /** Every token of the string-flag grammar is recognised, with its parts. */
  lemma StringFlagComplete(op: Op, s: string)
    requires op == Ne || op == Eq
    requires IsLineText(s)
    ensures MatchStringFlag(OpText(op) + " " + s) == Some((op, s))
  {
    var t := OpText(op) + " " + s;
    ParseOpText(op);
    assert t[..3] == OpText(op);
    IndexOfFirst(t, ' ', 3);
    assert t[4..] == s;
  }
}
