/**
 The number parser applied to the cleaned text. It stands in for Python's
 `float()` on the plain decimal notation only: an optional sign, then digits
 with at most one period among them, and at least one digit in all. Every
 other string is rejected with `None`.
 */
module Decimal {
  import opened Wrappers

  datatype Sign = Unsigned | Plus | Minus

  /**
   A numeral split into its parts: the sign, the digits before the period,
   whether a period is written, and the digits after it.
   */
  datatype Numeral = Numeral(sign: Sign, whole: string, point: bool, frac: string)

  predicate IsDigit(c: char) {
    '0' <= c <= '9'
  }

  predicate AllDigits(s: string) {
    forall i :: 0 <= i < |s| ==> IsDigit(s[i])
  }

  /** The numerals the grammar admits. */
  predicate Valid(n: Numeral) {
    && AllDigits(n.whole)
    && AllDigits(n.frac)
    && (n.point || n.frac == [])
    && |n.whole| + |n.frac| > 0
  }

  function SignText(sign: Sign): string {
    match sign
    case Unsigned => ""
    case Plus => "+"
    case Minus => "-"
  }

  /** The text of a numeral, with `sep` as its decimal separator. */
  function RenderWith(n: Numeral, sep: char): string {
    SignText(n.sign) + n.whole + (if n.point then [sep] else []) + n.frac
  }

  /** The text of a numeral in the notation the parser reads. */
  function Render(n: Numeral): string {
    RenderWith(n, '.')
  }

  /** The position of the first `c` in `s`, if any. */
  function IndexOf(s: string, c: char): (r: Option<nat>)
    ensures r.Some? ==> r.value < |s| && s[r.value] == c && c !in s[..r.value]
    ensures r.None? ==> c !in s
  {
    if s == [] then None
    else if s[0] == c then Some(0)
    else
      match IndexOf(s[1..], c)
      case None => None
      case Some(i) =>
        assert s[..i + 1] == [s[0]] + s[1..][..i];
        Some(i + 1)
  }

  /** Reads an optional leading sign; the sign's text and the rest give back `s`. */
  function SplitSign(s: string): (r: (Sign, string))
    ensures SignText(r.0) + r.1 == s
  {
    if |s| > 0 && s[0] == '-' then (Minus, s[1..])
    else if |s| > 0 && s[0] == '+' then (Plus, s[1..])
    else (Unsigned, s)
  }

  /** Cuts the unsigned part of a numeral at its first period. */
  function SplitPoint(sign: Sign, body: string): (n: Numeral)
    ensures n.sign == sign
    ensures Render(n) == SignText(sign) + body
  {
    match IndexOf(body, '.')
    case None => Numeral(sign, body, false, [])
    case Some(i) =>
      assert body == body[..i] + ['.'] + body[i + 1..];
      Numeral(sign, body[..i], true, body[i + 1..])
  }

  /**
   Splits `s` into a numeral. Success means the text is exactly the
   rendering of a valid numeral.
   */
  function Lex(s: string): (r: Option<Numeral>)
    ensures r.Some? ==> Valid(r.value) && Render(r.value) == s
  {
    var (sign, body) := SplitSign(s);
    var n := SplitPoint(sign, body);
    if Valid(n) then Some(n) else None
  }

  /** Every valid numeral is read back from its own text. */
  lemma LexRender(n: Numeral)
    requires Valid(n)
    ensures Lex(Render(n)) == Some(n)
  {
    var s := Render(n);
    var body := n.whole + (if n.point then ['.'] else []) + n.frac;
    assert s == SignText(n.sign) + body;
    assert SplitSign(s) == (n.sign, body) by {
      if n.sign == Unsigned {
        assert s == body;
        if |n.whole| > 0 {
          assert body[0] == n.whole[0];
          assert IsDigit(n.whole[0]);
        } else {
          assert body[0] == '.';
        }
      } else {
        assert s == SignText(n.sign) + body;
        assert s[0] == SignText(n.sign)[0];
        assert s[1..] == body;
      }
    }
    assert '.' !in n.whole by {
      forall i | 0 <= i < |n.whole| ensures n.whole[i] != '.' {
        assert IsDigit(n.whole[i]);
      }
    }
    if n.point {
      var i := |n.whole|;
      assert body[i] == '.';
      assert body[..i] == n.whole;
      assert IndexOf(body, '.') == Some(i);
      assert body[i + 1..] == n.frac;
    } else {
      assert body == n.whole;
    }
  }

  /** The lexer accepts a string exactly when it is the text of a valid numeral, and returns that numeral. */
  lemma LexExact(s: string, n: Numeral)
    ensures Lex(s) == Some(n) <==> Valid(n) && Render(n) == s
  {
    if Valid(n) && Render(n) == s {
      LexRender(n);
    }
  }

  function DigitValue(c: char): (d: nat)
    requires IsDigit(c)
    ensures d < 10
  {
    c as int - '0' as int
  }

  function Pow10(k: nat): (p: nat)
    ensures p >= 1
  {
    if k == 0 then 1 else 10 * Pow10(k - 1)
  }

  /** The number a digit string denotes, most significant digit first. */
  function DigitsValue(s: string): (v: nat)
    requires AllDigits(s)
    ensures v < Pow10(|s|)
  {
    if s == [] then 0
    else DigitsValue(s[..|s| - 1]) * 10 + DigitValue(s[|s| - 1])
  }

  /** Writing digits `b` after digits `a` shifts `a` left by `|b|` places. */
  lemma {:induction false} DigitsValueConcat(a: string, b: string)
    requires AllDigits(a) && AllDigits(b)
    ensures AllDigits(a + b)
    ensures DigitsValue(a + b) == DigitsValue(a) * Pow10(|b|) + DigitsValue(b)
  {
    assert AllDigits(a + b) by {
      forall i | 0 <= i < |a + b| ensures IsDigit((a + b)[i]) {
        if i >= |a| {
          assert (a + b)[i] == b[i - |a|];
        }
      }
    }
    if b == [] {
      assert a + b == a;
    } else {
      var b' := b[..|b| - 1];
      var d := DigitValue(b[|b| - 1]);
      assert (a + b)[..|a + b| - 1] == a + b';
      assert (a + b)[|a + b| - 1] == b[|b| - 1];
      DigitsValueConcat(a, b');
      ShiftStep(DigitsValue(a), Pow10(|b'|), DigitsValue(b'), d);
    }
  }

  lemma ShiftStep(x: int, p: int, y: int, d: int)
    ensures (x * p + y) * 10 + d == x * (10 * p) + (y * 10 + d)
  {
    assert (x * p) * 10 == x * (10 * p);
  }

  /** A fraction whose numerator is below its denominator lies in [0, 1). */
  lemma FractionBelowOne(f: real, p: real)
    requires 0.0 <= f < p
    ensures 0.0 <= f / p < 1.0
  {
    assert f / p * p == f;
  }

  /** The size of a numeral: its whole digits plus its fraction digits scaled down. */
  function Magnitude(n: Numeral): (m: real)
    requires Valid(n)
    ensures DigitsValue(n.whole) as real <= m < DigitsValue(n.whole) as real + 1.0
  {
    FractionBelowOne(DigitsValue(n.frac) as real, Pow10(|n.frac|) as real);
    DigitsValue(n.whole) as real + DigitsValue(n.frac) as real / Pow10(|n.frac|) as real
  }

  /** The signed value of a numeral. */
  function Value(n: Numeral): (v: real)
    requires Valid(n)
    ensures n.sign != Minus ==> v >= 0.0
    ensures n.sign == Minus ==> v <= 0.0
  {
    if n.sign == Minus then -Magnitude(n) else Magnitude(n)
  }

  /** A numeral denotes its digit string, period ignored, divided by ten to the number of fraction digits. */
  lemma NumeralScaled(n: Numeral)
    requires Valid(n)
    ensures AllDigits(n.whole + n.frac)
    ensures Magnitude(n) == DigitsValue(n.whole + n.frac) as real / Pow10(|n.frac|) as real
  {
    DigitsValueConcat(n.whole, n.frac);
    ScaleBack(DigitsValue(n.whole), DigitsValue(n.frac), Pow10(|n.frac|),
              DigitsValue(n.whole + n.frac), Magnitude(n));
  }

  /** Multiplying `w + f / p` by `p` clears the fraction. */
  lemma ScaleBack(w: nat, f: nat, p: nat, j: nat, m: real)
    requires p >= 1
    requires j == w * p + f
    requires m == w as real + f as real / p as real
    ensures m == j as real / p as real
  {
    var k := w * p;
    assert m * p as real == (k + f) as real by {
      assert f as real / p as real * p as real == f as real;
      assert k as real == w as real * p as real;
    }
  }

  /** A minus sign negates and a plus sign changes nothing. */
  lemma SignEffect(n: Numeral)
    requires Valid(n)
    ensures Value(n.(sign := Minus)) == -Value(n.(sign := Unsigned))
    ensures Value(n.(sign := Plus)) == Value(n.(sign := Unsigned))
  {
  }

  /** The parser: the value of the numeral the text spells, or `None`. */
  function Parse(s: string): Option<real> {
    match Lex(s)
    case None => None
    case Some(n) => Some(Value(n))
  }

  /** The parser fails exactly on the strings that are the text of no valid numeral, and otherwise yields that numeral's value. */
  lemma ParseExact(s: string)
    ensures Parse(s).None? <==> forall n :: Valid(n) ==> Render(n) != s
    ensures forall n :: Valid(n) && Render(n) == s ==> Parse(s) == Some(Value(n))
  {
    forall n | Valid(n) && Render(n) == s ensures Parse(s) == Some(Value(n)) {
      LexRender(n);
    }
  }
}
